/** The sections of a volume, computed from its block count in unsigned 32-bit arithmetic. */
module OsadaLayout {
  import opened OsadaDisk

  const WORD: nat := 0x1_0000_0000
  const FILE_TABLE_SIZE: nat := 1024

  datatype Layout = Layout(bitmap: nat, mapping: nat, data: nat)

  function Wrap(x: int): nat {
    x % WORD
  }

  /** Blocks left for the mapping table and the data. */
  function Rest(fsBlocks: nat): nat {
    Wrap(fsBlocks - 1 - fsBlocks / 8 / BLOCK_SIZE - FILE_TABLE_SIZE)
  }

  function ReadAndSet(fsBlocks: nat): Layout {
    var bitmap := fsBlocks / 8 / BLOCK_SIZE;
    var mapping := 1 + Wrap(Wrap(Rest(fsBlocks) * 4) - 1) / BLOCK_SIZE;
    Layout(bitmap, mapping, Wrap(fsBlocks - 1 - bitmap - FILE_TABLE_SIZE - mapping))
  }

  /** Header, bitmap, file table, mapping table and data follow each other and fill the volume;
      there is data; and every data block has a bit and a mapping cell of its own. */
  predicate Sound(fsBlocks: nat, l: Layout) {
    && 1 + l.bitmap + FILE_TABLE_SIZE + l.mapping + l.data == fsBlocks
    && 1 <= l.data <= 8 * BLOCK_SIZE * l.bitmap && 4 * l.data <= BLOCK_SIZE * l.mapping
  }

  /** With no wrap-around the mapping table is a sixteenth of the rest, rounded up. */
  lemma MappingFits(fsBlocks: nat)
    requires fsBlocks < WORD && 2 <= Rest(fsBlocks) <= 0x4000_0000
    ensures ReadAndSet(fsBlocks).mapping == (Rest(fsBlocks) + 15) / 16
  {
    var r := Rest(fsBlocks);
    if r < 0x4000_0000 {
      assert Wrap(r * 4) == 4 * r && Wrap(4 * r - 1) == 4 * r - 1;
    } else {
      assert Wrap(r * 4) == 0 && Wrap(0 - 1) == WORD - 1;
    }
  }

  /** Past 2^30 blocks the size of the table in bytes wraps, and the table comes out short. */
  lemma MappingShort(fsBlocks: nat)
    requires fsBlocks < WORD && Rest(fsBlocks) > 0x4000_0000
    ensures !Sound(fsBlocks, ReadAndSet(fsBlocks))
  {
    var r, l := Rest(fsBlocks), ReadAndSet(fsBlocks);
    var bytes := Wrap(Wrap(r * 4) - 1);
    assert l.mapping == 1 + bytes / BLOCK_SIZE && bytes < WORD;
    assert BLOCK_SIZE * l.mapping <= bytes + BLOCK_SIZE;
    if r <= 0x7fff_ffff {
      assert Wrap(r * 4) == 4 * r - WORD;
      assert bytes == 4 * r - WORD - 1;
    }
    assert 17 * l.mapping < r;
  }

  /** When what is left is small enough the subtraction has not wrapped. */
  lemma RestIs(fsBlocks: nat)
    requires fsBlocks < WORD && Rest(fsBlocks) <= 0x4000_0000
    ensures Rest(fsBlocks) == fsBlocks - 1 - fsBlocks / 8 / BLOCK_SIZE - FILE_TABLE_SIZE
  {
  }

  lemma BitmapBounds(fsBlocks: nat)
    ensures var b := fsBlocks / 8 / BLOCK_SIZE; 512 * b <= fsBlocks < 512 * (b + 1)
  {
  }

  lemma LayoutGood(fsBlocks: nat)
    requires fsBlocks < WORD && 2 <= Rest(fsBlocks) <= 0x4000_0000
    ensures Sound(fsBlocks, ReadAndSet(fsBlocks))
  {
    MappingFits(fsBlocks);
    RestIs(fsBlocks);
    BitmapBounds(fsBlocks);
    var r, l := Rest(fsBlocks), ReadAndSet(fsBlocks);
    assert r <= 16 * l.mapping <= r + 15;
    assert l.data == r - l.mapping;
  }

  /** The layout is sound exactly for volumes that leave at least two blocks after the fixed
      sections and no more than 2^30. */
  lemma LayoutSoundIff(fsBlocks: nat)
    requires fsBlocks < WORD
    ensures Sound(fsBlocks, ReadAndSet(fsBlocks)) <==> 2 <= Rest(fsBlocks) <= 0x4000_0000
  {
    if Rest(fsBlocks) > 0x4000_0000 {
      MappingShort(fsBlocks);
    } else if Rest(fsBlocks) >= 2 {
      LayoutGood(fsBlocks);
    }
  }
}
