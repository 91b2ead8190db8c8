/** What clients read and write: the byte sequence of a file, the effect of the copy loop on
    it, and the accounting of blocks over the whole volume. */
module OsadaContent {
  import opened Bytes
  import opened OsadaDisk
  import opened OsadaChains

  /** File `f` aside, nothing about any file changed, and the same blocks are reserved. */
  ghost predicate OnlyFile(d: Disk, k: Book, f: nat, e: Disk, k': Book)
    requires Wf(d, k) && f < |k.ch|
  {
    && Wf(e, k') && |k'.ch| == |k.ch| && |e.used| == |d.used|
    && ReservedSet(k') == ReservedSet(k)
    && forall g :: 0 <= g < |k.ch| && g != f ==> FileOf(e, k', g) == FileOf(d, k, g)
  }

  // ---------------------------------------------------------------- metadata updates

  function SetNode(d: Disk, f: nat, size: nat, lastmod: int): Disk
    requires f < |d.inodes|
  {
    d.(inodes := d.inodes[f := d.inodes[f].(size := size, lastmod := lastmod)])
  }

  lemma SetNodeWf(d: Disk, k: Book, f: nat, size: nat, lastmod: int)
    requires Wf(d, k) && f < |k.ch|
    ensures Wf(SetNode(d, f, size, lastmod), k)
    ensures OnlyFile(d, k, f, SetNode(d, f, size, lastmod), k)
    ensures FileOf(SetNode(d, f, size, lastmod), k, f)
            == FileOf(d, k, f).(node := d.inodes[f].(size := size, lastmod := lastmod))
    ensures forall g :: 0 <= g < |k.ch| && g != f ==> FileOf(SetNode(d, f, size, lastmod), k, g) == FileOf(d, k, g)
  {
    var e := SetNode(d, f, size, lastmod);
    forall g | 0 <= g < |k.ch| ensures Linked(e, k, g) {
      assert Linked(d, k, g);
    }
    forall b | 0 <= b < |e.used| ensures Accounted(e, k, b) {
      assert Accounted(d, k, b);
    }
  }

  /** Growth commutes with the metadata update that precedes it in the server. */
  lemma GrownMeta(d: Disk, k: Book, f: nat, size: nat, taken: seq<nat>, e: Disk, k': Book)
    requires Wf(d, k) && f < |k.ch|
    requires Wf(SetNode(d, f, size, d.inodes[f].lastmod), k)
    requires Grown(SetNode(d, f, size, d.inodes[f].lastmod), k, f, taken, e, k')
    ensures Grown(d, k, f, taken, SetNode(e, f, d.inodes[f].size, d.inodes[f].lastmod), k')
  {
    var lm, fs := d.inodes[f].lastmod, d.inodes[f].size;
    SetNodeWf(d, k, f, size, lm);
    SetNodeWf(e, k', f, fs, lm);
    var d1, e1 := SetNode(d, f, size, lm), SetNode(e, f, fs, lm);
    forall g | 0 <= g < |k.ch| && g != f ensures FileOf(e1, k', g) == FileOf(d, k, g) {
      assert FileOf(e1, k', g) == FileOf(e, k', g);
      assert FileOf(e, k', g) == FileOf(d1, k, g);
    }
  }

  // ---------------------------------------------------------------- copying into blocks

  function Splice(b: Block, off: nat, chunk: seq<byte>): Block
    requires off + |chunk| <= BLOCK_SIZE
  {
    b[..off] + chunk + b[off + |chunk|..]
  }

  function WriteBlock(d: Disk, b: nat, off: nat, chunk: seq<byte>): Disk
    requires b < |d.data| && off + |chunk| <= BLOCK_SIZE
  {
    d.(data := d.data[b := Splice(d.data[b], off, chunk)])
  }

  lemma WriteBlockWf(d: Disk, k: Book, f: nat, i: nat, off: nat, chunk: seq<byte>)
    requires Wf(d, k) && f < |k.ch| && i < |k.ch[f]| && off + |chunk| <= BLOCK_SIZE
    ensures k.ch[f][i] < |d.data|
    ensures var e := WriteBlock(d, k.ch[f][i], off, chunk);
            && Wf(e, k)
            && var blocks := FileOf(d, k, f).blocks;
            && FileOf(e, k, f) == FileOf(d, k, f).(blocks := blocks[i := Splice(blocks[i], off, chunk)])
            && forall g :: 0 <= g < |k.ch| && g != f ==> FileOf(e, k, g) == FileOf(d, k, g)
  {
    assert Linked(d, k, f);
    var e := WriteBlock(d, k.ch[f][i], off, chunk);
    forall g | 0 <= g < |k.ch| ensures Linked(e, k, g) {
      assert Linked(d, k, g);
    }
    forall b | 0 <= b < |e.used| ensures Accounted(e, k, b) {
      assert Accounted(d, k, b);
    }
    forall g, j | 0 <= g < |k.ch| && 0 <= j < |k.ch[g]| && (g != f || j != i)
      ensures k.ch[g][j] != k.ch[f][i]
    {
      assert Linked(d, k, g);
    }
  }

  /** The blocks `to` are the blocks `from`, possibly with more after them, with the first `n`
      bytes of `buf` laid over from byte position `off` on. */
  ghost predicate Overlaid(from: seq<Block>, to: seq<Block>, off: nat, buf: seq<byte>, n: nat)
    requires n <= |buf|
  {
    && |from| <= |to|
    && (forall i, r :: 0 <= i < |to| && 0 <= r < BLOCK_SIZE && off <= BLOCK_SIZE * i + r < off + n ==>
         to[i][r] == buf[BLOCK_SIZE * i + r - off])
    && (forall i, r :: 0 <= i < |from| && 0 <= r < BLOCK_SIZE && !(off <= BLOCK_SIZE * i + r < off + n) ==>
         to[i][r] == from[i][r])
  }

  lemma OverlayStep(from: seq<Block>, to: seq<Block>, off: nat, buf: seq<byte>, n: nat, i: nat, o: nat, w: nat)
    requires n + w <= |buf| && Overlaid(from, to, off, buf, n)
    requires i < |to| && o + w <= BLOCK_SIZE && BLOCK_SIZE * i + o == off + n
    ensures Overlaid(from, to[i := Splice(to[i], o, buf[n..n + w])], off, buf, n + w)
  {
  }

  /** What a write of `buf` at `off` promises about a file's bytes: the buffer is there, the
      other old bytes are untouched, and the file ends where the longer of the two ends.
      Bytes of a gap between the old end and `off` are whatever the blocks held. */
  ghost predicate Written(before: seq<byte>, off: nat, buf: seq<byte>, after: seq<byte>) {
    && |after| == (if |before| < off + |buf| then off + |buf| else |before|)
    && after[off..off + |buf|] == buf
    && forall j :: 0 <= j < |before| && !(off <= j < off + |buf|) ==> after[j] == before[j]
  }

  /** Byte `r` of block `i` is byte 64 i + r of the file. */
  lemma {:induction false} FlattenAt(blocks: seq<Block>, i: nat, r: nat)
    requires i < |blocks| && r < BLOCK_SIZE
    ensures Flatten(blocks)[BLOCK_SIZE * i + r] == blocks[i][r]
    decreases |blocks|
  {
    if i < |blocks| - 1 {
      FlattenAt(blocks[..|blocks| - 1], i, r);
    }
  }

  lemma ContentAt(blocks: seq<Block>, size: nat, j: nat)
    requires Holds(blocks, size) && j < size
    ensures j / BLOCK_SIZE < |blocks| && Content(blocks, size)[j] == blocks[j / BLOCK_SIZE][j % BLOCK_SIZE]
  {
    FlattenAt(blocks, j / BLOCK_SIZE, j % BLOCK_SIZE);
  }

  lemma OverlayContent(before: seq<Block>, size: nat, to: seq<Block>, off: nat, buf: seq<byte>, size': nat)
    requires Holds(before, size) && Holds(to, size')
    requires Overlaid(before, to, off, buf, |buf|)
    requires size' == if size < off + |buf| then off + |buf| else size
    ensures Written(Content(before, size), off, buf, Content(to, size'))
  {
    var s, s' := Content(before, size), Content(to, size');
    forall j | off <= j < off + |buf| ensures s'[j] == buf[j - off] {
      ContentAt(to, size', j);
    }
    forall j | 0 <= j < size && !(off <= j < off + |buf|) ensures s'[j] == s[j] {
      ContentAt(to, size', j);
      ContentAt(before, size, j);
    }
    assert s'[off..off + |buf|] == buf;
  }

  /** A file keeps its leading bytes when its block list only changes past them. */
  lemma ContentPrefix(a: seq<Block>, m: nat, b: seq<Block>, n: nat)
    requires Holds(a, m) && Holds(b, n) && (a <= b || b <= a)
    ensures var p := if m < n then m else n; Content(a, m)[..p] == Content(b, n)[..p]
  {
    var p := if m < n then m else n;
    forall j | 0 <= j < p ensures Content(a, m)[j] == Content(b, n)[j] {
      ContentAt(a, m, j);
      ContentAt(b, n, j);
    }
  }

  // ---------------------------------------------------------------- accounting

  ghost function SumBlocks(d: Disk, n: nat): nat
    requires n <= |d.inodes|
  {
    if n == 0 then 0
    else SumBlocks(d, n - 1) + NodeBlocks(d.inodes[n - 1])
  }

  function NodeBlocks(node: Inode): nat {
    if node.state.REGULAR? then Blocks(node.size) else 0
  }

  ghost function Range(n: nat): (s: set<nat>)
    ensures |s| == n && forall b: nat :: b in s <==> b < n
  {
    if n == 0 then {} else Range(n - 1) + {n - 1}
  }

  ghost function Elems(c: seq<nat>): (s: set<nat>)
    ensures forall b: nat :: b in s <==> b in c
    ensures (forall i, j :: 0 <= i < j < |c| ==> c[i] != c[j]) ==> |s| == |c|
  {
    if c == [] then {} else Elems(c[..|c| - 1]) + {c[|c| - 1]}
  }

  ghost function OwnedBelow(k: Book, n: nat): set<nat> {
    set b: nat | b < |k.owner| && k.owner[b].In? && k.owner[b].f < n
  }

  ghost function FreeSet(d: Disk): set<nat> {
    set b: nat | b < |d.used| && !d.used[b]
  }

  lemma {:induction false} FreeSetSize(u: seq<bool>, n: nat)
    requires n <= |u|
    ensures |set b: nat | b < n && !u[b]| == FreeIn(u, 0, n)
  {
    if n > 0 {
      FreeSetSize(u, n - 1);
      FreeInSnoc(u, 0, n);
      var s, t := set b: nat | b < n && !u[b], set b: nat | b < n - 1 && !u[b];
      assert s == if u[n - 1] then t else t + {n - 1};
    }
  }

  /** A file owns exactly the blocks of its chain. */
  lemma ChainOwner(d: Disk, k: Book, f: nat, b: nat)
    requires Wf(d, k) && f < |k.ch|
    ensures b in k.ch[f] <==> b < |k.owner| && k.owner[b].In? && k.owner[b].f == f
  {
    assert Linked(d, k, f);
    if b in k.ch[f] {
      var i :| 0 <= i < |k.ch[f]| && k.ch[f][i] == b;
    } else if b < |k.owner| {
      assert Accounted(d, k, b);
    }
  }

  lemma ChainRepeatsNothing(d: Disk, k: Book, f: nat)
    requires Wf(d, k) && f < |k.ch|
    ensures |Elems(k.ch[f])| == |k.ch[f]|
  {
    var c := k.ch[f];
    assert Linked(d, k, f);
    forall i, j | 0 <= i < j < |c| ensures c[i] != c[j] {
      assert k.owner[c[i]] == In(f, i) && k.owner[c[j]] == In(f, j);
    }
  }

  lemma OwnedStep(d: Disk, k: Book, n: nat)
    requires Wf(d, k) && 0 < n <= |k.ch|
    ensures OwnedBelow(k, n) == OwnedBelow(k, n - 1) + Elems(k.ch[n - 1])
    ensures OwnedBelow(k, n - 1) !! Elems(k.ch[n - 1])
  {
    forall b: nat
      ensures b in Elems(k.ch[n - 1]) <==> b < |k.owner| && k.owner[b].In? && k.owner[b].f == n - 1
    {
      ChainOwner(d, k, n - 1, b);
    }
  }

  lemma {:induction false} OwnedSize(d: Disk, k: Book, n: nat)
    requires Wf(d, k) && Sized(d, k) && n <= |k.ch|
    ensures |OwnedBelow(k, n)| == SumBlocks(d, n)
  {
    if n == 0 {
      assert OwnedBelow(k, 0) == {};
    } else {
      OwnedSize(d, k, n - 1);
      OwnedStep(d, k, n);
      ChainRepeatsNothing(d, k, n - 1);
      assert Linked(d, k, n - 1) && SizedAt(d, k, n - 1);
    }
  }

  lemma PartitionSize(n: nat, a: set<nat>, b: set<nat>, c: set<nat>)
    requires forall x: nat :: x in a || x in b || x in c <==> x < n
    requires a !! b && a !! c && b !! c
    ensures |a| + |b| + |c| == n
  {
    assert Range(n) == a + b + c;
    assert (a + b) !! c;
  }

  /** Every block is in exactly one of the three sets. */
  lemma OwnersPartition(d: Disk, k: Book)
    requires Wf(d, k)
    ensures var free, owned, res := FreeSet(d), OwnedBelow(k, |k.ch|), ReservedSet(k);
            && (forall b: nat :: b in free || b in owned || b in res <==> b < |d.used|)
            && free !! owned && free !! res && owned !! res
  {
    var free, owned, res := FreeSet(d), OwnedBelow(k, |k.ch|), ReservedSet(k);
    forall b: nat | b < |d.used|
      ensures b in free <==> k.owner[b] == Free
      ensures b in owned <==> k.owner[b].In?
    {
      assert Accounted(d, k, b);
    }
  }

  /** Conservation: free blocks, the blocks files need for their sizes and the reserved blocks
      add up to the data region in every consistent state. */
  lemma Conservation(d: Disk, k: Book)
    requires Wf(d, k) && Sized(d, k)
    ensures FreeIn(d.used, 0, |d.used|) + SumBlocks(d, |d.inodes|) + |ReservedSet(k)| == |d.used|
  {
    FreeSetSize(d.used, |d.used|);
    OwnedSize(d, k, |k.ch|);
    OwnersPartition(d, k);
    PartitionSize(|d.used|, FreeSet(d), OwnedBelow(k, |k.ch|), ReservedSet(k));
  }

  /** The accounting of one file: what it gives up the free list gains, and the reverse. */
  lemma {:induction false} SumBlocksChange(d: Disk, e: Disk, f: nat, n: nat)
    requires f < n <= |d.inodes| == |e.inodes|
    requires forall g :: 0 <= g < n && g != f ==> e.inodes[g] == d.inodes[g]
    ensures SumBlocks(e, n) + NodeBlocks(d.inodes[f]) == SumBlocks(d, n) + NodeBlocks(e.inodes[f])
  {
    if f < n - 1 {
      SumBlocksChange(d, e, f, n - 1);
    } else {
      SumBlocksSame(d, e, n - 1);
    }
  }

  lemma {:induction false} SumBlocksSame(d: Disk, e: Disk, n: nat)
    requires n <= |d.inodes| && n <= |e.inodes|
    requires forall g :: 0 <= g < n ==> e.inodes[g] == d.inodes[g]
    ensures SumBlocks(e, n) == SumBlocks(d, n)
  {
    if n > 0 {
      SumBlocksSame(d, e, n - 1);
    }
  }

  /** Whatever happens to one regular file, its change in blocks is the free list's change. */
  lemma FreeChange(d: Disk, k: Book, f: nat, e: Disk, k': Book)
    requires Wf(d, k) && Sized(d, k) && f < |k.ch| && OnlyFile(d, k, f, e, k') && Sized(e, k')
    requires d.inodes[f].state.REGULAR? && e.inodes[f].state.REGULAR?
    ensures FreeIn(e.used, 0, |e.used|) + Blocks(e.inodes[f].size)
         == FreeIn(d.used, 0, |d.used|) + Blocks(d.inodes[f].size)
  {
    Conservation(d, k);
    Conservation(e, k');
    forall g | 0 <= g < |d.inodes| && g != f ensures e.inodes[g] == d.inodes[g] {
      assert FileOf(e, k', g).node == FileOf(d, k, g).node;
    }
    SumBlocksChange(d, e, f, |d.inodes|);
  }

  /** Deleting a file gives its blocks to the free list. */
  lemma UnlinkFree(d: Disk, k: Book, f: nat, e: Disk, k': Book)
    requires Wf(d, k) && Sized(d, k) && f < |k.ch| && OnlyFile(d, k, f, e, k') && Sized(e, k')
    requires d.inodes[f].state.REGULAR? && !e.inodes[f].state.REGULAR?
    ensures FreeIn(e.used, 0, |e.used|) == FreeIn(d.used, 0, |d.used|) + Blocks(d.inodes[f].size)
  {
    Conservation(d, k);
    Conservation(e, k');
    forall g | 0 <= g < |d.inodes| && g != f ensures e.inodes[g] == d.inodes[g] {
      assert FileOf(e, k', g).node == FileOf(d, k, g).node;
    }
    SumBlocksChange(d, e, f, |d.inodes|);
  }

  lemma SizedOnly(d: Disk, k: Book, f: nat, e: Disk, k': Book)
    requires Wf(d, k) && f < |k.ch| && OnlyFile(d, k, f, e, k')
    requires (forall g :: 0 <= g < |k.ch| && g != f ==> SizedAt(d, k, g)) && SizedAt(e, k', f)
    ensures Sized(e, k')
  {
    forall g | 0 <= g < |k'.ch| ensures SizedAt(e, k', g) {
      if g != f {
        assert FileOf(e, k', g) == FileOf(d, k, g) && SizedAt(d, k, g);
      }
    }
  }

  /** The volume has the regular files and no others. */
  lemma AbsKeys(d: Disk, k: Book, g: nat)
    requires Wf(d, k) && Sized(d, k)
    ensures g in Abs(d, k) <==> g < |k.ch| && d.inodes[g].state.REGULAR?
    ensures g in Abs(d, k) ==>
              Holds(FileOf(d, k, g).blocks, d.inodes[g].size)
              && Abs(d, k)[g] == Content(FileOf(d, k, g).blocks, d.inodes[g].size)
  {
    if g < |k.ch| {
      assert SizedAt(d, k, g);
    }
  }

  lemma AbsOther(d: Disk, k: Book, f: nat, e: Disk, k': Book, g: nat)
    requires Wf(d, k) && Sized(d, k) && f < |k.ch| && OnlyFile(d, k, f, e, k') && Sized(e, k') && g != f
    ensures g in Abs(e, k') <==> g in Abs(d, k)
    ensures g in Abs(e, k') ==> Abs(e, k')[g] == Abs(d, k)[g]
  {
    AbsKeys(d, k, g);
    AbsKeys(e, k', g);
    if g < |k.ch| {
      assert FileOf(e, k', g) == FileOf(d, k, g);
    }
  }

  /** The abstract volume after a change to one regular file. */
  lemma AbsOnly(d: Disk, k: Book, f: nat, e: Disk, k': Book)
    requires Wf(d, k) && Sized(d, k) && f < |k.ch| && OnlyFile(d, k, f, e, k') && Sized(e, k')
    ensures e.inodes[f].state.REGULAR? ==> Holds(FileOf(e, k', f).blocks, e.inodes[f].size)
    ensures Abs(e, k') == if e.inodes[f].state.REGULAR?
                          then Abs(d, k)[f := Content(FileOf(e, k', f).blocks, e.inodes[f].size)]
                          else Abs(d, k) - {f}
  {
    AbsKeys(e, k', f);
    forall g: nat | g != f
      ensures g in Abs(e, k') <==> g in Abs(d, k)
      ensures g in Abs(e, k') ==> Abs(e, k')[g] == Abs(d, k)[g]
    {
      AbsOther(d, k, f, e, k', g);
    }
  }

  /** One file of the abstract volume. */
  ghost function FileBytes(d: Disk, k: Book, f: nat): (s: seq<byte>)
    requires Wf(d, k) && f < |k.ch| && d.inodes[f].state.REGULAR? && SizedAt(d, k, f)
    ensures |s| == d.inodes[f].size
  {
    Content(FileOf(d, k, f).blocks, d.inodes[f].size)
  }

  lemma AbsAt(d: Disk, k: Book, f: nat)
    requires Wf(d, k) && Sized(d, k) && f < |k.ch| && d.inodes[f].state.REGULAR?
    ensures SizedAt(d, k, f) && f in Abs(d, k) && Abs(d, k)[f] == FileBytes(d, k, f)
    ensures d.inodes[f].first == END_OF_FILE <==> d.inodes[f].size == 0
  {
    assert SizedAt(d, k, f) && Linked(d, k, f);
  }

  /** The bytes of a file that lie in one of its blocks. */
  lemma FileChunk(d: Disk, k: Book, f: nat, i: nat, o: nat, w: nat)
    requires Wf(d, k) && f < |k.ch| && d.inodes[f].state.REGULAR? && SizedAt(d, k, f) && i < |k.ch[f]|
    requires o + w <= BLOCK_SIZE && BLOCK_SIZE * i + o + w <= d.inodes[f].size
    ensures k.ch[f][i] < |d.data|
    ensures d.data[k.ch[f][i]][o..o + w] == FileBytes(d, k, f)[BLOCK_SIZE * i + o..BLOCK_SIZE * i + o + w]
  {
    assert FileOf(d, k, f).blocks[i] == d.data[k.ch[f][i]];
    ContentChunk(FileOf(d, k, f).blocks, d.inodes[f].size, i, o, w);
  }

  /** One more block's worth of bytes, appended to what was read so far. */
  lemma ReadStep(d: Disk, k: Book, f: nat, from: nat, buff: seq<byte>, i: nat, w: nat)
    requires Wf(d, k) && f < |k.ch| && d.inodes[f].state.REGULAR? && SizedAt(d, k, f) && i < |k.ch[f]|
    requires w <= BLOCK_SIZE && BLOCK_SIZE * i == from + |buff| && from + |buff| + w <= d.inodes[f].size
    requires buff == FileBytes(d, k, f)[from..from + |buff|]
    ensures k.ch[f][i] < |d.data|
    ensures buff + d.data[k.ch[f][i]][0..w] == FileBytes(d, k, f)[from..from + |buff| + w]
  {
    FileChunk(d, k, f, i, 0, w);
    SliceJoin(FileBytes(d, k, f), from, from + |buff|, from + |buff| + w);
  }

  lemma ReservedAppend(d: Disk, k: Book, f: nat, bs: seq<nat>)
    requires Wf(d, k) && f < |k.ch|
    requires forall i :: 0 <= i < |bs| ==> bs[i] < |d.used| && !d.used[bs[i]]
    ensures ReservedSet(Append(k, f, bs)) == ReservedSet(k)
  {
    forall b | 0 <= b < |k.owner| ensures Append(k, f, bs).owner[b] == Reserved <==> k.owner[b] == Reserved {
      AppendOwner(k, f, bs, b);
      assert Accounted(d, k, b);
    }
  }

  lemma GrownOnly(d: Disk, k: Book, f: nat, taken: seq<nat>, e: Disk)
    requires Wf(d, k) && f < |k.ch|
    requires forall i :: 0 <= i < |taken| ==> taken[i] < |d.used| && !d.used[taken[i]]
    requires Grown(d, k, f, taken, e, Append(k, f, taken))
    ensures OnlyFile(d, k, f, e, Append(k, f, taken))
    ensures FileOf(d, k, f).blocks <= FileOf(e, Append(k, f, taken), f).blocks
  {
    ReservedAppend(d, k, f, taken);
    var k' := Append(k, f, taken);
    forall i | 0 <= i < |k.ch[f]| ensures FileOf(e, k', f).blocks[i] == FileOf(d, k, f).blocks[i] {
      assert k'.ch[f][i] == k.ch[f][i];
    }
  }

  /** Links of free blocks are no part of any file. */
  lemma UnchangedFiles(d: Disk, k: Book, e: Disk)
    requires Wf(d, k) && Wf(e, k) && e == d.(next := e.next)
    ensures forall f :: 0 <= f < |k.ch| ==> FileOf(e, k, f) == FileOf(d, k, f) && OnlyFile(d, k, f, e, k)
    ensures Sized(d, k) ==> Sized(e, k) && Abs(e, k) == Abs(d, k)
  {
    if Sized(d, k) {
      forall f | 0 <= f < |k.ch| ensures SizedAt(e, k, f) {
        assert SizedAt(d, k, f);
      }
    }
  }

  lemma OnlyFileTrans(d0: Disk, k0: Book, f: nat, d1: Disk, k1: Book, d2: Disk, k2: Book)
    requires Wf(d0, k0) && f < |k0.ch| && OnlyFile(d0, k0, f, d1, k1) && OnlyFile(d1, k1, f, d2, k2)
    ensures OnlyFile(d0, k0, f, d2, k2)
  {
    forall g | 0 <= g < |k0.ch| && g != f ensures FileOf(d2, k2, g) == FileOf(d0, k0, g) {
      assert FileOf(d1, k1, g) == FileOf(d0, k0, g);
    }
  }

  /** The copy loop in progress: the first `n` bytes of `buf` are in place, and nothing but
      data of file `f` differs from `d0`. */
  ghost predicate Copying(d0: Disk, k: Book, f: nat, off: nat, buf: seq<byte>, n: nat, d: Disk)
    requires Wf(d0, k) && f < |k.ch| && n <= |buf|
  {
    && d == d0.(data := d.data) && OnlyFile(d0, k, f, d, k)
    && Overlaid(FileOf(d0, k, f).blocks, FileOf(d, k, f).blocks, off, buf, n)
  }

  /** One iteration of the copy loop, on block `i` of the chain. */
  lemma CopyStep(d0: Disk, k: Book, f: nat, off: nat, buf: seq<byte>, n: nat, d: Disk, i: nat, o: nat, w: nat)
    requires Wf(d0, k) && f < |k.ch| && n + w <= |buf| && Copying(d0, k, f, off, buf, n, d)
    requires i < |k.ch[f]| && o + w <= BLOCK_SIZE && BLOCK_SIZE * i + o == off + n
    ensures k.ch[f][i] < |d.data|
    ensures Copying(d0, k, f, off, buf, n + w, WriteBlock(d, k.ch[f][i], o, buf[n..n + w]))
  {
    WriteBlockWf(d, k, f, i, o, buf[n..n + w]);
    OverlayStep(FileOf(d0, k, f).blocks, FileOf(d, k, f).blocks, off, buf, n, i, o, w);
    OnlyFileTrans(d0, k, f, d, k, WriteBlock(d, k.ch[f][i], o, buf[n..n + w]), k);
  }

  /** The next cell of a regular chain is a cell the server can read. */
  lemma NextCell(d: Disk, k: Book, f: nat, i: nat)
    requires Wf(d, k) && f < |k.ch| && d.inodes[f].state.REGULAR? && i < |k.ch[f]|
    ensures CellOk(d, CellAt(f, k.ch[f], i)) && Get(d, CellAt(f, k.ch[f], i)) == k.ch[f][i]
    ensures CellOk(d, Link(k.ch[f][i])) && Get(d, Link(k.ch[f][i])) == At(k.ch[f], i + 1)
    ensures At(k.ch[f], i + 1) == END_OF_FILE <==> i + 1 == |k.ch[f]|
    ensures CellAt(f, k.ch[f], i + 1) == Link(k.ch[f][i])
  {
    assert Linked(d, k, f);
  }

  /** From the copy loop's block-level result to what a client reads. */
  lemma WriteResult(d0: Disk, k0: Book, f: nat, d1: Disk, k: Book, d2: Disk, off: nat, buf: seq<byte>)
    requires Wf(d0, k0) && Sized(d0, k0) && f < |k0.ch| && d0.inodes[f].state.REGULAR?
    requires OnlyFile(d0, k0, f, d1, k) && FileOf(d0, k0, f).blocks <= FileOf(d1, k, f).blocks
    requires OnlyFile(d1, k, f, d2, k) && d2.inodes == d1.inodes && d1.inodes[f].state.REGULAR?
    requires d1.inodes[f].size == if d0.inodes[f].size < off + |buf| then off + |buf| else d0.inodes[f].size
    requires |k.ch[f]| == Blocks(d1.inodes[f].size)
    requires Overlaid(FileOf(d1, k, f).blocks, FileOf(d2, k, f).blocks, off, buf, |buf|)
    ensures OnlyFile(d0, k0, f, d2, k) && Sized(d2, k)
    ensures f in Abs(d2, k) && Abs(d2, k) == Abs(d0, k0)[f := Abs(d2, k)[f]]
    ensures Written(Abs(d0, k0)[f], off, buf, Abs(d2, k)[f])
  {
    OnlyFileTrans(d0, k0, f, d1, k, d2, k);
    SizedOnly(d0, k0, f, d2, k);
    AbsOnly(d0, k0, f, d2, k);
    assert SizedAt(d0, k0, f);
    assert Overlaid(FileOf(d0, k0, f).blocks, FileOf(d2, k, f).blocks, off, buf, |buf|);
    OverlayContent(FileOf(d0, k0, f).blocks, d0.inodes[f].size, FileOf(d2, k, f).blocks, off, buf, d1.inodes[f].size);
  }

  lemma ReservedCut(k: Book, f: nat, keep: nat)
    requires f < |k.ch| && keep <= |k.ch[f]|
    ensures ReservedSet(Cut(k, f, keep)) == ReservedSet(k)
  {
    assert forall b :: 0 <= b < |k.owner| ==> (Cut(k, f, keep).owner[b] == Reserved <==> k.owner[b] == Reserved);
  }

  lemma SliceJoin<T>(s: seq<T>, a: nat, b: nat, c: nat)
    requires a <= b <= c <= |s|
    ensures s[a..b] + s[b..c] == s[a..c]
  {
  }

  /** One block's worth of a file's bytes. */
  lemma ContentChunk(blocks: seq<Block>, size: nat, i: nat, o: nat, w: nat)
    requires Holds(blocks, size) && o + w <= BLOCK_SIZE && BLOCK_SIZE * i + o + w <= size && i < |blocks|
    ensures blocks[i][o..o + w] == Content(blocks, size)[BLOCK_SIZE * i + o..BLOCK_SIZE * i + o + w]
  {
    forall r | o <= r < o + w
      ensures blocks[i][r] == Content(blocks, size)[BLOCK_SIZE * i + r]
    {
      FlattenAt(blocks, i, r);
    }
  }

  /** What truncate promises about a file's bytes. */
  ghost predicate Resized(before: seq<byte>, size: nat, after: seq<byte>) {
    && |after| == size
    && var p := if |before| < size then |before| else size; after[..p] == before[..p]
  }

  /** From a chain that only grew or shrank at its end to what a client reads. */
  lemma TruncateResult(d0: Disk, k0: Book, f: nat, e: Disk, k: Book)
    requires Wf(d0, k0) && Sized(d0, k0) && f < |k0.ch| && d0.inodes[f].state.REGULAR?
    requires OnlyFile(d0, k0, f, e, k) && e.inodes[f].state.REGULAR? && |k.ch[f]| == Blocks(e.inodes[f].size)
    requires FileOf(d0, k0, f).blocks <= FileOf(e, k, f).blocks || FileOf(e, k, f).blocks <= FileOf(d0, k0, f).blocks
    ensures Sized(e, k) && f in Abs(e, k) && Abs(e, k) == Abs(d0, k0)[f := Abs(e, k)[f]]
    ensures Resized(Abs(d0, k0)[f], e.inodes[f].size, Abs(e, k)[f])
    ensures FreeIn(e.used, 0, |e.used|) + Blocks(e.inodes[f].size)
         == FreeIn(d0.used, 0, |d0.used|) + Blocks(d0.inodes[f].size)
  {
    SizedOnly(d0, k0, f, e, k);
    AbsOnly(d0, k0, f, e, k);
    FreeChange(d0, k0, f, e, k);
    assert SizedAt(d0, k0, f);
    ContentPrefix(FileOf(d0, k0, f).blocks, d0.inodes[f].size, FileOf(e, k, f).blocks, e.inodes[f].size);
  }

  /** Cutting a chain: nothing outside the file changes, and its blocks are a prefix. */
  lemma CutOnly(d: Disk, k: Book, f: nat, keep: nat)
    requires Wf(d, k) && f < |k.ch| && d.inodes[f].state.REGULAR? && keep <= |k.ch[f]|
    requires CellOk(d, CellAt(f, k.ch[f], keep)) && forall i :: 0 <= i < |k.ch[f]| ==> k.ch[f][i] < |d.used|
    ensures OnlyFile(d, k, f, Released(d, k, f, keep), Cut(k, f, keep))
    ensures Released(d, k, f, keep).inodes[f] == d.inodes[f].(first := At(k.ch[f][..keep], 0))
    ensures FileOf(Released(d, k, f, keep), Cut(k, f, keep), f).blocks <= FileOf(d, k, f).blocks
  {
    ReleasedSpec(d, k, f, keep);
    ReservedCut(k, f, keep);
    var e, k' := Released(d, k, f, keep), Cut(k, f, keep);
    forall i | 0 <= i < keep ensures FileOf(e, k', f).blocks[i] == FileOf(d, k, f).blocks[i] {
      assert k'.ch[f][i] == k.ch[f][i];
    }
  }

  /** Changing the state of an inode with an empty chain. */
  lemma StateWf(d: Disk, k: Book, f: nat, node: Inode)
    requires Wf(d, k) && f < |k.ch| && k.ch[f] == [] && (node.state.REGULAR? ==> node.first == END_OF_FILE)
    ensures OnlyFile(d, k, f, d.(inodes := d.inodes[f := node]), k)
  {
    var e := d.(inodes := d.inodes[f := node]);
    forall g | 0 <= g < |k.ch| ensures Linked(e, k, g) {
      assert Linked(d, k, g);
    }
    forall b | 0 <= b < |e.used| ensures Accounted(e, k, b) {
      assert Accounted(d, k, b);
    }
  }

  /** The release loop as a walk of the mapping table alone. */
  function ReleaseFrom(d: Disk, c: Cell, fuel: nat): Disk
    requires |d.used| == |d.next|
    decreases fuel
  {
    if fuel == 0 || !CellOk(d, c) || Get(d, c) >= |d.used| then d
    else ReleaseFrom(DropOne(d, c, Get(d, c)), Link(Get(d, c)), fuel - 1)
  }

  lemma {:induction false} ReleaseFromIsDrop(d: Disk, c: Cell, bs: seq<nat>, fuel: nat)
    requires |d.used| == |d.next| < END_OF_FILE && Path(d, c, bs) && |bs| <= fuel
    ensures ReleaseFrom(d, c, fuel) == Drop(d, c, bs)
    decreases |bs|
  {
    if bs != [] {
      DropStep(d, c, bs);
      ReleaseFromIsDrop(DropOne(d, c, bs[0]), Link(bs[0]), bs[1..], fuel - 1);
    }
  }

  lemma PathLength(d: Disk, c: Cell, bs: seq<nat>)
    requires Path(d, c, bs)
    ensures |bs| <= |d.next|
  {
    forall b: nat | b in Elems(bs) ensures b in Range(|d.next|) {
      var i :| 0 <= i < |bs| && bs[i] == b;
    }
    SubsetSize(Elems(bs), Range(|d.next|));
  }

  lemma {:induction false} SubsetSize(a: set<nat>, b: set<nat>)
    requires a <= b
    ensures |a| <= |b|
    decreases a
  {
    if x :| x in a {
      SubsetSize(a - {x}, b - {x});
    }
  }

  /** Releasing by walking is releasing the end of the chain. */
  lemma ReleaseFromSpec(d: Disk, k: Book, f: nat, keep: nat)
    requires Wf(d, k) && f < |k.ch| && d.inodes[f].state.REGULAR? && keep <= |k.ch[f]|
    ensures CellOk(d, CellAt(f, k.ch[f], keep)) && forall i :: 0 <= i < |k.ch[f]| ==> k.ch[f][i] < |d.used|
    ensures ReleaseFrom(d, CellAt(f, k.ch[f], keep), |d.next|) == Released(d, k, f, keep)
  {
    ReleasedOk(d, k, f, keep);
    var c, bs := CellAt(f, k.ch[f], keep), k.ch[f][keep..];
    PathLength(d, c, bs);
    ReleaseFromIsDrop(d, c, bs, |d.next|);
  }
}
