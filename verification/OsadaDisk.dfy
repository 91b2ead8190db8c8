/** The OSADA volume as a value: the inode table, the mapping table of `next` links, the
    free-block bitmap and the data blocks, together with the book-keeping that says which
    chain every data block belongs to.  The server's critical sections are functions on this
    value; the class in OsadaServer and the threads in OsadaThreads both run them. */
module OsadaDisk {
  import opened Bytes

  const BLOCK_SIZE: nat := 64
  const END_OF_FILE: nat := 0xffff_ffff

  type Block = b: seq<byte> | |b| == BLOCK_SIZE witness Zeros(BLOCK_SIZE)

  datatype FileState = DELETED | REGULAR | DIRECTORY

  datatype Inode = Inode(state: FileState, size: nat, lastmod: int, first: nat)

  datatype Disk = Disk(inodes: seq<Inode>, next: seq<nat>, used: seq<bool>, data: seq<Block>)

  /** Where a block pointer is stored: in an inode, or in the mapping table cell of a block. */
  datatype Cell = Head(f: nat) | Link(b: nat)

  /** Who owns a data block: nobody, the image itself (a bit set at mount time), or a file. */
  datatype Owner = Free | Reserved | In(f: nat, i: nat)

  datatype Book = Book(ch: seq<seq<nat>>, owner: seq<Owner>)

  // ---------------------------------------------------------------- pointers

  predicate CellOk(d: Disk, c: Cell) {
    match c
    case Head(f) => f < |d.inodes|
    case Link(b) => b < |d.next|
  }

  function Get(d: Disk, c: Cell): nat
    requires CellOk(d, c)
  {
    match c
    case Head(f) => d.inodes[f].first
    case Link(b) => d.next[b]
  }

  function Put(d: Disk, c: Cell, v: nat): Disk
    requires CellOk(d, c)
  {
    match c
    case Head(f) => d.(inodes := d.inodes[f := d.inodes[f].(first := v)])
    case Link(b) => d.(next := d.next[b := v])
  }

  /** The pointer held in position `i` of a chain; past the end it is END_OF_FILE. */
  function At(c: seq<nat>, i: nat): nat {
    if i < |c| then c[i] else END_OF_FILE
  }

  /** The cell that points at position `i` of file `f`'s chain `c`. */
  function CellAt(f: nat, c: seq<nat>, i: nat): Cell
    requires i <= |c|
  {
    if i == 0 then Head(f) else Link(c[i - 1])
  }

  function Blocks(size: nat): nat {
    (size + BLOCK_SIZE - 1) / BLOCK_SIZE
  }

  // ---------------------------------------------------------------- the invariant

  ghost predicate Shape(d: Disk, k: Book) {
    && |d.next| == |d.used| == |d.data| == |k.owner|
    && 0 < |d.used| < END_OF_FILE
    && |k.ch| == |d.inodes|
  }

  /** File `f` is the END_OF_FILE-terminated chain `k.ch[f]`, whose blocks it alone owns. */
  ghost predicate Linked(d: Disk, k: Book, f: nat)
    requires Shape(d, k) && f < |k.ch|
  {
    var c := k.ch[f];
    && (d.inodes[f].state.REGULAR? ==> d.inodes[f].first == At(c, 0))
    && (!d.inodes[f].state.REGULAR? ==> c == [])
    && forall i :: 0 <= i < |c| ==>
         c[i] < |d.next| && k.owner[c[i]] == In(f, i) && d.next[c[i]] == At(c, i + 1)
  }

  /** Bit `b` is set exactly when the block has an owner, and owners and chains agree. */
  ghost predicate Accounted(d: Disk, k: Book, b: nat)
    requires Shape(d, k) && b < |d.used|
  {
    && (d.used[b] <==> k.owner[b] != Free)
    && (k.owner[b].In? ==>
          k.owner[b].f < |k.ch| && k.owner[b].i < |k.ch[k.owner[b].f]| && k.ch[k.owner[b].f][k.owner[b].i] == b)
  }

  ghost predicate Wf(d: Disk, k: Book) {
    && Shape(d, k)
    && (forall f :: 0 <= f < |k.ch| ==> Linked(d, k, f))
    && (forall b :: 0 <= b < |d.used| ==> Accounted(d, k, b))
  }

  /** Chain length and recorded size of file `f` agree. */
  ghost predicate SizedAt(d: Disk, k: Book, f: nat)
    requires Shape(d, k) && f < |k.ch|
  {
    d.inodes[f].state.REGULAR? ==> |k.ch[f]| == Blocks(d.inodes[f].size)
  }

  ghost predicate Sized(d: Disk, k: Book)
    requires Shape(d, k)
  {
    forall f :: 0 <= f < |k.ch| ==> SizedAt(d, k, f)
  }

  ghost function ReservedSet(k: Book): set<nat> {
    set b | 0 <= b < |k.owner| && k.owner[b] == Reserved
  }

  // ---------------------------------------------------------------- what a file holds

  /** All the model says about one file: its inode, its chain, and the blocks along it. */
  datatype FileView = FileView(node: Inode, chain: seq<nat>, blocks: seq<Block>)

  ghost function FileOf(d: Disk, k: Book, f: nat): (v: FileView)
    requires Wf(d, k) && f < |k.ch|
    ensures |v.blocks| == |v.chain|
    ensures forall i :: 0 <= i < |v.chain| ==> v.chain[i] < |d.data| && v.blocks[i] == d.data[v.chain[i]]
  {
    assert Linked(d, k, f);
    FileView(d.inodes[f], k.ch[f], seq(|k.ch[f]|, i requires 0 <= i < |k.ch[f]| => d.data[k.ch[f][i]]))
  }

  ghost predicate Holds(blocks: seq<Block>, size: nat) {
    size <= BLOCK_SIZE * |blocks|
  }

  /** The bytes of a block list, one block after the other. */
  ghost function Flatten(blocks: seq<Block>): (s: seq<byte>)
    ensures |s| == BLOCK_SIZE * |blocks|
  {
    if blocks == [] then [] else Flatten(blocks[..|blocks| - 1]) + blocks[|blocks| - 1]
  }

  /** The byte sequence a block list stores for a file of `size` bytes. */
  ghost function Content(blocks: seq<Block>, size: nat): (s: seq<byte>)
    requires Holds(blocks, size)
    ensures |s| == size
  {
    Flatten(blocks)[..size]
  }

  /** The volume as clients see it: a map from regular file to byte sequence. */
  ghost function Abs(d: Disk, k: Book): map<nat, seq<byte>>
    requires Wf(d, k) && Sized(d, k)
  {
    map f | 0 <= f < |k.ch| && d.inodes[f].state.REGULAR? ::
      assert SizedAt(d, k, f); Content(FileOf(d, k, f).blocks, d.inodes[f].size)
  }

  // ---------------------------------------------------------------- the critical sections

  /** One block joins a chain: set its bit, store it in the tail cell, terminate it. */
  function Take(d: Disk, tail: Cell, pos: nat): Disk
    requires CellOk(d, tail) && pos < |d.used| && pos < |d.next|
  {
    Put(Put(d.(used := d.used[pos := true]), tail, pos), Link(pos), END_OF_FILE)
  }

  datatype GrowResult = GrowResult(disk: Disk, tail: Cell, stop: nat)

  /** The allocation scan: from bit `j` on, take free blocks while `need` is positive. */
  function Grow(d: Disk, tail: Cell, need: int, unit: nat, j: nat): (g: GrowResult)
    requires CellOk(d, tail) && |d.used| == |d.next| && j <= |d.used|
    ensures |g.disk.used| == |d.used| && j <= g.stop <= |d.used|
    decreases |d.used| - j
  {
    if need <= 0 || j == |d.used| then GrowResult(d, tail, j)
    else if d.used[j] then Grow(d, tail, need, unit, j + 1)
    else Grow(Take(d, tail, j), Link(j), need - unit, unit, j + 1)
  }

  /** One step of a release: clear the bit of the block the cell points at, cut the cell. */
  function DropOne(d: Disk, c: Cell, b: nat): Disk
    requires CellOk(d, c) && b < |d.used|
  {
    Put(d.(used := d.used[b := false]), c, END_OF_FILE)
  }

  /** The release loop over the blocks `bs` that hang from cell `c`. */
  function Drop(d: Disk, c: Cell, bs: seq<nat>): Disk
    requires CellOk(d, c) && |d.used| == |d.next|
    requires forall i :: 0 <= i < |bs| ==> bs[i] < |d.used|
    decreases |bs|
  {
    if bs == [] then d else Drop(DropOne(d, c, bs[0]), Link(bs[0]), bs[1..])
  }

  // ---------------------------------------------------------------- the books after each of them

  function Append(k: Book, f: nat, bs: seq<nat>): (r: Book)
    requires f < |k.ch|
    requires forall i :: 0 <= i < |bs| ==> bs[i] < |k.owner|
    ensures |r.ch| == |k.ch| && |r.owner| == |k.owner|
    decreases |bs|
  {
    if bs == [] then k
    else Append(Book(k.ch[f := k.ch[f] + [bs[0]]], k.owner[bs[0] := In(f, |k.ch[f]|)]), f, bs[1..])
  }

  function CutOwner(o: Owner, f: nat, keep: nat): Owner {
    if o.In? && o.f == f && keep <= o.i then Free else o
  }

  function Cut(k: Book, f: nat, keep: nat): Book
    requires f < |k.ch| && keep <= |k.ch[f]|
  {
    Book(k.ch[f := k.ch[f][..keep]],
         seq(|k.owner|, b requires 0 <= b < |k.owner| => CutOwner(k.owner[b], f, keep)))
  }

  // ---------------------------------------------------------------- chains are what a walk finds

  /** Cell `c` leads along `bs` to END_OF_FILE, visiting no block twice and not `c` itself. */
  ghost predicate Path(d: Disk, c: Cell, bs: seq<nat>) {
    && CellOk(d, c) && Get(d, c) == At(bs, 0)
    && (forall i :: 0 <= i < |bs| ==> bs[i] < |d.next| && d.next[bs[i]] == At(bs, i + 1) && c != Link(bs[i]))
    && (forall i, j :: 0 <= i < j < |bs| ==> bs[i] != bs[j])
  }

  lemma PathFrom(d: Disk, k: Book, f: nat, i: nat)
    requires Wf(d, k) && f < |k.ch| && d.inodes[f].state.REGULAR? && i <= |k.ch[f]|
    ensures Path(d, CellAt(f, k.ch[f], i), k.ch[f][i..])
  {
    var c := k.ch[f];
    assert Linked(d, k, f);
    forall a, b | i <= a < b < |c| ensures c[a] != c[b] {
      assert k.owner[c[a]] == In(f, a) && k.owner[c[b]] == In(f, b);
    }
    if i > 0 {
      assert k.owner[c[i - 1]] == In(f, i - 1);
    }
  }

  ghost predicate Follows(d: Disk, c: Cell, bs: seq<nat>) {
    && CellOk(d, c) && Get(d, c) == At(bs, 0)
    && forall i :: 0 <= i < |bs| ==> bs[i] < |d.next| && d.next[bs[i]] == At(bs, i + 1)
  }

  lemma {:induction false} WalksAgree(d: Disk, c: Cell, bs: seq<nat>, cs: seq<nat>, i: nat)
    requires Follows(d, c, bs) && Follows(d, c, cs) && i <= |bs| && i <= |cs|
    ensures At(bs, i) == At(cs, i)
  {
    if i > 0 {
      WalksAgree(d, c, bs, cs, i - 1);
    }
  }

  /** A chain is a function of the mapping table: every walk that follows `next` from the same
      cell to END_OF_FILE visits the same blocks. */
  lemma WalkUnique(d: Disk, c: Cell, bs: seq<nat>, cs: seq<nat>)
    requires |d.next| < END_OF_FILE && Follows(d, c, bs) && Follows(d, c, cs)
    ensures bs == cs
  {
    WalksAgree(d, c, bs, cs, if |bs| < |cs| then |bs| else |cs|);
    forall i | 0 <= i < |bs| && i < |cs| ensures bs[i] == cs[i] {
      WalksAgree(d, c, bs, cs, i);
    }
  }

  /** What well-formedness says without the owner table: regular chains are repetition-free and
      pairwise disjoint, and the set bits are the chain blocks and the reserved ones. */
  lemma ChainsDisjointAndBitmapExact(d: Disk, k: Book)
    requires Wf(d, k)
    ensures forall f, g, i, j | 0 <= f < |k.ch| && 0 <= g < |k.ch| && 0 <= i < |k.ch[f]| && 0 <= j < |k.ch[g]| ::
              k.ch[f][i] == k.ch[g][j] ==> f == g && i == j
    ensures forall b :: 0 <= b < |d.used| ==>
              (d.used[b] <==> b in ReservedSet(k) || exists f :: 0 <= f < |k.ch| && b in k.ch[f])
    ensures forall f, i :: 0 <= f < |k.ch| && 0 <= i < |k.ch[f]| ==>
              k.ch[f][i] < |d.used| && k.ch[f][i] !in ReservedSet(k)
  {
    forall f, g, i, j | 0 <= f < |k.ch| && 0 <= g < |k.ch| && 0 <= i < |k.ch[f]| && 0 <= j < |k.ch[g]|
      && k.ch[f][i] == k.ch[g][j]
      ensures f == g && i == j
    {
      assert Linked(d, k, f) && Linked(d, k, g);
    }
    forall b | 0 <= b < |d.used|
      ensures d.used[b] <==> b in ReservedSet(k) || exists f :: 0 <= f < |k.ch| && b in k.ch[f]
    {
      assert Accounted(d, k, b);
      if k.owner[b].In? {
        assert b in k.ch[k.owner[b].f];
      }
      if f :| 0 <= f < |k.ch| && b in k.ch[f] {
        assert Linked(d, k, f);
      }
    }
    forall f, i | 0 <= f < |k.ch| && 0 <= i < |k.ch[f]|
      ensures k.ch[f][i] < |d.used| && k.ch[f][i] !in ReservedSet(k)
    {
      assert Linked(d, k, f);
    }
  }

  // ---------------------------------------------------------------- the books of an image

  /** An image as it may be mounted: every regular file's walk ends, no block is in two places
      of the walks, and every block in a walk has its bit set. */
  ghost predicate Mountable(d: Disk, ch: seq<seq<nat>>) {
    && |d.next| == |d.used| == |d.data| && 0 < |d.used| < END_OF_FILE && |ch| == |d.inodes|
    && (forall f :: 0 <= f < |ch| ==> if d.inodes[f].state.REGULAR? then Follows(d, Head(f), ch[f]) else ch[f] == [])
    && (forall f, g, i, j | 0 <= f < |ch| && 0 <= g < |ch| && 0 <= i < |ch[f]| && 0 <= j < |ch[g]| ::
          ch[f][i] == ch[g][j] ==> f == g && i == j)
    && (forall f, i :: 0 <= f < |ch| && 0 <= i < |ch[f]| ==> ch[f][i] < |d.used| && d.used[ch[f][i]])
  }

  ghost predicate InChains(ch: seq<seq<nat>>, b: nat) {
    exists f, i :: 0 <= f < |ch| && 0 <= i < |ch[f]| && ch[f][i] == b
  }

  ghost function OwnerOf(d: Disk, ch: seq<seq<nat>>, b: nat): Owner
    requires b < |d.used|
  {
    if InChains(ch, b) then
      var f, i :| 0 <= f < |ch| && 0 <= i < |ch[f]| && ch[f][i] == b; In(f, i)
    else if d.used[b] then Reserved
    else Free
  }

  /** Every mountable image has books; the bits set without an owner become the reserved set. */
  lemma MountedBook(d: Disk, ch: seq<seq<nat>>) returns (k: Book)
    requires Mountable(d, ch)
    ensures k.ch == ch && Wf(d, k)
    ensures ReservedSet(k) == set b | 0 <= b < |d.used| && d.used[b] && !InChains(ch, b)
  {
    k := Book(ch, seq(|d.used|, b requires 0 <= b < |d.used| => OwnerOf(d, ch, b)));
    forall f | 0 <= f < |ch| ensures Linked(d, k, f) {
      forall i | 0 <= i < |ch[f]| ensures k.owner[ch[f][i]] == In(f, i) {
        assert InChains(ch, ch[f][i]);
      }
    }
    forall b | 0 <= b < |d.used| ensures Accounted(d, k, b) {
      if InChains(ch, b) {
        assert k.owner[b].In?;
      }
    }
  }
}
