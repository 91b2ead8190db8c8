/** A write that met a directory: when it leaves everyone else's files, the reserved blocks and the
    bitmap as they were. */
module OsadaDirectoryWrites {
  import opened Bytes
  import opened OsadaDisk
  import opened OsadaChains
  import opened OsadaContent
  import opened OsadaThreads
  import opened OsadaDirectories

  // ---------------------------------------------------------------- up to the copy loop

  /** A write that ends at `end` wants the bytes past the walk, block by block. */
  function Expansion(th: Thread, bs: seq<nat>): Extension
    requires th.op.Writing?
  {
    Extension(End(th.op), th.now, End(th.op) - BLOCK_SIZE * |bs|, BLOCK_SIZE)
  }

  ghost predicate WriteBegins(d: Disk, k: Book, th: Thread, bs: seq<nat>) {
    && Walks(d, k, th.f, bs) && th.op.Writing? && th.op.buf != [] && th.size0 == 0 && th.pc.Start?
  }

  /** It walks to the end. */
  lemma {:induction false} WalksAlone(d: Disk, th: Thread, bs: seq<nat>, i: nat)
    requires |d.used| == |d.next| < END_OF_FILE && th.f < |d.inodes| && th.op.Writing? && th.size0 == 0
    requires Follows(d, Head(th.f), bs) && i < |bs| && th.pc == WWalk(Link(bs[i]), i)
    ensures Alone(d, th, |bs| - i) == (d, WScan(Link(bs[|bs| - 1]), End(th.op) - BLOCK_SIZE * |bs|))
    decreases |bs| - i
  {
    AloneOnce(d, th);
    if i + 1 < |bs| {
      var next := th.(pc := WWalk(Link(bs[i + 1]), i + 1));
      WalksAlone(d, next, bs, i + 1);
      AloneMore(d, th, 1, |bs| - i - 1);
    }
  }

  /** Then it scans, and rolls back if it has to. */
  lemma WriteScansThen(d: Disk, th: Thread, l: nat, need: int, g: GrowResult)
    requires |d.used| == |d.next| && th.f < |d.inodes| && th.size0 == 0 && l < |d.next| && th.op.Writing?
    requires th.pc == WScan(Link(l), need) && g == Grow(d, Link(l), need, BLOCK_SIZE, 0)
    requires th.f < |g.disk.inodes| && |g.disk.used| == |g.disk.next|
    ensures g.stop < |d.used| ==> Alone(d, th, 1) == (g.disk, Seek(Head(th.f), th.op.offset / BLOCK_SIZE))
    ensures g.stop == |d.used| ==>
              Alone(d, th, 2) == (ReleaseAll(SetSize(g.disk, th.f, 0), Head(th.f)), Finished(ENOSPC))
  {
    AloneOnce(d, th);
    if g.stop == |d.used| {
      AloneTwice(d, th, SetSize(g.disk, th.f, 0), Undo(Head(th.f), 0));
    }
  }

  lemma WriteScans(d: Disk, th: Thread, bs: seq<nat>) returns (m: nat)
    requires 0 < |d.used| == |d.next| && th.f < |d.inodes| && th.size0 == 0 && th.op.Writing?
    requires bs != [] && bs[|bs| - 1] < |d.next| && th.pc == WScan(Link(bs[|bs| - 1]), Expansion(th, bs).need)
    requires Stamped(d, th.f, Expansion(th, bs)) == d
    ensures var (e, r) := Extended(d, th.f, bs, Expansion(th, bs));
            Alone(d, th, m) == (e, if r.ENOSPC? then Finished(r) else Seek(Head(th.f), th.op.offset / BLOCK_SIZE))
  {
    var l, need := bs[|bs| - 1], Expansion(th, bs).need;
    GrowBits(d, l, need, BLOCK_SIZE, 0);
    var g := Grow(d, Link(l), need, BLOCK_SIZE, 0);
    WriteScansThen(d, th, l, need, g);
    m := if g.stop < |d.used| then 1 else 2;
  }

  lemma WriteEnters(d: Disk, k: Book, th: Thread, bs: seq<nat>)
    requires WriteBegins(d, k, th, bs)
    ensures Step(d, th) == (Stamped(d, th.f, Expansion(th, bs)), WWalk(Link(0), 0))
  {
    StampedTwice(d, th.f, 0, End(th.op), th.now);
  }

  lemma WriteWalks(d: Disk, k: Book, th: Thread, bs: seq<nat>)
    requires WriteBegins(d, k, th, bs) && bs != [] && bs[0] == 0 && bs[|bs| - 1] < |d.next| == |d.used|
    ensures var x := Expansion(th, bs);
            Alone(d, th, |bs| + 1) == (Stamped(d, th.f, x), WScan(Link(bs[|bs| - 1]), x.need))
  {
    AloneOnce(d, th);
    WriteEnters(d, k, th, bs);
    WalksAlone(Stamped(d, th.f, Expansion(th, bs)), th.(pc := WWalk(Link(0), 0)), bs, 0);
    AloneMore(d, th, 1, |bs|);
  }

  /** A write of the model's threads, run alone on a directory, up to its copy loop or its end. */
  lemma WriteAlone(d: Disk, k: Book, th: Thread, bs: seq<nat>) returns (m: nat)
    requires WriteBegins(d, k, th, bs)
    ensures bs != [] && bs[|bs| - 1] < |d.next| == |d.used|
    ensures var (e, r) := Extended(d, th.f, bs, Expansion(th, bs));
            Alone(d, th, m) == (e, if r.ENOSPC? then Finished(r) else Seek(Head(th.f), th.op.offset / BLOCK_SIZE))
  {
    WalkEnds(d, k, th.f, bs);
    WriteWalks(d, k, th, bs);
    var x := Expansion(th, bs);
    StampedTwice(d, th.f, x.size, x.size, x.lastmod);
    var n := WriteScans(Stamped(d, th.f, x), th.(pc := WScan(Link(bs[|bs| - 1]), x.need)), bs);
    AloneMore(d, th, |bs| + 1, n);
    m := |bs| + 1 + n;
  }

  predicate Copying(pc: Pc) {
    pc.Seek? || pc.Copy? || pc.Finished? || pc.Fault?
  }

  /** From there on only data changes. */
  lemma {:induction false} DataOnly(d: Disk, th: Thread, m: nat)
    requires Copying(th.pc)
    ensures var (e, pc) := Alone(d, th, m); Copying(pc) && e == d.(data := e.data) && |e.data| == |d.data|
    decreases m
  {
    if m > 0 && |d.used| == |d.next| && th.f < |d.inodes| {
      DataOnly(Step(d, th).0, th.(pc := Step(d, th).1), m - 1);
    }
  }

  /** A finished thread stays so. */
  lemma {:induction false} FinishedStays(d: Disk, th: Thread, m: nat)
    requires th.pc.Finished?
    ensures Alone(d, th, m) == (d, th.pc)
    decreases m
  {
    if m > 0 && |d.used| == |d.next| && th.f < |d.inodes| {
      FinishedStays(d, th, m - 1);
    }
  }

  /** Two runs of the same thread that have both finished ended alike. */
  lemma SameEnd(d: Disk, th: Thread, m: nat, n: nat)
    requires Alone(d, th, m).1.Finished? && Alone(d, th, n).1.Finished?
    ensures Alone(d, th, m) == Alone(d, th, n)
  {
    if m <= n {
      AloneMore(d, th, m, n - m);
      FinishedStays(Alone(d, th, m).0, th.(pc := Alone(d, th, m).1), n - m);
    } else {
      AloneMore(d, th, n, m - n);
      FinishedStays(Alone(d, th, n).0, th.(pc := Alone(d, th, n).1), m - n);
    }
  }

  // ---------------------------------------------------------------- what the copy loop does to the walk

  ghost predicate HopAt(d: Disk, bs: seq<nat>, i: nat) {
    i < |bs| && bs[i] < |d.next| && d.next[bs[i]] == At(bs, i + 1)
  }

  /** The walk from inode `f` is `bs`. */
  ghost predicate OnWalk(d: Disk, f: nat, bs: seq<nat>) {
    && |d.used| == |d.next| == |d.data| < END_OF_FILE && f < |d.inodes| && d.inodes[f].first == At(bs, 0)
    && (forall i :: 0 <= i < |bs| ==> bs[i] < |d.next|)
    && forall i {:trigger HopAt(d, bs, i)} :: 0 <= i < |bs| ==> HopAt(d, bs, i)
  }

  lemma OnWalkFollows(d: Disk, f: nat, bs: seq<nat>)
    requires |d.used| == |d.next| == |d.data| < END_OF_FILE && f < |d.inodes|
    ensures OnWalk(d, f, bs) <==> Follows(d, Head(f), bs)
  {
    if OnWalk(d, f, bs) {
      forall i | 0 <= i < |bs| ensures bs[i] < |d.next| && d.next[bs[i]] == At(bs, i + 1) {
        assert HopAt(d, bs, i);
      }
    }
  }

  /** The cell of position `i` of the walk, and what follows it. */
  lemma WalkCell(d: Disk, f: nat, bs: seq<nat>, i: nat)
    requires OnWalk(d, f, bs) && i < |bs|
    ensures CellOk(d, CellAt(f, bs, i)) && Get(d, CellAt(f, bs, i)) == bs[i] < |d.data|
    ensures d.next[bs[i]] == At(bs, i + 1)
  {
    assert HopAt(d, bs, i);
    assert i > 0 ==> HopAt(d, bs, i - 1);
  }

  /** The blocks along the walk. */
  ghost function Along(d: Disk, f: nat, bs: seq<nat>): (blocks: seq<Block>)
    requires OnWalk(d, f, bs)
    ensures |blocks| == |bs| && forall i :: 0 <= i < |bs| ==> bs[i] < |d.data| && blocks[i] == d.data[bs[i]]
  {
    seq(|bs|, i requires 0 <= i < |bs| => d.data[bs[i]])
  }

  /** A walk that ends goes by no block twice. */
  lemma WalkRepeatsNothing(d: Disk, f: nat, bs: seq<nat>, i: nat, j: nat)
    requires OnWalk(d, f, bs) && i < j < |bs|
    ensures bs[i] != bs[j]
  {
    if bs[i] == bs[j] {
      OnWalkFollows(d, f, bs);
      WalkUnique(d, Link(bs[i]), bs[i + 1..], bs[j + 1..]);
    }
  }

  /** What else there is stays. */
  ghost predicate OnlyAlong(d: Disk, bs: seq<nat>, e: Disk) {
    && e == d.(data := e.data) && |e.data| == |d.data|
    && forall b :: 0 <= b < |d.data| && b !in bs ==> e.data[b] == d.data[b]
  }

  lemma WriteAlong(d: Disk, f: nat, bs: seq<nat>, i: nat, o: nat, chunk: seq<byte>)
    requires OnWalk(d, f, bs) && i < |bs| && o + |chunk| <= BLOCK_SIZE
    ensures bs[i] < |d.data|
    ensures var e := WriteBlock(d, bs[i], o, chunk);
            && OnWalk(e, f, bs) && OnlyAlong(d, bs, e)
            && Along(e, f, bs) == Along(d, f, bs)[i := Splice(Along(d, f, bs)[i], o, chunk)]
  {
    var e := WriteBlock(d, bs[i], o, chunk);
    OnWalkFollows(d, f, bs);
    OnWalkFollows(e, f, bs);
    forall j | 0 <= j < |bs|
      ensures Along(e, f, bs)[j] == Along(d, f, bs)[i := Splice(Along(d, f, bs)[i], o, chunk)][j]
    {
      if j < i {
        WalkRepeatsNothing(d, f, bs, j, i);
      } else if i < j {
        WalkRepeatsNothing(d, f, bs, i, j);
      }
    }
  }

  /** One iteration of the copy loop at block `i` of the walk. */
  lemma CopyAlong(d: Disk, th: Thread, bs: seq<nat>, i: nat, w: nat)
    requires OnWalk(d, th.f, bs) && i < |bs| && th.op.Writing? && th.pc.Copy? && th.pc.left > 0
    requires th.pc.at == CellAt(th.f, bs, i) && th.pc.o < BLOCK_SIZE && th.pc.pos + th.pc.left <= |th.op.buf|
    requires w == ChunkSize(th.pc)
    ensures bs[i] < |d.data|
    ensures Step(d, th) == (WriteBlock(d, bs[i], th.pc.o, th.op.buf[th.pc.pos..th.pc.pos + w]),
                            if i + 1 == |bs| then Finished(SEXE)
                            else Copy(Link(bs[i]), 0, th.pc.left - w, th.pc.pos + w))
  {
    WalkCell(d, th.f, bs, i);
  }

  /** The walk as a file of as many full blocks. */
  ghost function WalkView(d: Disk, f: nat, bs: seq<nat>): FileView
    requires OnWalk(d, f, bs)
  {
    FileView(Inode(REGULAR, BLOCK_SIZE * |bs|, 0, 0), bs, Along(d, f, bs))
  }

  /** The loop's variables on the walk, and what is in place; before the write the walk was `v0`. */
  ghost predicate CopyingAlong(d: Disk, th: Thread, bs: seq<nat>, v0: FileView) {
    && OnWalk(d, th.f, bs) && th.pc.Copy? && v0.node.size == BLOCK_SIZE * |bs|
    && CopyPoint(WalkView(d, th.f, bs), v0, th.f, th.op, th.pc.at, th.pc.o, th.pc.left, th.pc.pos)
  }

  /** The disk after an iteration, and what the iteration returns. */
  lemma ChunkAlong(d: Disk, th: Thread, bs: seq<nat>, v0: FileView, i: nat, w: nat) returns (e: Disk)
    requires CopyingAlong(d, th, bs, v0) && th.pc.left > 0 && th.op.Writing? && th.pc.o < BLOCK_SIZE
    requires i == (th.op.offset + th.pc.pos) / BLOCK_SIZE && w == ChunkSize(th.pc)
    ensures i < |bs| && OnWalk(e, th.f, bs) && OnlyAlong(d, bs, e) && th.pc.pos + w <= |th.op.buf|
    ensures Overlaid(v0.blocks, Along(e, th.f, bs), th.op.offset, th.op.buf, th.pc.pos + w)
    ensures Step(d, th) == (e, if i + 1 == |bs| then Finished(SEXE)
                               else Copy(Link(bs[i]), 0, th.pc.left - w, th.pc.pos + w))
  {
    CopyAlong(d, th, bs, i, w);
    WriteAlong(d, th.f, bs, i, th.pc.o, th.op.buf[th.pc.pos..th.pc.pos + w]);
    OverlayStep(v0.blocks, Along(d, th.f, bs), th.op.offset, th.op.buf, th.pc.pos, i, th.pc.o, w);
    e := WriteBlock(d, bs[i], th.pc.o, th.op.buf[th.pc.pos..th.pc.pos + w]);
  }

  lemma CopyTurn(d: Disk, th: Thread, bs: seq<nat>, v0: FileView) returns (e: Disk, pc: Pc)
    requires CopyingAlong(d, th, bs, v0) && th.pc.left > 0
    ensures pc.Copy? && pc.left < th.pc.left && CopyingAlong(e, th.(pc := pc), bs, v0) && OnlyAlong(d, bs, e)
    ensures Step(d, th) == (e, pc) || (Step(d, th) == (e, Finished(SEXE)) && pc.left == 0)
  {
    var i, w := (th.op.offset + th.pc.pos) / BLOCK_SIZE, ChunkSize(th.pc);
    e := ChunkAlong(d, th, bs, v0, i, w);
    pc := Copy(Link(bs[i]), 0, th.pc.left - w, th.pc.pos + w);
    NextPoint(WalkView(d, th.f, bs), WalkView(e, th.f, bs), v0, th, i, w);
  }

  /** The loop ends with the whole buffer laid over the walk's blocks. */
  lemma {:induction false} CopiesAlong(d: Disk, th: Thread, bs: seq<nat>, v0: FileView) returns (m: nat, e: Disk)
    requires CopyingAlong(d, th, bs, v0)
    ensures Alone(d, th, m) == (e, Finished(SEXE)) && OnlyAlong(d, bs, e) && OnWalk(e, th.f, bs) && th.op.Writing?
    ensures Overlaid(v0.blocks, Along(e, th.f, bs), th.op.offset, th.op.buf, |th.op.buf|)
    decreases th.pc.left
  {
    AloneOnce(d, th);
    if th.pc.left == 0 {
      m, e := 1, d;
    } else {
      var e1, pc := CopyTurn(d, th, bs, v0);
      if Step(d, th).1.Finished? {
        m, e := 1, e1;
      } else {
        m, e := CopiesAlong(e1, th.(pc := pc), bs, v0);
        AloneMore(d, th, 1, m);
        m := m + 1;
      }
    }
  }

  /** It gets there by as many hops as the offset has blocks. */
  lemma {:induction false} SeeksAlong(d: Disk, th: Thread, bs: seq<nat>, i: nat)
    requires OnWalk(d, th.f, bs) && th.op.Writing? && i <= th.op.offset / BLOCK_SIZE < |bs|
    requires th.pc == Seek(CellAt(th.f, bs, i), th.op.offset / BLOCK_SIZE - i)
    ensures var n := th.op.offset / BLOCK_SIZE;
            Alone(d, th, n - i + 1) == (d, Copy(CellAt(th.f, bs, n), th.op.offset % BLOCK_SIZE, |th.op.buf|, 0))
    decreases th.op.offset / BLOCK_SIZE - i
  {
    var n := th.op.offset / BLOCK_SIZE;
    AloneOnce(d, th);
    WalkCell(d, th.f, bs, i);
    if i < n {
      SeeksAlong(d, th.(pc := Seek(Link(bs[i]), n - i - 1)), bs, i + 1);
      AloneMore(d, th, 1, n - i);
    }
  }

  /** A write within the walk's blocks: what its thread does to them. */
  lemma WritesAlong(d: Disk, th: Thread, bs: seq<nat>) returns (m: nat, e: Disk)
    requires OnWalk(d, th.f, bs) && th.op.Writing? && th.op.buf != [] && End(th.op) <= BLOCK_SIZE * |bs|
    requires th.pc == Seek(Head(th.f), th.op.offset / BLOCK_SIZE)
    ensures Alone(d, th, m) == (e, Finished(SEXE)) && OnlyAlong(d, bs, e) && OnWalk(e, th.f, bs)
    ensures Overlaid(Along(d, th.f, bs), Along(e, th.f, bs), th.op.offset, th.op.buf, |th.op.buf|)
  {
    var n := th.op.offset / BLOCK_SIZE;
    SeeksAlong(d, th, bs, 0);
    var at := th.(pc := Copy(CellAt(th.f, bs, n), th.op.offset % BLOCK_SIZE, |th.op.buf|, 0));
    var more: nat;
    more, e := CopiesAlong(d, at, bs, WalkView(d, th.f, bs));
    AloneMore(d, th, n + 1, more);
    m := n + 1 + more;
  }

  // ---------------------------------------------------------------- the exact condition for a write

  /** The write stays within the walk's blocks, and those of its bytes that go to a file's block are
      there already. */
  ghost predicate WritesNothingNew(d: Disk, k: Book, bs: seq<nat>, off: nat, buf: seq<byte>) {
    && off + |buf| <= BLOCK_SIZE * |bs|
    && forall q {:trigger ByteStays(d, k, bs, off, buf, q)} :: 0 <= q < |buf| ==> ByteStays(d, k, bs, off, buf, q)
  }

  ghost predicate ByteStays(d: Disk, k: Book, bs: seq<nat>, off: nat, buf: seq<byte>, q: nat) {
    var i, r := (off + q) / BLOCK_SIZE, (off + q) % BLOCK_SIZE;
    && q < |buf| && i < |bs| && bs[i] < |d.data| && bs[i] < |k.owner|
    && (k.owner[bs[i]].In? ==> d.data[bs[i]][r] == buf[q])
  }

  ghost predicate WriteHarmless(d: Disk, k: Book, bs: seq<nat>, th: Thread)
    requires Shape(d, k) && bs != [] && bs[|bs| - 1] < |d.next| && th.op.Writing?
  {
    if End(th.op) <= BLOCK_SIZE * |bs| then WritesNothingNew(d, k, bs, th.op.offset, th.op.buf)
    else ExtendHarmless(d, k, bs, Expansion(th, bs))
  }

  /** A file's block with nothing new written to it. */
  lemma BlockStays(d: Disk, k: Book, f: nat, bs: seq<nat>, e: Disk, off: nat, buf: seq<byte>, b: nat)
    requires OnWalk(d, f, bs) && OnWalk(e, f, bs) && OnlyAlong(d, bs, e) && |k.owner| == |d.data|
    requires Overlaid(Along(d, f, bs), Along(e, f, bs), off, buf, |buf|) && WritesNothingNew(d, k, bs, off, buf)
    requires b < |d.data| && k.owner[b].In?
    ensures e.data[b] == d.data[b]
  {
    if b in bs {
      var i :| 0 <= i < |bs| && bs[i] == b;
      forall r | 0 <= r < BLOCK_SIZE ensures e.data[b][r] == d.data[b][r] {
        if off <= BLOCK_SIZE * i + r < off + |buf| {
          var q := BLOCK_SIZE * i + r - off;
          assert (off + q) / BLOCK_SIZE == i && (off + q) % BLOCK_SIZE == r;
          assert ByteStays(d, k, bs, off, buf, q);
          assert Along(e, f, bs)[i][r] == buf[q];
        } else {
          assert Along(e, f, bs)[i][r] == Along(d, f, bs)[i][r];
        }
      }
    }
  }

  /** Data of no file may change. */
  lemma OtherDataOnly(d: Disk, k: Book, f: nat, e: Disk)
    requires Wf(d, k) && f < |k.ch| && e == d.(data := e.data) && |e.data| == |d.data|
    requires forall b :: 0 <= b < |d.data| && k.owner[b].In? ==> e.data[b] == d.data[b]
    ensures OnlyFile(d, k, f, e, k)
  {
    forall g | 0 <= g < |k.ch| ensures Linked(e, k, g) {
      assert Linked(d, k, g);
    }
    forall b | 0 <= b < |e.used| ensures Accounted(e, k, b) {
      assert Accounted(d, k, b);
    }
    forall g | 0 <= g < |k.ch| && g != f ensures FileOf(e, k, g) == FileOf(d, k, g) {
      assert Linked(d, k, g);
    }
  }

  lemma KeptBooksKeepData(d: Disk, k: Book, f: nat, e: Disk, k': Book, b: nat)
    requires Wf(d, k) && f < |k.ch| && k.ch[f] == [] && OnlyFile(d, k, f, e, k') && b < |k.owner| && k.owner[b].In?
    ensures b < |e.data| && e.data[b] == d.data[b]
  {
    var o := k.owner[b];
    assert Accounted(d, k, b);
    var v, v' := FileOf(d, k, o.f), FileOf(e, k', o.f);
    assert v'.chain == v.chain && v.chain[o.i] == b && v'.blocks[o.i] == v.blocks[o.i];
  }

  /** Where byte `q` of the buffer went. */
  lemma OverlaidAt(from: seq<Block>, to: seq<Block>, off: nat, buf: seq<byte>, q: nat)
    requires Overlaid(from, to, off, buf, |buf|) && q < |buf| && off + q < BLOCK_SIZE * |to|
    ensures (off + q) / BLOCK_SIZE < |to| && to[(off + q) / BLOCK_SIZE][(off + q) % BLOCK_SIZE] == buf[q]
  {
    var i, r := (off + q) / BLOCK_SIZE, (off + q) % BLOCK_SIZE;
    assert BLOCK_SIZE * i + r == off + q;
    assert to[i][r] == buf[BLOCK_SIZE * i + r - off];
  }

  lemma NewByteKept(
    d: Disk, k: Book, f: nat, bs: seq<nat>, d1: Disk, e: Disk, k': Book, off: nat, buf: seq<byte>, q: nat)
    requires Walks(d, k, f, bs) && k.ch[f] == [] && d1.data == d.data && off + |buf| <= BLOCK_SIZE * |bs| && q < |buf|
    requires OnWalk(d1, f, bs) && OnWalk(e, f, bs) && OnlyFile(d, k, f, e, k')
    requires Overlaid(Along(d1, f, bs), Along(e, f, bs), off, buf, |buf|)
    ensures ByteStays(d, k, bs, off, buf, q)
  {
    var i := (off + q) / BLOCK_SIZE;
    OverlaidAt(Along(d1, f, bs), Along(e, f, bs), off, buf, q);
    if k.owner[bs[i]].In? {
      KeptBooksKeepData(d, k, f, e, k', bs[i]);
    }
  }

  lemma NothingNewIff(d: Disk, k: Book, f: nat, bs: seq<nat>, d1: Disk, e: Disk, off: nat, buf: seq<byte>)
    requires Walks(d, k, f, bs) && OnlyFile(d, k, f, d1, k) && d1.data == d.data && off + |buf| <= BLOCK_SIZE * |bs|
    requires OnWalk(d1, f, bs) && OnWalk(e, f, bs) && OnlyAlong(d1, bs, e)
    requires Overlaid(Along(d1, f, bs), Along(e, f, bs), off, buf, |buf|)
    ensures (exists k' :: OnlyFile(d, k, f, e, k')) <==> WritesNothingNew(d, k, bs, off, buf)
  {
    WalkEnds(d, k, f, bs);
    if WritesNothingNew(d, k, bs, off, buf) {
      forall q | 0 <= q < |buf| ensures ByteStays(d1, k, bs, off, buf, q) {
        assert ByteStays(d, k, bs, off, buf, q);
      }
      forall b | 0 <= b < |d1.data| && k.owner[b].In? ensures e.data[b] == d1.data[b] {
        BlockStays(d1, k, f, bs, e, off, buf, b);
      }
      OtherDataOnly(d1, k, f, e);
      OnlyFileTrans(d, k, f, d1, k, e, k);
    }
    if k' :| OnlyFile(d, k, f, e, k') {
      forall q | 0 <= q < |buf| ensures ByteStays(d, k, bs, off, buf, q) {
        NewByteKept(d, k, f, bs, d1, e, k', off, buf, q);
      }
    }
  }

  /** A write that fits past the walk sets a bit, whatever data it copies. */
  lemma WriteGrows(d: Disk, k: Book, th: Thread, bs: seq<nat>, e: Disk, k': Book)
    requires WriteBegins(d, k, th, bs) && bs != [] && bs[|bs| - 1] < |d.next| && End(th.op) > BLOCK_SIZE * |bs|
    requires Wanted(Expansion(th, bs).need, BLOCK_SIZE) <= FreeIn(d.used, 0, |d.used| - 1)
    requires var g := Extended(d, th.f, bs, Expansion(th, bs)).0; e == g.(data := e.data)
    ensures !OnlyFile(d, k, th.f, e, k')
  {
    var b := ExtendTakes(d, k, th.f, bs, Expansion(th, bs));
    if OnlyFile(d, k, th.f, e, k') {
      assert Linked(e, k', th.f);
      KeptBooksSetNoBits(d, k, th.f, e, k', b);
    }
  }

  lemma ExtendedAnswer(d: Disk, k: Book, f: nat, bs: seq<nat>, x: Extension)
    requires Walks(d, k, f, bs) && bs != [] && bs[|bs| - 1] < |d.next| && x.unit > 0
    ensures Extended(d, f, bs, x).1 == ENOSPC
            <==> x.need > 0 && Wanted(x.need, x.unit) > FreeIn(d.used, 0, |d.used| - 1)
  {
    GrowStop(Stamped(d, f, x), Link(bs[|bs| - 1]), x.need, x.unit, 0);
  }

  /** A thread that has finished after `m` steps and not after `n` has made more than `n`. */
  lemma NotYet(d: Disk, th: Thread, n: nat, m: nat)
    requires Alone(d, th, m).1.Finished? && !Alone(d, th, n).1.Finished?
    ensures n < m
  {
    if m <= n {
      AloneMore(d, th, m, n - m);
      FinishedStays(Alone(d, th, m).0, th.(pc := Alone(d, th, m).1), n - m);
    }
  }

  lemma WriteDirectoryFull(d: Disk, k: Book, th: Thread, bs: seq<nat>, m: nat, n: nat)
    requires WriteBegins(d, k, th, bs) && bs != [] && bs[|bs| - 1] < |d.next| && Alone(d, th, m).1.Finished?
    requires Extended(d, th.f, bs, Expansion(th, bs)).1.ENOSPC?
    requires Alone(d, th, n) == (Extended(d, th.f, bs, Expansion(th, bs)).0, Finished(ENOSPC))
    ensures (exists k' :: OnlyFile(d, k, th.f, Alone(d, th, m).0, k')) <==> WriteHarmless(d, k, bs, th)
  {
    SameEnd(d, th, m, n);
    ExtendedAnswer(d, k, th.f, bs, Expansion(th, bs));
    ExtendIff(d, k, th.f, bs, Expansion(th, bs));
  }

  lemma WriteDirectoryPast(d: Disk, k: Book, th: Thread, bs: seq<nat>, m: nat, n: nat)
    requires WriteBegins(d, k, th, bs) && bs != [] && bs[|bs| - 1] < |d.next| && Alone(d, th, m).1.Finished?
    requires Extended(d, th.f, bs, Expansion(th, bs)).1.SEXE? && Expansion(th, bs).need > 0
    requires Alone(d, th, n)
             == (Extended(d, th.f, bs, Expansion(th, bs)).0, Seek(Head(th.f), th.op.offset / BLOCK_SIZE))
    ensures forall k' :: !OnlyFile(d, k, th.f, Alone(d, th, m).0, k')
    ensures !WriteHarmless(d, k, bs, th)
  {
    var g := Extended(d, th.f, bs, Expansion(th, bs)).0;
    ExtendedAnswer(d, k, th.f, bs, Expansion(th, bs));
    NotYet(d, th, n, m);
    AloneMore(d, th, n, m - n);
    DataOnly(g, th.(pc := Seek(Head(th.f), th.op.offset / BLOCK_SIZE)), m - n);
    forall k' ensures !OnlyFile(d, k, th.f, Alone(d, th, m).0, k') {
      WriteGrows(d, k, th, bs, Alone(d, th, m).0, k');
    }
  }

  /** What is left once it has finished within the walk's blocks. */
  lemma EndsWithin(d: Disk, th: Thread, bs: seq<nat>, d1: Disk, m: nat, n: nat) returns (e: Disk)
    requires Alone(d, th, m).1.Finished? && th.op.Writing? && th.op.buf != [] && End(th.op) <= BLOCK_SIZE * |bs|
    requires Alone(d, th, n) == (d1, Seek(Head(th.f), th.op.offset / BLOCK_SIZE)) && OnWalk(d1, th.f, bs)
    ensures Alone(d, th, m).0 == e && OnlyAlong(d1, bs, e) && OnWalk(e, th.f, bs)
    ensures Overlaid(Along(d1, th.f, bs), Along(e, th.f, bs), th.op.offset, th.op.buf, |th.op.buf|)
  {
    var more: nat;
    more, e := WritesAlong(d1, th.(pc := Seek(Head(th.f), th.op.offset / BLOCK_SIZE)), bs);
    AloneMore(d, th, n, more);
    SameEnd(d, th, m, n + more);
  }

  lemma WriteDirectoryWithin(d: Disk, k: Book, th: Thread, bs: seq<nat>, m: nat, n: nat)
    requires WriteBegins(d, k, th, bs) && bs != [] && bs[|bs| - 1] < |d.next| && Alone(d, th, m).1.Finished?
    requires Expansion(th, bs).need <= 0
    requires Alone(d, th, n) == (Stamped(d, th.f, Expansion(th, bs)), Seek(Head(th.f), th.op.offset / BLOCK_SIZE))
    ensures (exists k' :: OnlyFile(d, k, th.f, Alone(d, th, m).0, k')) <==> WriteHarmless(d, k, bs, th)
  {
    var d1 := Stamped(d, th.f, Expansion(th, bs));
    SetSizeOnly(d, k, th.f, End(th.op), th.now);
    OnWalkFollows(d1, th.f, bs);
    var e := EndsWithin(d, th, bs, d1, m, n);
    NothingNewIff(d, k, th.f, bs, d1, e, th.op.offset, th.op.buf);
  }

  /** A write that met a directory, once finished, has kept all files, the reserved blocks and the
      bitmap exactly when it stayed within the walk's blocks and wrote nothing new to a file's, or
      found too few free blocks, block 0 among them, the last block of the walk being in no file. */
  lemma WriteDirectoryIff(d: Disk, k: Book, th: Thread, bs: seq<nat>, m: nat)
    requires WriteBegins(d, k, th, bs) && Alone(d, th, m).1.Finished?
    ensures bs != [] && bs[|bs| - 1] < |d.next| == |d.used|
    ensures (exists k' :: OnlyFile(d, k, th.f, Alone(d, th, m).0, k')) <==> WriteHarmless(d, k, bs, th)
  {
    WalkEnds(d, k, th.f, bs);
    var n := WriteAlone(d, k, th, bs);
    if Extended(d, th.f, bs, Expansion(th, bs)).1.ENOSPC? {
      WriteDirectoryFull(d, k, th, bs, m, n);
    } else if Expansion(th, bs).need > 0 {
      WriteDirectoryPast(d, k, th, bs, m, n);
    } else {
      WriteDirectoryWithin(d, k, th, bs, m, n);
    }
  }
}
