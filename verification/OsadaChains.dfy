/** What the critical sections of OsadaDisk do to the chains: each keeps the volume well formed,
    touches one file only, and a failed extension followed by its rollback leaves no trace. */
module OsadaChains {
  import opened OsadaDisk

  // ---------------------------------------------------------------- one block joins a chain

  function Append1(k: Book, f: nat, b: nat): Book
    requires f < |k.ch| && b < |k.owner|
  {
    Book(k.ch[f := k.ch[f] + [b]], k.owner[b := In(f, |k.ch[f]|)])
  }

  /** Following a regular file's chain: the cell for position `i` is a real cell and holds the
      pointer of position `i`, or END_OF_FILE past the end. */
  lemma ChainCell(d: Disk, k: Book, f: nat, i: nat)
    requires Wf(d, k) && f < |k.ch| && d.inodes[f].state.REGULAR? && i <= |k.ch[f]|
    ensures CellOk(d, CellAt(f, k.ch[f], i)) && Get(d, CellAt(f, k.ch[f], i)) == At(k.ch[f], i)
    ensures i < |k.ch[f]| ==> At(k.ch[f], i) < |d.data| < END_OF_FILE
  {
    assert Linked(d, k, f);
  }

  function Tail(k: Book, f: nat): Cell
    requires f < |k.ch|
  {
    CellAt(f, k.ch[f], |k.ch[f]|)
  }

  lemma TakeLinked(d: Disk, k: Book, f: nat, pos: nat, g: nat)
    requires Wf(d, k) && f < |k.ch| && d.inodes[f].state.REGULAR? && pos < |d.used| && !d.used[pos]
    requires g < |k.ch| && CellOk(d, Tail(k, f))
    ensures Linked(Take(d, Tail(k, f), pos), Append1(k, f, pos), g)
  {
    assert Linked(d, k, f) && Linked(d, k, g) && Accounted(d, k, pos);
    var d', k' := Take(d, Tail(k, f), pos), Append1(k, f, pos);
    var c, c' := k.ch[g], k'.ch[g];
    forall i | 0 <= i < |c'|
      ensures c'[i] < |d'.next| && k'.owner[c'[i]] == In(g, i) && d'.next[c'[i]] == At(c', i + 1)
    {
      if i < |c| {
        assert k.owner[c[i]] == In(g, i) && c[i] != pos;
      }
    }
  }

  lemma TakeWf(d: Disk, k: Book, f: nat, pos: nat)
    requires Wf(d, k) && f < |k.ch| && d.inodes[f].state.REGULAR? && pos < |d.used| && !d.used[pos]
    ensures CellOk(d, Tail(k, f)) && Wf(Take(d, Tail(k, f), pos), Append1(k, f, pos))
    ensures Tail(Append1(k, f, pos), f) == Link(pos)
    ensures forall g :: 0 <= g < |k.ch| && g != f ==>
              FileOf(Take(d, Tail(k, f), pos), Append1(k, f, pos), g) == FileOf(d, k, g)
  {
    assert Linked(d, k, f) && Accounted(d, k, pos);
    var d', k' := Take(d, Tail(k, f), pos), Append1(k, f, pos);
    forall g | 0 <= g < |k'.ch| ensures Linked(d', k', g) {
      TakeLinked(d, k, f, pos, g);
    }
    forall b | 0 <= b < |d'.used| ensures Accounted(d', k', b) {
      assert Accounted(d, k, b);
    }
  }

  // ---------------------------------------------------------------- the allocation scan

  /** Free blocks among the bits lo..hi-1. */
  function FreeIn(u: seq<bool>, lo: nat, hi: nat): nat
    requires hi <= |u|
    decreases hi - lo
  {
    if lo >= hi then 0 else (if u[lo] then 0 else 1) + FreeIn(u, lo + 1, hi)
  }

  lemma {:induction false} FreeInSame(u: seq<bool>, v: seq<bool>, lo: nat, hi: nat)
    requires hi <= |u| && hi <= |v| && forall i :: lo <= i < hi ==> u[i] == v[i]
    ensures FreeIn(u, lo, hi) == FreeIn(v, lo, hi)
    decreases hi - lo
  {
    if lo < hi {
      FreeInSame(u, v, lo + 1, hi);
    }
  }

  lemma {:induction false} FreeInSnoc(u: seq<bool>, lo: nat, hi: nat)
    requires lo < hi <= |u|
    ensures FreeIn(u, lo, hi) == FreeIn(u, lo, hi - 1) + (if u[hi - 1] then 0 else 1)
    decreases hi - lo
  {
    if lo < hi - 1 {
      FreeInSnoc(u, lo + 1, hi);
    }
  }

  lemma {:induction false} FreeInTake(u: seq<bool>, p: nat, lo: nat, hi: nat)
    requires lo <= p < hi <= |u| && !u[p]
    ensures FreeIn(u[p := true], lo, hi) == FreeIn(u, lo, hi) - 1
    decreases hi - lo
  {
    if lo == p {
      FreeInSame(u, u[p := true], lo + 1, hi);
    } else {
      FreeInTake(u, p, lo + 1, hi);
    }
  }

  lemma {:induction false} FreeInNone(u: seq<bool>, lo: nat, hi: nat)
    requires hi <= |u| && forall i :: lo <= i < hi ==> u[i]
    ensures FreeIn(u, lo, hi) == 0
    decreases hi - lo
  {
    if lo < hi {
      FreeInNone(u, lo + 1, hi);
    }
  }

  /** Extending a chain by `t` blocks goes through exactly when this holds: the free blocks
      before the last bit are enough, or an empty file needs a single block, which the
      first-block scan takes from any free bit. */
  predicate Fits(used: seq<bool>, firstScan: bool, t: int)
    requires |used| > 0
  {
    || t <= FreeIn(used, 0, |used| - 1)
    || (firstScan && t == 1 && FreeIn(used, 0, |used|) > 0)
  }

  /** The test at the end of a scan may reject only when the last data block is the final one
      taken: success needs `t` free blocks, and `t + 1` free blocks always succeed. */
  lemma FitsBounds(used: seq<bool>, firstScan: bool, t: int)
    requires |used| > 0
    ensures Fits(used, firstScan, t) ==> t <= FreeIn(used, 0, |used|)
    ensures t + 1 <= FreeIn(used, 0, |used|) ==> Fits(used, firstScan, t)
    ensures t <= FreeIn(used, 0, |used|) && !Fits(used, firstScan, t) ==> !used[|used| - 1]
  {
    FreeInSnoc(used, 0, |used|);
  }

  /** After the first-block scan took bit `p`, the rest of the extension fits exactly when the
      whole extension did. */
  lemma FitsAfterFirst(u: seq<bool>, p: nat, t: int)
    requires p < |u| && !u[p] && t >= 1 && forall b :: 0 <= b < p ==> u[b]
    ensures Fits(u, true, t) <==> t - 1 <= FreeIn(u[p := true], 0, |u| - 1)
  {
    FreeInTake(u, p, 0, |u|);
    if p < |u| - 1 {
      FreeInTake(u, p, 0, |u| - 1);
    } else {
      FreeInNone(u, 0, |u| - 1);
      FreeInSame(u, u[p := true], 0, |u| - 1);
    }
  }

  /** Blocks a scan has to find for `need` when each brings it down by `unit`. */
  function Wanted(need: int, unit: nat): nat
    requires unit > 0
    decreases if need > 0 then need else 0
  {
    if need <= 0 then 0 else 1 + Wanted(need - unit, unit)
  }

  lemma {:induction false} WantedBlocks(need: int)
    ensures Wanted(need, BLOCK_SIZE) == if need <= 0 then 0 else Blocks(need)
    decreases if need > 0 then need else 0
  {
    if need > 0 {
      WantedBlocks(need - BLOCK_SIZE);
    }
  }

  lemma {:induction false} WantedOnes(need: int)
    ensures Wanted(need, 1) == if need <= 0 then 0 else need
    decreases if need > 0 then need else 0
  {
    if need > 0 {
      WantedOnes(need - 1);
    }
  }

  /** The scan stops short of the end exactly when the bits before the last one hold enough
      free blocks: the last block may be taken, but taking it reads as running out. */
  lemma {:induction false} GrowStop(d: Disk, tail: Cell, need: int, unit: nat, j: nat)
    requires CellOk(d, tail) && |d.used| == |d.next| && j < |d.used| && unit > 0
    ensures Grow(d, tail, need, unit, j).stop < |d.used| <==> Wanted(need, unit) <= FreeIn(d.used, j, |d.used| - 1)
    decreases |d.used| - j
  {
    if need > 0 && j < |d.used| - 1 {
      if d.used[j] {
        GrowStop(d, tail, need, unit, j + 1);
      } else {
        var d1 := Take(d, tail, j);
        GrowStop(d1, Link(j), need - unit, unit, j + 1);
        FreeInSame(d.used, d1.used, j + 1, |d.used| - 1);
      }
    }
  }

  /** The state after a scan that appended `taken` to file `f`. */
  ghost predicate Grown(d: Disk, k: Book, f: nat, taken: seq<nat>, d': Disk, k': Book)
    requires Wf(d, k) && f < |k.ch|
  {
    && Wf(d', k') && |k'.ch| == |k.ch| && |d'.used| == |d.used|
    && k'.ch[f] == k.ch[f] + taken
    && (forall g :: 0 <= g < |k.ch| && g != f ==> FileOf(d', k', g) == FileOf(d, k, g))
    && d'.data == d.data
    && d'.inodes[f] == d.inodes[f].(first := At(k'.ch[f], 0))
  }

  lemma TakeGrown(d: Disk, k: Book, f: nat, pos: nat)
    requires Wf(d, k) && f < |k.ch| && d.inodes[f].state.REGULAR? && pos < |d.used| && !d.used[pos]
    ensures CellOk(d, Tail(k, f)) && Tail(Append1(k, f, pos), f) == Link(pos)
    ensures Grown(d, k, f, [pos], Take(d, Tail(k, f), pos), Append1(k, f, pos))
  {
    assert Linked(d, k, f);
    TakeWf(d, k, f, pos);
  }

  lemma GrownTrans(d: Disk, k: Book, f: nat, a: seq<nat>, d1: Disk, k1: Book, b: seq<nat>, d2: Disk, k2: Book)
    requires Wf(d, k) && f < |k.ch| && Grown(d, k, f, a, d1, k1) && Grown(d1, k1, f, b, d2, k2)
    ensures Grown(d, k, f, a + b, d2, k2)
  {
    assert k.ch[f] + (a + b) == k.ch[f] + a + b;
    forall g | 0 <= g < |k.ch| && g != f ensures FileOf(d2, k2, g) == FileOf(d, k, g) {
      assert FileOf(d1, k1, g) == FileOf(d, k, g);
    }
  }

  lemma GrownNothing(d: Disk, k: Book, f: nat)
    requires Wf(d, k) && f < |k.ch| && d.inodes[f].state.REGULAR?
    ensures CellOk(d, Tail(k, f)) && Grown(d, k, f, [], d, k)
  {
    assert Linked(d, k, f);
    assert k.ch[f] + [] == k.ch[f];
  }

  /** One block, and then the rest. */
  lemma GrownMore(d: Disk, k: Book, f: nat, j: nat, rest: seq<nat>, e: Disk)
    requires Wf(d, k) && f < |k.ch| && d.inodes[f].state.REGULAR? && j < |d.used| && !d.used[j]
    requires CellOk(d, Tail(k, f)) && forall i :: 0 <= i < |rest| ==> rest[i] < |d.used|
    requires Wf(Take(d, Tail(k, f), j), Append1(k, f, j))
    requires Grown(Take(d, Tail(k, f), j), Append1(k, f, j), f, rest, e, Append(Append1(k, f, j), f, rest))
    ensures forall i :: 0 <= i < |[j] + rest| ==> ([j] + rest)[i] < |d.used|
    ensures Append(k, f, [j] + rest) == Append(Append1(k, f, j), f, rest)
    ensures Grown(d, k, f, [j] + rest, e, Append(k, f, [j] + rest))
  {
    var d1, k1, taken := Take(d, Tail(k, f), j), Append1(k, f, j), [j] + rest;
    assert taken[0] == j && taken[1..] == rest;
    TakeGrown(d, k, f, j);
    GrownTrans(d, k, f, [j], d1, k1, rest, e, Append(k1, f, rest));
  }

  lemma {:induction false} GrowSpec(d: Disk, k: Book, f: nat, need: int, unit: nat, j: nat) returns (taken: seq<nat>)
    requires Wf(d, k) && f < |k.ch| && d.inodes[f].state.REGULAR? && j <= |d.used| && unit > 0
    ensures CellOk(d, Tail(k, f)) && forall i :: 0 <= i < |taken| ==> taken[i] < |d.used| && !d.used[taken[i]]
    ensures var o := Grow(d, Tail(k, f), need, unit, j);
            && Grown(d, k, f, taken, o.disk, Append(k, f, taken))
            && o.tail == Tail(Append(k, f, taken), f)
            && |taken| <= Wanted(need, unit)
            && (o.stop < |d.used| ==> |taken| == Wanted(need, unit))
    decreases |d.used| - j
  {
    GrownNothing(d, k, f);
    if need <= 0 || j == |d.used| {
      taken := [];
    } else if d.used[j] {
      taken := GrowSpec(d, k, f, need, unit, j + 1);
    } else {
      TakeGrown(d, k, f, j);
      ghost var d1, k1 := Take(d, Tail(k, f), j), Append1(k, f, j);
      var rest := GrowSpec(d1, k1, f, need - unit, unit, j + 1);
      taken := [j] + rest;
      GrownMore(d, k, f, j, rest, Grow(d1, Link(j), need - unit, unit, j + 1).disk);
    }
  }

  lemma {:induction false} AppendTwice(k: Book, f: nat, a: seq<nat>, b: seq<nat>)
    requires f < |k.ch|
    requires forall i :: 0 <= i < |a + b| ==> (a + b)[i] < |k.owner|
    ensures (forall i :: 0 <= i < |a| ==> a[i] < |k.owner|) && (forall i :: 0 <= i < |b| ==> b[i] < |k.owner|)
    ensures Append(Append(k, f, a), f, b) == Append(k, f, a + b)
    decreases |a|
  {
    assert forall i :: 0 <= i < |a| ==> a[i] == (a + b)[i];
    assert forall i :: 0 <= i < |b| ==> b[i] == (a + b)[|a| + i];
    if a == [] {
      assert a + b == b;
    } else {
      assert (a + b)[0] == a[0] && (a + b)[1..] == a[1..] + b;
      AppendTwice(Append1(k, f, a[0]), f, a[1..], b);
    }
  }

  // ---------------------------------------------------------------- release

  lemma DropStep(d: Disk, c: Cell, bs: seq<nat>)
    requires |d.used| == |d.next| && Path(d, c, bs) && bs != []
    ensures Path(DropOne(d, c, bs[0]), Link(bs[0]), bs[1..])
    ensures At(bs, 1) == At(bs[1..], 0)
  {
    var d1, r := DropOne(d, c, bs[0]), bs[1..];
    forall i | 0 <= i < |r|
      ensures r[i] < |d1.next| && d1.next[r[i]] == At(r, i + 1) && Link(bs[0]) != Link(r[i])
    {
      assert d.next[bs[i + 1]] == At(bs, i + 2) && bs[0] != bs[i + 1];
    }
  }

  /** What the release loop does: it clears exactly the bits of the blocks it walks, ends their
      links, and ends the cell it started from. */
  ghost predicate Dropped(d: Disk, c: Cell, bs: seq<nat>, r: Disk) {
    && r.data == d.data && |r.used| == |d.used| && |r.next| == |d.next|
    && (forall b :: 0 <= b < |d.used| ==> (r.used[b] <==> d.used[b] && b !in bs))
    && (forall b :: 0 <= b < |d.next| ==> r.next[b] == if Link(b) == c || b in bs then END_OF_FILE else d.next[b])
    && CellOk(d, c) && r.inodes == if c.Head? then d.inodes[c.f := d.inodes[c.f].(first := END_OF_FILE)] else d.inodes
  }

  lemma DroppedStep(d: Disk, c: Cell, bs: seq<nat>, r: Disk)
    requires |d.used| == |d.next| && CellOk(d, c) && bs != [] && bs[0] < |d.used|
    requires Dropped(DropOne(d, c, bs[0]), Link(bs[0]), bs[1..], r)
    ensures Dropped(d, c, bs, r)
  {
    forall b: nat ensures b in bs <==> b == bs[0] || b in bs[1..] {
      if b in bs && b != bs[0] {
        var i :| 0 <= i < |bs| && bs[i] == b;
        assert bs[1..][i - 1] == b;
      }
    }
  }

  lemma {:induction false} DropSpec(d: Disk, c: Cell, bs: seq<nat>)
    requires |d.used| == |d.next| && Path(d, c, bs)
    ensures Dropped(d, c, bs, Drop(d, c, bs))
    decreases |bs|
  {
    if bs == [] {
      assert Get(d, c) == END_OF_FILE;
      if c.Head? {
        assert d.inodes[c.f].(first := END_OF_FILE) == d.inodes[c.f];
      }
    } else {
      DropStep(d, c, bs);
      DropSpec(DropOne(d, c, bs[0]), Link(bs[0]), bs[1..]);
      DroppedStep(d, c, bs, Drop(d, c, bs));
    }
  }

  /** The release of file `f` from position `keep` of its chain on. */
  function Released(d: Disk, k: Book, f: nat, keep: nat): Disk
    requires f < |k.ch| && keep <= |k.ch[f]| && CellOk(d, CellAt(f, k.ch[f], keep)) && |d.used| == |d.next|
    requires forall i :: 0 <= i < |k.ch[f]| ==> k.ch[f][i] < |d.used|
  {
    Drop(d, CellAt(f, k.ch[f], keep), k.ch[f][keep..])
  }

  lemma ReleasedOk(d: Disk, k: Book, f: nat, keep: nat)
    requires Wf(d, k) && f < |k.ch| && d.inodes[f].state.REGULAR? && keep <= |k.ch[f]|
    ensures CellOk(d, CellAt(f, k.ch[f], keep)) && Path(d, CellAt(f, k.ch[f], keep), k.ch[f][keep..])
    ensures forall i :: 0 <= i < |k.ch[f]| ==> k.ch[f][i] < |d.used| && k.owner[k.ch[f][i]] == In(f, i)
  {
    assert Linked(d, k, f);
    PathFrom(d, k, f, keep);
  }

  lemma ReleasedLinked(d: Disk, k: Book, f: nat, keep: nat, g: nat)
    requires Wf(d, k) && f < |k.ch| && d.inodes[f].state.REGULAR? && keep <= |k.ch[f]| && g < |k.ch|
    requires CellOk(d, CellAt(f, k.ch[f], keep)) && forall i :: 0 <= i < |k.ch[f]| ==> k.ch[f][i] < |d.used|
    ensures Shape(Released(d, k, f, keep), Cut(k, f, keep)) && Linked(Released(d, k, f, keep), Cut(k, f, keep), g)
    ensures g != f ==> Released(d, k, f, keep).inodes[g] == d.inodes[g]
  {
    ReleasedOk(d, k, f, keep);
    var cell, c := CellAt(f, k.ch[f], keep), k.ch[f];
    DropSpec(d, cell, c[keep..]);
    var d', k' := Released(d, k, f, keep), Cut(k, f, keep);
    assert Linked(d, k, g);
    var cg, cg' := k.ch[g], k'.ch[g];
    forall i | 0 <= i < |cg'|
      ensures cg'[i] < |d'.next| && k'.owner[cg'[i]] == In(g, i) && d'.next[cg'[i]] == At(cg', i + 1)
    {
      assert cg'[i] == cg[i] && k.owner[cg[i]] == In(g, i);
      assert cg[i] !in c[keep..];
      if g != f && keep > 0 {
        assert k.owner[c[keep - 1]] == In(f, keep - 1);
      }
      if g == f && i < keep - 1 {
        assert c[i] != c[keep - 1];
      }
    }
  }

  /** Releasing the end of a chain keeps the volume well formed, shortens that chain to its
      first `keep` blocks and changes no other file. */
  lemma ReleasedSpec(d: Disk, k: Book, f: nat, keep: nat)
    requires Wf(d, k) && f < |k.ch| && d.inodes[f].state.REGULAR? && keep <= |k.ch[f]|
    requires CellOk(d, CellAt(f, k.ch[f], keep)) && forall i :: 0 <= i < |k.ch[f]| ==> k.ch[f][i] < |d.used|
    ensures var d', k' := Released(d, k, f, keep), Cut(k, f, keep);
            && Wf(d', k') && d'.data == d.data && |d'.used| == |d.used|
            && k'.ch[f] == k.ch[f][..keep]
            && d'.inodes[f] == d.inodes[f].(first := At(k.ch[f][..keep], 0))
            && (forall g :: 0 <= g < |k.ch| && g != f ==> FileOf(d', k', g) == FileOf(d, k, g))
  {
    ReleasedOk(d, k, f, keep);
    var cell, c := CellAt(f, k.ch[f], keep), k.ch[f];
    DropSpec(d, cell, c[keep..]);
    var d', k' := Released(d, k, f, keep), Cut(k, f, keep);
    forall g | 0 <= g < |k'.ch| ensures Linked(d', k', g) && (g != f ==> d'.inodes[g] == d.inodes[g]) {
      ReleasedLinked(d, k, f, keep, g);
    }
    forall b | 0 <= b < |d'.used| ensures Accounted(d', k', b) {
      assert Accounted(d, k, b);
      if b in c[keep..] {
        var i :| keep <= i < |c| && c[i] == b;
      }
      if k.owner[b].In? && k.owner[b].f == f && keep <= k.owner[b].i {
        assert c[keep..][k.owner[b].i - keep] == b;
      }
    }
    assert Linked(d', k', f);
  }

  // ---------------------------------------------------------------- rollback

  lemma {:induction false} AppendOwner(k: Book, f: nat, bs: seq<nat>, b: nat)
    requires f < |k.ch| && b < |k.owner|
    requires forall i :: 0 <= i < |bs| ==> bs[i] < |k.owner|
    ensures Append(k, f, bs).ch == k.ch[f := k.ch[f] + bs]
    ensures b !in bs ==> Append(k, f, bs).owner[b] == k.owner[b]
    ensures b in bs ==> Append(k, f, bs).owner[b].In? && Append(k, f, bs).owner[b].f == f
                        && |k.ch[f]| <= Append(k, f, bs).owner[b].i
    decreases |bs|
  {
    if bs == [] {
      assert k.ch[f] + bs == k.ch[f];
    } else {
      AppendOwner(Append1(k, f, bs[0]), f, bs[1..], b);
      assert k.ch[f] + [bs[0]] + bs[1..] == k.ch[f] + bs;
    }
  }

  /** Cutting off what a scan appended gives back the books of before. */
  lemma CutAppend(d: Disk, k: Book, f: nat, bs: seq<nat>)
    requires Wf(d, k) && f < |k.ch|
    requires forall i :: 0 <= i < |bs| ==> bs[i] < |d.used| && !d.used[bs[i]]
    ensures |k.ch[f]| <= |Append(k, f, bs).ch[f]| && Cut(Append(k, f, bs), f, |k.ch[f]|) == k
  {
    var a := Append(k, f, bs);
    AppendOwner(k, f, bs, 0);
    var r := Cut(a, f, |k.ch[f]|);
    assert (k.ch[f] + bs)[..|k.ch[f]|] == k.ch[f];
    forall b | 0 <= b < |k.owner| ensures r.owner[b] == k.owner[b] {
      AppendOwner(k, f, bs, b);
      assert Accounted(d, k, b);
    }
    assert r.ch == k.ch;
    assert r.owner == k.owner;
  }

  /** The bitmap is a function of the books. */
  lemma UsedFromBook(d: Disk, e: Disk, k: Book)
    requires Wf(d, k) && Wf(e, k)
    ensures d.used == e.used
  {
    forall b | 0 <= b < |d.used| ensures d.used[b] == e.used[b] {
      assert Accounted(d, k, b) && Accounted(e, k, b);
    }
  }

  /** A scan that ran out, followed by the rollback to the old chain length, leaves the same
      chains, the same bitmap, the same inodes and the same data. */
  lemma RollbackRestores(d: Disk, k: Book, f: nat, taken: seq<nat>, e: Disk)
    requires Wf(d, k) && f < |k.ch| && d.inodes[f].state.REGULAR?
    requires forall i :: 0 <= i < |taken| ==> taken[i] < |d.used| && !d.used[taken[i]]
    requires Grown(d, k, f, taken, e, Append(k, f, taken))
    ensures var k1 := Append(k, f, taken); var keep := |k.ch[f]|;
            && keep <= |k1.ch[f]| && CellOk(e, CellAt(f, k1.ch[f], keep))
            && (forall i :: 0 <= i < |k1.ch[f]| ==> k1.ch[f][i] < |e.used|)
            && var r := Released(e, k1, f, keep);
            && Cut(k1, f, keep) == k && Wf(r, k)
            && r.inodes == d.inodes && r.used == d.used && r.data == d.data
  {
    var k1, keep := Append(k, f, taken), |k.ch[f]|;
    CutAppend(d, k, f, taken);
    ReleasedOk(e, k1, f, keep);
    ReleasedSpec(e, k1, f, keep);
    var r := Released(e, k1, f, keep);
    UsedFromBook(d, r, k);
    assert Linked(d, k, f);
    forall g | 0 <= g < |k.ch| ensures r.inodes[g] == d.inodes[g] {
      if g != f {
        assert FileOf(r, k, g).node == FileOf(e, k1, g).node == FileOf(d, k, g).node;
      } else {
        assert k1.ch[f][..keep] == k.ch[f];
      }
    }
    assert r.inodes == d.inodes;
  }
}
