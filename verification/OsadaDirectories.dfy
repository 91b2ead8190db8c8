/** Operations that meant a file and met a directory, whose first block is block 0: when they leave
    everyone else's files, the reserved blocks and the bitmap as they were. */
module OsadaDirectories {
  import opened OsadaDisk
  import opened OsadaChains
  import opened OsadaContent
  import opened OsadaThreads

  // ---------------------------------------------------------------- unlink

  /** Every block on the walk from cell `c`, cut as it goes, is unused. */
  predicate Unused(d: Disk, c: Cell, fuel: nat)
    requires |d.used| == |d.next|
    decreases fuel
  {
    fuel == 0 || !CellOk(d, c) || Get(d, c) >= |d.used|
    || (!d.used[Get(d, c)] && Unused(DropOne(d, c, Get(d, c)), Link(Get(d, c)), fuel - 1))
  }

  lemma {:induction false} ReleaseUnused(d: Disk, c: Cell, fuel: nat)
    requires |d.used| == |d.next| && Unused(d, c, fuel) && (c.Link? ==> c.b < |d.used| && !d.used[c.b])
    ensures var e := ReleaseFrom(d, c, fuel);
            && e.used == d.used && e.data == d.data && |e.next| == |d.next| && |e.inodes| == |d.inodes|
            && (forall b :: 0 <= b < |d.used| && d.used[b] ==> e.next[b] == d.next[b])
            && forall g :: 0 <= g < |d.inodes| && c != Head(g) ==> e.inodes[g] == d.inodes[g]
    decreases fuel
  {
    if fuel > 0 && CellOk(d, c) && Get(d, c) < |d.used| {
      var b := Get(d, c);
      assert d.used[b := false] == d.used;
      ReleaseUnused(DropOne(d, c, b), Link(b), fuel - 1);
    }
  }

  lemma {:induction false} ReleaseUsed(d: Disk, c: Cell, fuel: nat) returns (b: nat)
    requires |d.used| == |d.next| && !Unused(d, c, fuel)
    ensures b < |d.used| && d.used[b] && |ReleaseFrom(d, c, fuel).used| == |d.used|
    ensures !ReleaseFrom(d, c, fuel).used[b]
    decreases fuel
  {
    var x := Get(d, c);
    if d.used[x] {
      b := x;
      ReleaseClears(DropOne(d, c, x), Link(x), fuel - 1, b);
    } else {
      b := ReleaseUsed(DropOne(d, c, x), Link(x), fuel - 1);
    }
  }

  lemma {:induction false} ReleaseClears(d: Disk, c: Cell, fuel: nat, b: nat)
    requires |d.used| == |d.next| && b < |d.used| && !d.used[b]
    ensures |ReleaseFrom(d, c, fuel).used| == |d.used| && !ReleaseFrom(d, c, fuel).used[b]
    decreases fuel
  {
    if fuel > 0 && CellOk(d, c) && Get(d, c) < |d.used| {
      ReleaseClears(DropOne(d, c, Get(d, c)), Link(Get(d, c)), fuel - 1, b);
    }
  }

  /** A book for the released volume that keeps all files and reserved blocks keeps every bit. */
  lemma KeptBooksKeepBits(d: Disk, k: Book, f: nat, e: Disk, k': Book, b: nat)
    requires Wf(d, k) && f < |k.ch| && k.ch[f] == [] && OnlyFile(d, k, f, e, k') && b < |d.used| && d.used[b]
    ensures e.used[b]
  {
    assert Accounted(d, k, b) && Accounted(e, k', b);
    if k.owner[b].In? {
      var o := k.owner[b];
      assert o.f != f && FileOf(e, k', o.f).chain == FileOf(d, k, o.f).chain && Linked(e, k', o.f);
      assert k'.ch[o.f][o.i] == b;
    } else {
      assert b in ReservedSet(k) && b in ReservedSet(k');
    }
  }

  lemma UnusedKeepsBooks(d: Disk, k: Book, f: nat)
    requires Wf(d, k) && f < |k.ch| && d.inodes[f].state.DIRECTORY? && Unused(d, Head(f), |d.next|)
    ensures OnlyFile(d, k, f, ReleaseAll(d, Head(f)), k)
  {
    var e := ReleaseAll(d, Head(f));
    ReleaseUnused(d, Head(f), |d.next|);
    ReleaseKind(d, f, |d.next|);
    assert Linked(d, k, f);
    forall g | 0 <= g < |k.ch| ensures Linked(e, k, g) {
      assert Linked(d, k, g);
      forall i | 0 <= i < |k.ch[g]| ensures e.next[k.ch[g][i]] == At(k.ch[g], i + 1) {
        assert Accounted(d, k, k.ch[g][i]);
      }
    }
    forall b | 0 <= b < |d.used| ensures Accounted(e, k, b) {
      assert Accounted(d, k, b);
    }
  }

  lemma ReleaseKind(d: Disk, f: nat, fuel: nat)
    requires |d.used| == |d.next| && f < |d.inodes|
    ensures |ReleaseFrom(d, Head(f), fuel).inodes| == |d.inodes|
    ensures ReleaseFrom(d, Head(f), fuel).inodes[f].state == d.inodes[f].state
  {
    if fuel > 0 && d.inodes[f].first < |d.used| {
      ReleaseLinkInodes(DropOne(d, Head(f), d.inodes[f].first), d.inodes[f].first, fuel - 1);
    }
  }

  lemma {:induction false} ReleaseLinkInodes(d: Disk, b: nat, fuel: nat)
    requires |d.used| == |d.next|
    ensures ReleaseFrom(d, Link(b), fuel).inodes == d.inodes
    decreases fuel
  {
    if fuel > 0 && b < |d.next| && d.next[b] < |d.used| {
      ReleaseLinkInodes(DropOne(d, Link(b), d.next[b]), d.next[b], fuel - 1);
    }
  }

  /** An unlink that found a directory keeps everyone else's files, and the bitmap exact, exactly
      when no block on the walk from the directory's first block, which is block 0, is in use. */
  lemma UnlinkDirectoryIff(d: Disk, k: Book, f: nat)
    requires Wf(d, k) && f < |k.ch| && d.inodes[f].state.DIRECTORY?
    ensures (exists k' :: OnlyFile(d, k, f, ReleaseAll(d, Head(f)), k')) <==> Unused(d, Head(f), |d.next|)
  {
    assert Linked(d, k, f);
    if Unused(d, Head(f), |d.next|) {
      UnusedKeepsBooks(d, k, f);
    } else {
      var b := ReleaseUsed(d, Head(f), |d.next|);
      forall k' ensures !OnlyFile(d, k, f, ReleaseAll(d, Head(f)), k') {
        if OnlyFile(d, k, f, ReleaseAll(d, Head(f)), k') {
          KeptBooksKeepBits(d, k, f, ReleaseAll(d, Head(f)), k', b);
        }
      }
    }
  }

  // ---------------------------------------------------------------- the scan on a path

  /** The scan takes free blocks only, sets bits only, and leaves the inodes and the links of used
      blocks alone, but for the tail it starts from. */
  lemma {:induction false} GrowBits(d: Disk, b: nat, need: int, unit: nat, j: nat)
    requires b < |d.next| == |d.used| && j <= |d.used|
    ensures var g := Grow(d, Link(b), need, unit, j).disk;
            && |g.used| == |d.used| == |g.next| && g.inodes == d.inodes && g.data == d.data
            && (forall x :: 0 <= x < |d.used| && d.used[x] ==> g.used[x])
            && forall x :: 0 <= x < |d.used| && d.used[x] && x != b ==> g.next[x] == d.next[x]
    decreases |d.used| - j
  {
    if need > 0 && j < |d.used| {
      if d.used[j] {
        GrowBits(d, b, need, unit, j + 1);
      } else {
        GrowBits(Take(d, Link(b), j), j, need - unit, unit, j + 1);
      }
    }
  }

  /** A scan that finds what it needs has taken a block. */
  lemma {:induction false} GrowTakes(d: Disk, b: nat, need: int, unit: nat, j: nat) returns (x: nat)
    requires b < |d.next| == |d.used| && j <= |d.used| && need > 0 && Grow(d, Link(b), need, unit, j).stop < |d.used|
    ensures x < |d.used| && !d.used[x] && Grow(d, Link(b), need, unit, j).disk.used[x]
    decreases |d.used| - j
  {
    if d.used[j] {
      x := GrowTakes(d, b, need, unit, j + 1);
    } else {
      x := j;
      GrowBits(Take(d, Link(b), j), j, need - unit, unit, j + 1);
    }
  }

  /** A release sets no bit, and every link it ends is that of a block it frees. */
  lemma {:induction false} ReleaseLinks(d: Disk, c: Cell, fuel: nat, x: nat)
    requires |d.used| == |d.next| && x < |d.used| && c != Link(x)
    ensures var e := ReleaseFrom(d, c, fuel);
            |e.used| == |d.used| == |e.next| && (e.used[x] ==> e.next[x] == d.next[x])
    decreases fuel
  {
    if fuel > 0 && CellOk(d, c) && Get(d, c) < |d.used| {
      var b := Get(d, c);
      if b == x {
        ReleaseClears(DropOne(d, c, b), Link(b), fuel - 1, x);
        ReleaseShape(DropOne(d, c, b), Link(b), fuel - 1);
      } else {
        ReleaseLinks(DropOne(d, c, b), Link(b), fuel - 1, x);
      }
    }
  }

  lemma {:induction false} ReleaseShape(d: Disk, c: Cell, fuel: nat)
    requires |d.used| == |d.next|
    ensures var e := ReleaseFrom(d, c, fuel);
            |e.used| == |d.used| == |e.next| && |e.inodes| == |d.inodes| && e.data == d.data
    decreases fuel
  {
    if fuel > 0 && CellOk(d, c) && Get(d, c) < |d.used| {
      ReleaseShape(DropOne(d, c, Get(d, c)), Link(Get(d, c)), fuel - 1);
    }
  }

  // ---------------------------------------------------------------- the directory as a file

  /** Inode `f` in another state. */
  function As(d: Disk, f: nat, state: FileState): Disk
    requires f < |d.inodes|
  {
    d.(inodes := d.inodes[f := d.inodes[f].(state := state)])
  }

  /** Neither the scan nor the release looks at it. */
  lemma {:induction false} GrowAs(d: Disk, f: nat, st: FileState, b: nat, need: int, unit: nat, j: nat)
    requires f < |d.inodes| && b < |d.next| == |d.used| && j <= |d.used|
    ensures var g := Grow(d, Link(b), need, unit, j).disk;
            |g.inodes| == |d.inodes| && Grow(As(d, f, st), Link(b), need, unit, j).disk == As(g, f, st)
    decreases |d.used| - j
  {
    if need > 0 && j < |d.used| {
      if d.used[j] {
        GrowAs(d, f, st, b, need, unit, j + 1);
      } else {
        GrowAs(Take(d, Link(b), j), f, st, j, need - unit, unit, j + 1);
      }
    }
  }

  lemma {:induction false} ReleaseAs(d: Disk, f: nat, st: FileState, c: Cell, fuel: nat)
    requires f < |d.inodes| && |d.used| == |d.next|
    ensures var e := ReleaseFrom(d, c, fuel);
            |e.inodes| == |d.inodes| && ReleaseFrom(As(d, f, st), c, fuel) == As(e, f, st)
    decreases fuel
  {
    if fuel > 0 && CellOk(d, c) && Get(d, c) < |d.used| {
      var b := Get(d, c);
      assert Get(As(d, f, st), c) == b;
      assert DropOne(As(d, f, st), c, b) == As(DropOne(d, c, b), f, st);
      ReleaseAs(DropOne(d, c, b), f, st, Link(b), fuel - 1);
    }
  }

  // ---------------------------------------------------------------- growing

  /** What an operation sets a file's inode to, and what its scan has to find, in steps of `unit`. */
  datatype Extension = Extension(size: nat, lastmod: int, need: int, unit: nat)

  function Stamped(d: Disk, f: nat, x: Extension): Disk
    requires f < |d.inodes|
  {
    SetNode(d, f, x.size, x.lastmod)
  }

  /** What it leaves of a directory whose walk is `bs`, but for the data: nothing to do but the inode,
      or a scan from the walk's last block, rolled back to the directory's own size of nothing. */
  function Extended(d: Disk, f: nat, bs: seq<nat>, x: Extension): (Disk, Answer)
    requires |d.used| == |d.next| && f < |d.inodes| && bs != [] && bs[|bs| - 1] < |d.next|
  {
    if x.need <= 0 then (Stamped(d, f, x), SEXE)
    else
      var g := Grow(Stamped(d, f, x), Link(bs[|bs| - 1]), x.need, x.unit, 0);
      if g.stop < |d.used| then (g.disk, SEXE)
      else (if f < |g.disk.inodes| then ReleaseAll(SetSize(g.disk, f, 0), Head(f)) else g.disk, ENOSPC)
  }

  /** A directory as mkdir makes it, and the walk from its first block. */
  ghost predicate Walks(d: Disk, k: Book, f: nat, bs: seq<nat>) {
    && Wf(d, k) && f < |k.ch| && d.inodes[f].state.DIRECTORY? && d.inodes[f].size == 0 && d.inodes[f].first == 0
    && Follows(d, Head(f), bs)
  }

  lemma WalkEnds(d: Disk, k: Book, f: nat, bs: seq<nat>)
    requires Walks(d, k, f, bs)
    ensures bs != [] && bs[0] == 0 && bs[|bs| - 1] < |d.next| == |d.used| && k.ch[f] == []
    ensures d.next[bs[|bs| - 1]] == END_OF_FILE
  {
    assert Linked(d, k, f);
  }

  /** Nothing has to be found, or there are too few free blocks for it, block 0 is one of them, and
      the last block of the walk is in no file. */
  ghost predicate ExtendHarmless(d: Disk, k: Book, bs: seq<nat>, x: Extension)
    requires Shape(d, k) && bs != [] && bs[|bs| - 1] < |d.next| && x.unit > 0
  {
    || x.need <= 0
    || (Wanted(x.need, x.unit) > FreeIn(d.used, 0, |d.used| - 1) && !d.used[0] && !k.owner[bs[|bs| - 1]].In?)
  }

  /** Books that keep all files and reserved blocks set no bit either. */
  lemma KeptBooksSetNoBits(d: Disk, k: Book, f: nat, e: Disk, k': Book, b: nat)
    requires Wf(d, k) && f < |k.ch| && OnlyFile(d, k, f, e, k') && k'.ch[f] == [] && b < |e.used| && e.used[b]
    ensures d.used[b]
  {
    assert Accounted(d, k, b) && Accounted(e, k', b);
    if k'.owner[b].In? {
      var o := k'.owner[b];
      assert o.f != f && FileOf(e, k', o.f).chain == FileOf(d, k, o.f).chain && Linked(d, k, o.f);
      assert k.ch[o.f][o.i] == b;
    } else {
      assert b in ReservedSet(k') && b in ReservedSet(k);
    }
  }

  /** They keep the links of the files' blocks. */
  lemma KeptBooksKeepLinks(d: Disk, k: Book, f: nat, e: Disk, k': Book, b: nat)
    requires Wf(d, k) && f < |k.ch| && k.ch[f] == [] && OnlyFile(d, k, f, e, k') && b < |k.owner| && k.owner[b].In?
    ensures b < |e.next| && e.next[b] == d.next[b]
  {
    var o := k.owner[b];
    assert Accounted(d, k, b);
    assert FileOf(e, k', o.f).chain == FileOf(d, k, o.f).chain;
    assert Linked(d, k, o.f) && Linked(e, k', o.f);
  }

  /** Success with more blocks: some bit is set that was not. */
  lemma ExtendTakes(d: Disk, k: Book, f: nat, bs: seq<nat>, x: Extension) returns (b: nat)
    requires Walks(d, k, f, bs) && bs != [] && bs[|bs| - 1] < |d.next| && x.unit > 0 && x.need > 0
    requires Wanted(x.need, x.unit) <= FreeIn(d.used, 0, |d.used| - 1)
    ensures var e := Extended(d, f, bs, x).0;
            b < |d.used| == |e.used| && !d.used[b] && e.used[b] && f < |e.inodes| && e.inodes[f].state == DIRECTORY
  {
    var d1, l, need := Stamped(d, f, x), bs[|bs| - 1], x.need;
    GrowStop(d1, Link(l), need, x.unit, 0);
    b := GrowTakes(d1, l, need, x.unit, 0);
    GrowBits(d1, l, need, x.unit, 0);
  }

  /** And no file has it. */
  lemma ExtendGrows(d: Disk, k: Book, f: nat, bs: seq<nat>, x: Extension, k': Book)
    requires Walks(d, k, f, bs) && bs != [] && bs[|bs| - 1] < |d.next| && x.unit > 0 && x.need > 0
    requires Wanted(x.need, x.unit) <= FreeIn(d.used, 0, |d.used| - 1)
    ensures !OnlyFile(d, k, f, Extended(d, f, bs, x).0, k')
  {
    var b := ExtendTakes(d, k, f, bs, x);
    var e := Extended(d, f, bs, x).0;
    if OnlyFile(d, k, f, e, k') {
      assert Linked(e, k', f);
      KeptBooksSetNoBits(d, k, f, e, k', b);
    }
  }

  /** The state from which an operation that found too little releases, and where it starts. */
  lemma ExtendFails(d: Disk, k: Book, f: nat, bs: seq<nat>, x: Extension) returns (g: Disk)
    requires Walks(d, k, f, bs) && bs != [] && bs[|bs| - 1] < |d.next| && x.unit > 0
    requires Wanted(x.need, x.unit) > FreeIn(d.used, 0, |d.used| - 1)
    ensures g == Grow(Stamped(d, f, x), Link(bs[|bs| - 1]), x.need, x.unit, 0).disk
    ensures |g.used| == |d.used| == |g.next| && g.data == d.data && g.inodes == Stamped(d, f, x).inodes
    ensures forall b :: 0 <= b < |d.used| && d.used[b] ==> g.used[b]
    ensures Extended(d, f, bs, x) == (ReleaseFrom(SetSize(g, f, 0), Head(f), |d.next|), ENOSPC)
  {
    var d1, l, need := Stamped(d, f, x), bs[|bs| - 1], x.need;
    GrowStop(d1, Link(l), need, x.unit, 0);
    GrowBits(d1, l, need, x.unit, 0);
    g := Grow(d1, Link(l), need, x.unit, 0).disk;
  }

  /** With block 0 in use the rollback frees it. */
  lemma ExtendFreesZero(d: Disk, k: Book, f: nat, bs: seq<nat>, x: Extension, k': Book)
    requires Walks(d, k, f, bs) && bs != [] && bs[|bs| - 1] < |d.next| && x.unit > 0 && d.used[0]
    requires Wanted(x.need, x.unit) > FreeIn(d.used, 0, |d.used| - 1)
    ensures !OnlyFile(d, k, f, Extended(d, f, bs, x).0, k')
  {
    var g := ExtendFails(d, k, f, bs, x);
    var g0 := SetSize(g, f, 0);
    ReleaseClears(DropOne(g0, Head(f), 0), Link(0), |d.next| - 1, 0);
    WalkEnds(d, k, f, bs);
    if OnlyFile(d, k, f, Extended(d, f, bs, x).0, k') {
      KeptBooksKeepBits(d, k, f, Extended(d, f, bs, x).0, k', 0);
    }
  }

  /** With the walk's last block in a file, the link of that block stays changed. */
  lemma ExtendRelinks(d: Disk, k: Book, f: nat, bs: seq<nat>, x: Extension, k': Book)
    requires Walks(d, k, f, bs) && bs != [] && bs[|bs| - 1] < |d.next| && x.unit > 0
    requires !d.used[0] && k.owner[bs[|bs| - 1]].In?
    requires Wanted(x.need, x.unit) > FreeIn(d.used, 0, |d.used| - 1)
    ensures !OnlyFile(d, k, f, Extended(d, f, bs, x).0, k')
  {
    var g := ExtendFails(d, k, f, bs, x);
    var l := bs[|bs| - 1];
    WalkEnds(d, k, f, bs);
    assert Accounted(d, k, l);
    GrowBits(Take(Stamped(d, f, x), Link(l), 0), 0, x.need - x.unit, x.unit, 1);
    assert g.next[l] == 0;
    ReleaseLinks(SetSize(g, f, 0), Head(f), |d.next|, l);
    var e := Extended(d, f, bs, x).0;
    if OnlyFile(d, k, f, e, k') {
      KeptBooksKeepBits(d, k, f, e, k', l);
      KeptBooksKeepLinks(d, k, f, e, k', l);
    }
  }

  /** The directory as a file of one block: what the scan's first block makes of it when block 0 is
      free and the walk's last block in no file. */
  lemma AsOneBlockFile(d: Disk, k: Book, f: nat, l: nat, x: Extension)
    requires Wf(d, k) && f < |k.ch| && d.inodes[f].state.DIRECTORY? && d.inodes[f].first == 0
    requires !d.used[0] && l < |d.next| && !k.owner[l].In?
    ensures k.ch[f] == [] && 0 < |d.used| == |d.next|
    ensures OnlyFile(d, k, f, As(Take(Stamped(d, f, x), Link(l), 0), f, REGULAR), Append1(k, f, 0))
  {
    var d1, k1 := As(Take(Stamped(d, f, x), Link(l), 0), f, REGULAR), Append1(k, f, 0);
    assert Linked(d, k, f) && Accounted(d, k, 0);
    forall g | 0 <= g < |k1.ch| ensures Linked(d1, k1, g) {
      assert Linked(d, k, g);
      forall i | 0 <= i < |k.ch[g]| ensures k.ch[g][i] != 0 && k.ch[g][i] != l {
        assert k.owner[k.ch[g][i]] == In(g, i);
      }
    }
    forall b | 0 <= b < |d1.used| ensures Accounted(d1, k1, b) {
      assert Accounted(d, k, b);
    }
    assert forall b :: 0 <= b < |k.owner| ==> (k1.owner[b] == Reserved <==> k.owner[b] == Reserved);
  }

  /** From there on it is a file that grows and is cut back to nothing. */
  lemma GrownAndCut(d1: Disk, k1: Book, f: nat, need: int, unit: nat) returns (r: Disk, rest: seq<nat>)
    requires Wf(d1, k1) && f < |k1.ch| && k1.ch[f] == [0] && d1.inodes[f].state.REGULAR? && unit > 0
    ensures var g := Grow(d1, Link(0), need, unit, 1).disk;
            |g.used| == |g.next| == |d1.next| && f < |g.inodes|
            && r == ReleaseFrom(SetSize(g, f, 0), Head(f), |d1.next|)
    ensures forall i :: 0 <= i < |rest| ==> rest[i] < |d1.used| && !d1.used[rest[i]]
    ensures OnlyFile(d1, k1, f, r, Cut(Append(k1, f, rest), f, 0))
  {
    ChainCell(d1, k1, f, 1);
    assert Linked(d1, k1, f);
    rest := GrowSpec(d1, k1, f, need, unit, 1);
    var g, k2 := Grow(d1, Link(0), need, unit, 1).disk, Append(k1, f, rest);
    GrownOnly(d1, k1, f, rest, g);
    SetSizeOnly(g, k2, f, 0, g.inodes[f].lastmod);
    var g0 := SetSize(g, f, 0);
    ReleaseFromSpec(g0, k2, f, 0);
    CutOnly(g0, k2, f, 0);
    r := Released(g0, k2, f, 0);
    OnlyFileTrans(d1, k1, f, g, k2, g0, k2);
    OnlyFileTrans(d1, k1, f, g0, k2, r, Cut(k2, f, 0));
  }

  /** What a failed one leaves, with the directory seen as a file from its first block on. */
  lemma RestoredDisk(d: Disk, k: Book, f: nat, bs: seq<nat>, x: Extension) returns (g: Disk)
    requires Walks(d, k, f, bs) && bs != [] && bs[|bs| - 1] < |d.next| && x.unit > 0 && !d.used[0]
    requires Wanted(x.need, x.unit) > FreeIn(d.used, 0, |d.used| - 1)
    ensures 0 < |d.used| == |d.next| && x.need > 0
    ensures var d1 := As(Take(Stamped(d, f, x), Link(bs[|bs| - 1]), 0), f, REGULAR);
            g == Grow(d1, Link(0), x.need - x.unit, x.unit, 1).disk
    ensures |g.used| == |g.next| == |d.next| && f < |g.inodes|
    ensures var e := Extended(d, f, bs, x).0;
            && f < |e.inodes| && e.inodes[f].state == DIRECTORY
            && ReleaseFrom(SetSize(g, f, 0), Head(f), |d.next|) == As(e, f, REGULAR)
  {
    var h := ExtendFails(d, k, f, bs, x);
    var d0 := Take(Stamped(d, f, x), Link(bs[|bs| - 1]), 0);
    assert h == Grow(d0, Link(0), x.need - x.unit, x.unit, 1).disk;
    GrowAs(d0, f, REGULAR, 0, x.need - x.unit, x.unit, 1);
    g := As(h, f, REGULAR);
    assert SetSize(g, f, 0) == As(SetSize(h, f, 0), f, REGULAR);
    ReleaseAs(SetSize(h, f, 0), f, REGULAR, Head(f), |d.next|);
    ReleaseKind(SetSize(h, f, 0), f, |d.next|);
  }

  /** It is that file cut to nothing. */
  lemma RestoredAs(d: Disk, k: Book, f: nat, bs: seq<nat>, x: Extension) returns (r: Disk, rest: seq<nat>)
    requires Walks(d, k, f, bs) && bs != [] && bs[|bs| - 1] < |d.next| && x.unit > 0
    requires !d.used[0] && !k.owner[bs[|bs| - 1]].In?
    requires Wanted(x.need, x.unit) > FreeIn(d.used, 0, |d.used| - 1)
    ensures var e := Extended(d, f, bs, x).0;
            f < |e.inodes| && e.inodes[f].state == DIRECTORY && r == As(e, f, REGULAR)
    ensures forall i :: 0 <= i < |rest| ==> rest[i] < |d.used| && !d.used[rest[i]]
    ensures 0 < |k.owner| && OnlyFile(d, k, f, r, Cut(Append(Append1(k, f, 0), f, rest), f, 0))
  {
    var g := RestoredDisk(d, k, f, bs, x);
    AsOneBlockFile(d, k, f, bs[|bs| - 1], x);
    var d1, k1 := As(Take(Stamped(d, f, x), Link(bs[|bs| - 1]), 0), f, REGULAR), Append1(k, f, 0);
    r, rest := GrownAndCut(d1, k1, f, x.need - x.unit, x.unit);
    OnlyFileTrans(d, k, f, d1, k1, r, Cut(Append(k1, f, rest), f, 0));
  }

  /** Its books are those of before. */
  lemma SameBooks(d: Disk, k: Book, f: nat, rest: seq<nat>)
    requires Wf(d, k) && f < |k.ch| && k.ch[f] == [] && 0 < |d.used| && !d.used[0]
    requires forall i :: 0 <= i < |rest| ==> rest[i] < |d.used| && !d.used[rest[i]]
    ensures Cut(Append(Append1(k, f, 0), f, rest), f, 0) == k
  {
    var bs := [0] + rest;
    assert bs[0] == 0 && bs[1..] == rest;
    CutAppend(d, k, f, bs);
  }

  /** Otherwise an operation that found too little leaves everything as it was. */
  lemma ExtendRestores(d: Disk, k: Book, f: nat, bs: seq<nat>, x: Extension)
    requires Walks(d, k, f, bs) && bs != [] && bs[|bs| - 1] < |d.next| && x.unit > 0
    requires !d.used[0] && !k.owner[bs[|bs| - 1]].In?
    requires Wanted(x.need, x.unit) > FreeIn(d.used, 0, |d.used| - 1)
    ensures OnlyFile(d, k, f, Extended(d, f, bs, x).0, k)
  {
    WalkEnds(d, k, f, bs);
    var e := Extended(d, f, bs, x).0;
    var r, rest := RestoredAs(d, k, f, bs, x);
    SameBooks(d, k, f, rest);
    StateWf(r, k, f, e.inodes[f]);
    assert e.inodes == r.inodes[f := e.inodes[f]] && e == r.(inodes := r.inodes[f := e.inodes[f]]);
    OnlyFileTrans(d, k, f, r, k, e, k);
  }

  lemma ExtendHarms(d: Disk, k: Book, f: nat, bs: seq<nat>, x: Extension, k': Book)
    requires Walks(d, k, f, bs) && bs != [] && bs[|bs| - 1] < |d.next| && x.unit > 0 && !ExtendHarmless(d, k, bs, x)
    ensures !OnlyFile(d, k, f, Extended(d, f, bs, x).0, k')
  {
    if Wanted(x.need, x.unit) <= FreeIn(d.used, 0, |d.used| - 1) {
      ExtendGrows(d, k, f, bs, x, k');
    } else if d.used[0] {
      ExtendFreesZero(d, k, f, bs, x, k');
    } else {
      ExtendRelinks(d, k, f, bs, x, k');
    }
  }

  /** Extending a directory keeps all files, the reserved blocks and the bitmap exactly under that
      condition. */
  lemma ExtendIff(d: Disk, k: Book, f: nat, bs: seq<nat>, x: Extension)
    requires Walks(d, k, f, bs) && x.unit > 0
    ensures bs != [] && bs[|bs| - 1] < |d.next| == |d.used|
    ensures (exists k' :: OnlyFile(d, k, f, Extended(d, f, bs, x).0, k')) <==> ExtendHarmless(d, k, bs, x)
    ensures ExtendHarmless(d, k, bs, x) ==> OnlyFile(d, k, f, Extended(d, f, bs, x).0, k)
  {
    WalkEnds(d, k, f, bs);
    var e := Extended(d, f, bs, x).0;
    if ExtendHarmless(d, k, bs, x) {
      if x.need <= 0 {
        SetSizeOnly(d, k, f, x.size, x.lastmod);
      } else {
        ExtendRestores(d, k, f, bs, x);
      }
      assert OnlyFile(d, k, f, e, k);
    } else {
      forall k' ensures !OnlyFile(d, k, f, e, k') {
        ExtendHarms(d, k, f, bs, x, k');
      }
    }
  }

  // ---------------------------------------------------------------- truncate

  /** A truncate to `n` counts the walk and scans for what is missing, block by block. */
  function Truncation(d: Disk, f: nat, bs: seq<nat>, n: nat): Extension
    requires f < |d.inodes|
  {
    Extension(n, d.inodes[f].lastmod, Blocks(n) - |bs|, 1)
  }

  /** A truncate that met a directory keeps all files, the reserved blocks and the bitmap exactly
      when the new size needs no block the walk does not have, or there are too few free blocks,
      block 0 is one of them, and the last block of the walk is in no file. */
  lemma TruncateDirectoryIff(d: Disk, k: Book, f: nat, bs: seq<nat>, n: nat)
    requires Walks(d, k, f, bs)
    ensures bs != [] && bs[|bs| - 1] < |d.next| == |d.used|
    ensures (exists k' :: OnlyFile(d, k, f, Extended(d, f, bs, Truncation(d, f, bs, n)).0, k'))
            <==> Blocks(n) <= |bs|
                 || (Blocks(n) - |bs| > FreeIn(d.used, 0, |d.used| - 1)
                     && !d.used[0] && !k.owner[bs[|bs| - 1]].In?)
  {
    ExtendIff(d, k, f, bs, Truncation(d, f, bs, n));
    WantedOnes(Blocks(n) - |bs|);
  }

  // ---------------------------------------------------------------- the thread that does it

  /** A thread run alone for `m` steps. */
  function Alone(d: Disk, th: Thread, m: nat): (Disk, Pc)
    decreases m
  {
    if m == 0 || |d.used| != |d.next| || th.f >= |d.inodes| then (d, th.pc)
    else Alone(Step(d, th).0, th.(pc := Step(d, th).1), m - 1)
  }

  lemma {:induction false} AloneMore(d: Disk, th: Thread, m: nat, n: nat)
    ensures Alone(d, th, m + n) == Alone(Alone(d, th, m).0, th.(pc := Alone(d, th, m).1), n)
    decreases m
  {
    if m > 0 && |d.used| == |d.next| && th.f < |d.inodes| {
      AloneMore(Step(d, th).0, th.(pc := Step(d, th).1), m - 1, n);
    }
  }

  lemma AloneOnce(d: Disk, th: Thread)
    requires |d.used| == |d.next| && th.f < |d.inodes|
    ensures Alone(d, th, 1) == Step(d, th)
  {
  }

  /** It counts its way along the walk. */
  lemma {:induction false} CountsAlone(d: Disk, th: Thread, bs: seq<nat>, i: nat)
    requires |d.used| == |d.next| < END_OF_FILE && th.f < |d.inodes| && th.op.Truncating?
    requires Follows(d, Head(th.f), bs) && i <= |bs| && th.pc == TWalk(CellAt(th.f, bs, i), i)
    ensures Alone(d, th, |bs| - i + 1) == (d, CountStep(d, th, CellAt(th.f, bs, |bs|), |bs|))
    decreases |bs| - i
  {
    AloneOnce(d, th);
    if i < |bs| {
      assert Get(d, CellAt(th.f, bs, i)) == bs[i];
      CountsAlone(d, th.(pc := TWalk(Link(bs[i]), i + 1)), bs, i + 1);
      AloneMore(d, th, 1, |bs| - i);
    }
  }

  lemma AloneTwice(d: Disk, th: Thread, e: Disk, pc: Pc)
    requires |d.used| == |d.next| && th.f < |d.inodes| && Step(d, th) == (e, pc)
    requires |e.used| == |e.next| && th.f < |e.inodes|
    ensures Alone(d, th, 2) == Step(e, th.(pc := pc))
  {
    AloneOnce(d, th);
    AloneOnce(e, th.(pc := pc));
    AloneMore(d, th, 1, 1);
  }

  /** The scan of a truncate on a directory, the test that follows it, and the rollback. */
  lemma ScansThen(d: Disk, th: Thread, l: nat, need: nat, g: GrowResult)
    requires |d.used| == |d.next| && th.f < |d.inodes| && th.size0 == 0 && l < |d.next| && th.pc == TScan(Link(l), need)
    requires g == Grow(d, Link(l), need, 1, 0) && th.f < |g.disk.inodes| && |g.disk.used| == |g.disk.next|
    ensures Alone(d, th, 2) == if g.stop < |d.used| then (g.disk, Finished(SEXE))
                               else (ReleaseAll(SetSize(g.disk, th.f, 0), Head(th.f)), Finished(ENOSPC))
  {
    if g.stop < |d.used| {
      AloneTwice(d, th, g.disk, Finished(SEXE));
    } else {
      AloneTwice(d, th, SetSize(g.disk, th.f, 0), Undo(Head(th.f), 0));
    }
  }

  /** From the end of the count a truncate takes two steps at most. */
  lemma ScansAlone(d: Disk, th: Thread, bs: seq<nat>, n: nat)
    requires |d.used| == |d.next| && th.f < |d.inodes| && th.size0 == 0 && bs != [] && bs[|bs| - 1] < |d.next|
    requires Blocks(n) > |bs| && th.pc == TScan(Link(bs[|bs| - 1]), Blocks(n) - |bs|) && SetSize(d, th.f, n) == d
    ensures var (e, r) := Extended(d, th.f, bs, Truncation(d, th.f, bs, n)); Alone(d, th, 2) == (e, Finished(r))
  {
    var l, need := bs[|bs| - 1], Blocks(n) - |bs|;
    GrowBits(d, l, need, 1, 0);
    ScansThen(d, th, l, need, Grow(d, Link(l), need, 1, 0));
  }

  lemma StampedTwice(d: Disk, f: nat, a: nat, b: nat, lm: int)
    requires f < |d.inodes|
    ensures SetNode(SetNode(d, f, a, lm), f, b, lm) == SetNode(d, f, b, lm)
  {
    var n := d.inodes[f].(size := b, lastmod := lm);
    assert d.inodes[f := d.inodes[f].(size := a, lastmod := lm)][f := n] == d.inodes[f := n];
  }

  /** Up to the end of the count. */
  lemma TruncateCounts(d: Disk, k: Book, th: Thread, bs: seq<nat>, n: nat)
    requires Walks(d, k, th.f, bs) && th.op == Truncating(n) && n > 0 && th.size0 == 0 && th.pc.Start?
    requires bs != [] && bs[|bs| - 1] < |d.next| == |d.used|
    ensures Alone(d, th, |bs| + 2)
            == (SetSize(d, th.f, n),
                if Blocks(n) > |bs| then TScan(Link(bs[|bs| - 1]), Blocks(n) - |bs|) else Finished(SEXE))
  {
    AloneOnce(d, th);
    CountsAlone(SetSize(d, th.f, n), th.(pc := TWalk(Head(th.f), 0)), bs, 0);
    AloneMore(d, th, 1, |bs| + 1);
  }

  /** A truncate of the model's threads, run alone on a directory, leaves what `Extended` says. */
  lemma TruncateAlone(d: Disk, k: Book, th: Thread, bs: seq<nat>, n: nat) returns (m: nat)
    requires Walks(d, k, th.f, bs) && th.op == Truncating(n) && th.size0 == 0 && th.pc.Start?
    ensures bs != [] && bs[|bs| - 1] < |d.next| == |d.used|
    ensures var (e, r) := Extended(d, th.f, bs, Truncation(d, th.f, bs, n)); Alone(d, th, m) == (e, Finished(r))
  {
    WalkEnds(d, k, th.f, bs);
    if n == 0 {
      AloneOnce(d, th);
      m := 1;
    } else {
      TruncateCounts(d, k, th, bs, n);
      m := |bs| + 2;
      if Blocks(n) > |bs| {
        var d1 := SetSize(d, th.f, n);
        StampedTwice(d, th.f, n, n, d.inodes[th.f].lastmod);
        ScansAlone(d1, th.(pc := TScan(Link(bs[|bs| - 1]), Blocks(n) - |bs|)), bs, n);
        AloneMore(d, th, |bs| + 2, 2);
        m := |bs| + 4;
      }
    }
  }
}
