/** Path resolution over the locked file table while other threads change it: which slot a path
    leads to, which locks the thread holds on the way, and that it holds none when it is done. */
module OsadaPaths {
  import opened OsadaDisk

  datatype Slot = Slot(kind: FileState, fname: string, parent: nat)

  datatype Mode = LOCK_READ | LOCK_WRITE

  const ROOT: nat := 0xffff

  datatype Found = Found(pos: nat) | ENOENT | ENOTDIR

  /** The file table at the moment of each lock the thread takes.  Other threads may change any
      slot between two moments, but for those the thread holds. */
  type World = seq<seq<Slot>>

  function Look(w: World, at: nat, pos: nat): Slot {
    if at < |w| && pos < |w[at]| then w[at][pos] else Slot(DELETED, "", ROOT)
  }

  predicate Matches(x: Slot, name: string, parent: nat) {
    !x.kind.DELETED? && x.fname == name && x.parent == parent
  }

  // ---------------------------------------------------------------- what a search sees

  /** The moment reached when a search begun at `at` has passed the first `i` slots, all but the
      parent's own. */
  function Passed(at: nat, parent: nat, i: nat): nat {
    at + i - (if parent < i then 1 else 0)
  }

  /** The table as a search finds it: every slot at its own moment. */
  function Seen(w: World, at: nat, parent: nat, size: nat): (t: seq<Slot>)
    ensures |t| == size && forall i :: 0 <= i < size ==> t[i] == Look(w, Passed(at, parent, i + 1), i)
  {
    seq(size, i requires 0 <= i => Look(w, Passed(at, parent, i + 1), i))
  }

  /** The first slot from `i` on, other than the parent's own, with that name in that parent. */
  function Child(t: seq<Slot>, name: string, parent: nat, i: nat): (r: nat)
    requires i <= |t|
    ensures i <= r <= |t| && (r < |t| ==> r != parent && Matches(t[r], name, parent))
    ensures forall j :: i <= j < r && j != parent ==> !Matches(t[j], name, parent)
    decreases |t| - i
  {
    if i == |t| || (i != parent && Matches(t[i], name, parent)) then i else Child(t, name, parent, i + 1)
  }

  /** What one search finds, and when it ends. */
  datatype Sight = Sight(pos: nat, kind: FileState, at: nat)

  function Search(w: World, at: nat, size: nat, name: string, parent: nat): (s: Sight)
    ensures s.pos <= size && (s.pos < size ==> !s.kind.DELETED?)
  {
    var t := Seen(w, at, parent, size);
    var c := Child(t, name, parent, 0);
    if c < size then Sight(c, t[c].kind, Passed(at, parent, c + 1)) else Sight(size, DELETED, Passed(at, parent, size))
  }

  // ---------------------------------------------------------------- where a path leads

  /** Name by name; what kind the last slot is. */
  datatype Target = At(pos: nat, kind: FileState) | Missing

  function Walk(w: World, at: nat, size: nat, parent: nat, kind: FileState, names: seq<string>): Target
    decreases |names|
  {
    if names == [] then Target.At(parent, kind)
    else
      var s := Search(w, at, size, names[0], parent);
      if s.pos == size then Missing else Walk(w, s.at, size, s.pos, s.kind, names[1..])
  }

  /** The same through directories only. */
  function WalkDirs(w: World, at: nat, size: nat, parent: nat, names: seq<string>): Target
    decreases |names|
  {
    if names == [] then Target.At(parent, DIRECTORY)
    else
      var s := Search(w, at, size, names[0], parent);
      if s.pos < size && s.kind.DIRECTORY? then WalkDirs(w, s.at, size, s.pos, names[1..]) else Missing
  }

  /** How write, truncate and unlink look for their file: a first search of each name for a
      directory, and a second one for the last name when the first finds none.  `Stray` is a path
      whose last name the first search took for a directory. */
  datatype Lookup = File(pos: nat, kind: FileState) | NoFile | Stray(pos: nat)

  function WalkFile(w: World, at: nat, size: nat, parent: nat, names: seq<string>): Lookup
    decreases |names|
  {
    if names == [] then Stray(parent)
    else
      var s := Search(w, at, size, names[0], parent);
      if s.pos < size && s.kind.DIRECTORY? then WalkFile(w, s.at, size, s.pos, names[1..])
      else if |names| > 1 then NoFile
      else
        var again := Search(w, s.at, size, names[0], parent);
        if again.pos < size then File(again.pos, again.kind) else NoFile
  }

  /** The names in a directory, in slot order. */
  function Names(t: seq<Slot>, parent: nat): seq<string> {
    if t == [] then []
    else
      var n := |t| - 1;
      Names(t[..n], parent) + if IsChild(t, n, parent) then [t[n].fname] else []
  }

  predicate IsChild(t: seq<Slot>, i: nat, parent: nat)
    requires i < |t|
  {
    i != parent && !t[i].kind.DELETED? && t[i].parent == parent
  }

  lemma NamesMore(t: seq<Slot>, i: nat, parent: nat)
    requires i < |t|
    ensures Names(t[..i + 1], parent) == Names(t[..i], parent) + if IsChild(t, i, parent) then [t[i].fname] else []
  {
    assert t[..i + 1][..i] == t[..i];
  }

  /** A lookup ends on a directory and no file exactly when every name of the path, each at its
      moment, is a directory's: when readdir would find one there. */
  lemma {:induction false} StrayIff(w: World, at: nat, size: nat, parent: nat, names: seq<string>)
    ensures WalkFile(w, at, size, parent, names).Stray? <==> WalkDirs(w, at, size, parent, names).At?
    ensures WalkFile(w, at, size, parent, names).Stray? ==>
              WalkDirs(w, at, size, parent, names).pos == WalkFile(w, at, size, parent, names).pos
    decreases |names|
  {
    if names != [] {
      var s := Search(w, at, size, names[0], parent);
      if s.pos < size && s.kind.DIRECTORY? {
        StrayIff(w, s.at, size, s.pos, names[1..]);
      }
    }
  }

  // ---------------------------------------------------------------- what a path means

  /** The moment slot `j` is looked at, by a search below `parent` begun at `at`: one lock after the
      other, none for the parent. */
  function Moment(at: nat, parent: nat, j: nat): nat {
    if parent < j then at + j else at + j + 1
  }

  /** Slot `p` is the first, other than the parent's own, that has the name, is in the parent and is
      not deleted, each slot seen at its moment; `end` is that of slot `p`. */
  ghost predicate Hop(w: World, at: nat, size: nat, name: string, parent: nat, p: nat, end: nat) {
    && p < size && p != parent && end == Moment(at, parent, p)
    && Look(w, end, p).kind != DELETED && Look(w, end, p).fname == name && Look(w, end, p).parent == parent
    && forall j :: 0 <= j < p && j != parent ==> NotIt(Look(w, Moment(at, parent, j), j), name, parent)
  }

  ghost predicate NotIt(x: Slot, name: string, parent: nat) {
    x.kind == DELETED || x.fname != name || x.parent != parent
  }

  /** No slot is. */
  ghost predicate NoHop(w: World, at: nat, size: nat, name: string, parent: nat, end: nat) {
    && end == (if parent < size then at + size - 1 else at + size)
    && forall j :: 0 <= j < size && j != parent ==> NotIt(Look(w, Moment(at, parent, j), j), name, parent)
  }

  /** One slot for each name, each found below the one before, from the moment that one was found. */
  ghost predicate Trail(w: World, at: nat, size: nat, parent: nat, names: seq<string>, ps: seq<nat>, ats: seq<nat>) {
    && |ps| == |names| && |ats| == |names| + 1 && ats[0] == at
    && forall i :: 0 <= i < |names| ==>
         Hop(w, ats[i], size, names[i], if i == 0 then parent else ps[i - 1], ps[i], ats[i + 1])
  }

  /** The path leads to slot `p`, of kind `kind` when found there. */
  ghost predicate Leads(w: World, at: nat, size: nat, names: seq<string>, p: nat, kind: FileState) {
    exists ps: seq<nat>, ats: seq<nat> ::
      Trail(w, at, size, ROOT, names, ps, ats) && names != [] && ps[|names| - 1] == p
      && Look(w, ats[|names|], p).kind == kind
  }

  /** The node found is the one the path leads to, and there is none exactly when it leads nowhere. */
  ghost predicate IsWhereItLeads(w: World, at: nat, size: nat, names: seq<string>, r: Found) {
    && (forall p :: r == Found(p) <==> exists kind :: Leads(w, at, size, names, p, kind))
    && (r == ENOENT <==> forall p, kind :: !Leads(w, at, size, names, p, kind))
  }

  /** The path leads through directories only, to directory `p` at moment `end`. */
  ghost predicate LeadsToDir(w: World, at: nat, size: nat, parent: nat, names: seq<string>, p: nat, end: nat) {
    exists ps: seq<nat>, ats: seq<nat> ::
      Trail(w, at, size, parent, names, ps, ats) && ats[|names|] == end
      && p == (if names == [] then parent else ps[|names| - 1])
      && forall i :: 0 <= i < |names| ==> Look(w, ats[i + 1], ps[i]).kind == DIRECTORY
  }

  /** A search for a directory that ends without one. */
  ghost predicate NoDir(w: World, at: nat, size: nat, name: string, parent: nat, end: nat) {
    || NoHop(w, at, size, name, parent, end)
    || exists c :: Hop(w, at, size, name, parent, c, end) && Look(w, end, c).kind != DIRECTORY
  }

  /** A search for a directory that ends without one, then a second search that ends on slot `p`. */
  ghost predicate EndsOnFile(w: World, at: nat, size: nat, name: string, dir: nat, p: nat, kind: FileState) {
    exists mid, end ::
      NoDir(w, at, size, name, dir, mid) && Hop(w, mid, size, name, dir, p, end) && Look(w, end, p).kind == kind
  }

  /** Directories up to the last name, then those two searches for it. */
  ghost predicate LeadsToFile(w: World, at: nat, size: nat, parent: nat, names: seq<string>, p: nat, kind: FileState) {
    names != [] && LeadsBelow(w, at, size, parent, names[..|names| - 1], names[|names| - 1], p, kind)
  }

  ghost predicate LeadsBelow(
    w: World, at: nat, size: nat, parent: nat, dirs: seq<string>, last: string, p: nat, kind: FileState)
  {
    exists dir, end :: LeadsToDir(w, at, size, parent, dirs, dir, end) && EndsOnFile(w, end, size, last, dir, p, kind)
  }

  lemma SearchIs(w: World, at: nat, size: nat, name: string, parent: nat)
    ensures var s := Search(w, at, size, name, parent);
            if s.pos < size then Hop(w, at, size, name, parent, s.pos, s.at) && s.kind == Look(w, s.at, s.pos).kind
            else NoHop(w, at, size, name, parent, s.at)
  {
    var t := Seen(w, at, parent, size);
    var c := Child(t, name, parent, 0);
    forall j | 0 <= j < size && j != parent ensures t[j] == Look(w, Moment(at, parent, j), j) {
    }
    forall j | 0 <= j < c && j != parent ensures NotIt(Look(w, Moment(at, parent, j), j), name, parent) {
      assert !Matches(t[j], name, parent);
    }
  }

  /** There is no other. */
  lemma HopIsSearch(w: World, at: nat, size: nat, name: string, parent: nat, p: nat, end: nat)
    requires Hop(w, at, size, name, parent, p, end)
    ensures Search(w, at, size, name, parent) == Sight(p, Look(w, end, p).kind, end)
  {
    SearchIs(w, at, size, name, parent);
    var s := Search(w, at, size, name, parent);
    assert s.pos < size && s.pos < p ==> NotIt(Look(w, Moment(at, parent, s.pos), s.pos), name, parent);
    assert p < s.pos ==> NotIt(Look(w, Moment(at, parent, p), p), name, parent);
  }

  lemma NoHopIsSearch(w: World, at: nat, size: nat, name: string, parent: nat, end: nat)
    requires NoHop(w, at, size, name, parent, end)
    ensures Search(w, at, size, name, parent) == Sight(size, DELETED, end)
  {
    SearchIs(w, at, size, name, parent);
    var s := Search(w, at, size, name, parent);
    assert s.pos < size ==> NotIt(Look(w, Moment(at, parent, s.pos), s.pos), name, parent);
  }

  lemma TrailTail(w: World, at: nat, size: nat, parent: nat, names: seq<string>, ps: seq<nat>, ats: seq<nat>)
    requires Trail(w, at, size, parent, names, ps, ats) && names != []
    ensures Hop(w, at, size, names[0], parent, ps[0], ats[1])
    ensures Trail(w, ats[1], size, ps[0], names[1..], ps[1..], ats[1..])
  {
    var ns, qs, bs := names[1..], ps[1..], ats[1..];
    forall i | 0 <= i < |ns| ensures Hop(w, bs[i], size, ns[i], if i == 0 then ps[0] else qs[i - 1], qs[i], bs[i + 1]) {
      assert Hop(w, ats[i + 1], size, names[i + 1], ps[i], ps[i + 1], ats[i + 2]);
    }
  }

  lemma TrailCons(w: World, at: nat, size: nat, parent: nat, names: seq<string>, p: nat, ps: seq<nat>, ats: seq<nat>)
    requires names != [] && ats != [] && Hop(w, at, size, names[0], parent, p, ats[0])
    requires Trail(w, ats[0], size, p, names[1..], ps, ats)
    ensures Trail(w, at, size, parent, names, [p] + ps, [at] + ats)
  {
    var qs, bs := [p] + ps, [at] + ats;
    forall i | 0 <= i < |names|
      ensures Hop(w, bs[i], size, names[i], if i == 0 then parent else qs[i - 1], qs[i], bs[i + 1])
    {
      if i > 0 {
        assert Hop(w, ats[i - 1], size, names[1..][i - 1], if i == 1 then p else ps[i - 2], ps[i - 1], ats[i]);
      }
    }
  }

  /** A path is walked along a trail. */
  lemma {:induction false} WalkFindsTrail(
    w: World, at: nat, size: nat, parent: nat, kind: FileState, names: seq<string>)
    returns (ps: seq<nat>, ats: seq<nat>)
    requires Walk(w, at, size, parent, kind, names).At?
    ensures Trail(w, at, size, parent, names, ps, ats)
    ensures Walk(w, at, size, parent, kind, names)
            == if names == [] then Target.At(parent, kind)
               else Target.At(ps[|names| - 1], Look(w, ats[|names|], ps[|names| - 1]).kind)
    decreases |names|
  {
    if names == [] {
      ps, ats := [], [at];
    } else {
      var s := Search(w, at, size, names[0], parent);
      SearchIs(w, at, size, names[0], parent);
      ps, ats := WalkFindsTrail(w, s.at, size, s.pos, s.kind, names[1..]);
      TrailCons(w, at, size, parent, names, s.pos, ps, ats);
      ps, ats := [s.pos] + ps, [at] + ats;
    }
  }

  lemma {:induction false} TrailIsWalked(
    w: World, at: nat, size: nat, parent: nat, kind: FileState, names: seq<string>, ps: seq<nat>, ats: seq<nat>)
    requires Trail(w, at, size, parent, names, ps, ats)
    ensures Walk(w, at, size, parent, kind, names)
            == if names == [] then Target.At(parent, kind)
               else Target.At(ps[|names| - 1], Look(w, ats[|names|], ps[|names| - 1]).kind)
    decreases |names|
  {
    if names != [] {
      TrailTail(w, at, size, parent, names, ps, ats);
      HopIsSearch(w, at, size, names[0], parent, ps[0], ats[1]);
      TrailIsWalked(w, ats[1], size, ps[0], Look(w, ats[1], ps[0]).kind, names[1..], ps[1..], ats[1..]);
    }
  }

  /** Getattr and read find the slot the path leads to, and none exactly when it leads nowhere. */
  lemma WalkIff(w: World, at: nat, size: nat, names: seq<string>)
    requires names != []
    ensures forall p, kind :: Walk(w, at, size, ROOT, DIRECTORY, names) == Target.At(p, kind)
                              <==> Leads(w, at, size, names, p, kind)
    ensures Walk(w, at, size, ROOT, DIRECTORY, names) == Missing
            <==> forall p, kind :: !Leads(w, at, size, names, p, kind)
  {
    var r := Walk(w, at, size, ROOT, DIRECTORY, names);
    if r.At? {
      var ps, ats := WalkFindsTrail(w, at, size, ROOT, DIRECTORY, names);
      assert Leads(w, at, size, names, r.pos, r.kind);
    }
    forall p, kind | Leads(w, at, size, names, p, kind) ensures r == Target.At(p, kind) {
      var ps: seq<nat>, ats: seq<nat> :|
        Trail(w, at, size, ROOT, names, ps, ats) && names != [] && ps[|names| - 1] == p
        && Look(w, ats[|names|], p).kind == kind;
      TrailIsWalked(w, at, size, ROOT, DIRECTORY, names, ps, ats);
    }
  }

  lemma NodeIsWhereItLeads(w: World, at: nat, size: nat, names: seq<string>)
    requires names != []
    ensures var target := Walk(w, at, size, ROOT, DIRECTORY, names);
            IsWhereItLeads(w, at, size, names, if target.At? then Found(target.pos) else ENOENT)
  {
    WalkIff(w, at, size, names);
    var target := Walk(w, at, size, ROOT, DIRECTORY, names);
    if target.At? {
      assert Leads(w, at, size, names, target.pos, target.kind);
    }
  }

  // ---------------------------------------------------------------- paths through directories

  lemma DirTail(w: World, at: nat, size: nat, parent: nat, names: seq<string>, p: nat, end: nat)
    returns (c: nat, mid: nat)
    requires LeadsToDir(w, at, size, parent, names, p, end) && names != []
    ensures Hop(w, at, size, names[0], parent, c, mid) && Look(w, mid, c).kind == DIRECTORY
    ensures LeadsToDir(w, mid, size, c, names[1..], p, end)
  {
    var ps: seq<nat>, ats: seq<nat> :|
      Trail(w, at, size, parent, names, ps, ats) && ats[|names|] == end
      && p == (if names == [] then parent else ps[|names| - 1])
      && forall i :: 0 <= i < |names| ==> Look(w, ats[i + 1], ps[i]).kind == DIRECTORY;
    TrailTail(w, at, size, parent, names, ps, ats);
    c, mid := ps[0], ats[1];
    assert Look(w, ats[0 + 1], ps[0]).kind == DIRECTORY;
    var qs, bs := ps[1..], ats[1..];
    forall i | 0 <= i < |names[1..]| ensures Look(w, bs[i + 1], qs[i]).kind == DIRECTORY {
      assert Look(w, ats[i + 1 + 1], ps[i + 1]).kind == DIRECTORY;
    }
    assert Trail(w, mid, size, c, names[1..], qs, bs) && bs[|names[1..]|] == end;
  }

  lemma DirCons(w: World, at: nat, size: nat, parent: nat, names: seq<string>, c: nat, mid: nat, p: nat, end: nat)
    requires names != [] && Hop(w, at, size, names[0], parent, c, mid) && Look(w, mid, c).kind == DIRECTORY
    requires LeadsToDir(w, mid, size, c, names[1..], p, end)
    ensures LeadsToDir(w, at, size, parent, names, p, end)
  {
    var ns := names[1..];
    var ps: seq<nat>, ats: seq<nat> :|
      Trail(w, mid, size, c, ns, ps, ats) && ats[|ns|] == end
      && p == (if ns == [] then c else ps[|ns| - 1])
      && forall i :: 0 <= i < |ns| ==> Look(w, ats[i + 1], ps[i]).kind == DIRECTORY;
    TrailCons(w, at, size, parent, names, c, ps, ats);
    var qs, bs := [c] + ps, [at] + ats;
    forall i | 0 <= i < |names| ensures Look(w, bs[i + 1], qs[i]).kind == DIRECTORY {
      if i > 0 {
        assert Look(w, ats[i - 1 + 1], ps[i - 1]).kind == DIRECTORY;
      }
    }
    assert Trail(w, at, size, parent, names, qs, bs) && bs[|names|] == end;
  }

  lemma DirHere(w: World, at: nat, size: nat, parent: nat, p: nat, end: nat)
    ensures LeadsToDir(w, at, size, parent, [], p, end) <==> p == parent && end == at
  {
    if p == parent && end == at {
      assert Trail(w, at, size, parent, [], [], [at]);
    }
  }

  /** Readdir and rmdir find the directory that a path through directories leads to. */
  lemma {:induction false} WalkDirsFinds(w: World, at: nat, size: nat, parent: nat, names: seq<string>)
    returns (end: nat)
    requires WalkDirs(w, at, size, parent, names).At?
    ensures LeadsToDir(w, at, size, parent, names, WalkDirs(w, at, size, parent, names).pos, end)
    ensures WalkDirs(w, at, size, parent, names).kind == DIRECTORY
    decreases |names|
  {
    if names == [] {
      end := at;
      DirHere(w, at, size, parent, parent, at);
    } else {
      var s := Search(w, at, size, names[0], parent);
      SearchIs(w, at, size, names[0], parent);
      end := WalkDirsFinds(w, s.at, size, s.pos, names[1..]);
      DirCons(w, at, size, parent, names, s.pos, s.at, WalkDirs(w, at, size, parent, names).pos, end);
    }
  }

  lemma {:induction false} DirIsWalked(w: World, at: nat, size: nat, parent: nat, names: seq<string>, p: nat, end: nat)
    requires LeadsToDir(w, at, size, parent, names, p, end)
    ensures WalkDirs(w, at, size, parent, names) == Target.At(p, DIRECTORY)
    decreases |names|
  {
    if names == [] {
      DirHere(w, at, size, parent, p, end);
    } else {
      var c, mid := DirTail(w, at, size, parent, names, p, end);
      HopIsSearch(w, at, size, names[0], parent, c, mid);
      DirIsWalked(w, mid, size, c, names[1..], p, end);
    }
  }

  lemma WalkDirsIff(w: World, at: nat, size: nat, names: seq<string>)
    ensures forall p :: WalkDirs(w, at, size, ROOT, names) == Target.At(p, DIRECTORY)
                        <==> exists end :: LeadsToDir(w, at, size, ROOT, names, p, end)
    ensures WalkDirs(w, at, size, ROOT, names) == Missing
            <==> forall p, end :: !LeadsToDir(w, at, size, ROOT, names, p, end)
  {
    var r := WalkDirs(w, at, size, ROOT, names);
    if r.At? {
      var end := WalkDirsFinds(w, at, size, ROOT, names);
    }
    forall p, end | LeadsToDir(w, at, size, ROOT, names, p, end) ensures r == Target.At(p, DIRECTORY) {
      DirIsWalked(w, at, size, ROOT, names, p, end);
    }
  }

  // ---------------------------------------------------------------- paths to files

  lemma NoDirIs(w: World, at: nat, size: nat, name: string, parent: nat)
    ensures var s := Search(w, at, size, name, parent);
            forall end :: NoDir(w, at, size, name, parent, end)
                          <==> end == s.at && (s.pos == size || s.kind != DIRECTORY)
  {
    var s := Search(w, at, size, name, parent);
    SearchIs(w, at, size, name, parent);
    forall end | NoDir(w, at, size, name, parent, end) ensures end == s.at && (s.pos == size || s.kind != DIRECTORY) {
      if NoHop(w, at, size, name, parent, end) {
        NoHopIsSearch(w, at, size, name, parent, end);
      } else {
        var c :| Hop(w, at, size, name, parent, c, end) && Look(w, end, c).kind != DIRECTORY;
        HopIsSearch(w, at, size, name, parent, c, end);
      }
    }
  }

  lemma EndsOnFileIs(w: World, at: nat, size: nat, name: string, dir: nat)
    ensures var s := Search(w, at, size, name, dir);
            var again := Search(w, s.at, size, name, dir);
            forall p, kind :: EndsOnFile(w, at, size, name, dir, p, kind)
                              <==> (s.pos == size || s.kind != DIRECTORY)
                                   && again.pos < size && p == again.pos && kind == again.kind
  {
    var s := Search(w, at, size, name, dir);
    var again := Search(w, s.at, size, name, dir);
    NoDirIs(w, at, size, name, dir);
    SearchIs(w, s.at, size, name, dir);
    forall p, kind | EndsOnFile(w, at, size, name, dir, p, kind)
      ensures again.pos < size && p == again.pos && kind == again.kind
    {
      var mid, end :|
        NoDir(w, at, size, name, dir, mid) && Hop(w, mid, size, name, dir, p, end) && Look(w, end, p).kind == kind;
      HopIsSearch(w, mid, size, name, dir, p, end);
    }
    if (s.pos == size || s.kind != DIRECTORY) && again.pos < size {
      assert NoDir(w, at, size, name, dir, s.at);
    }
  }

  lemma FileCons(
    w: World, at: nat, size: nat, parent: nat, names: seq<string>, c: nat, mid: nat, p: nat, kind: FileState)
    requires names != [] && Hop(w, at, size, names[0], parent, c, mid) && Look(w, mid, c).kind == DIRECTORY
    requires LeadsToFile(w, mid, size, c, names[1..], p, kind)
    ensures LeadsToFile(w, at, size, parent, names, p, kind)
  {
    var ns := names[1..];
    var dir, end :|
      LeadsToDir(w, mid, size, c, ns[..|ns| - 1], dir, end) && EndsOnFile(w, end, size, ns[|ns| - 1], dir, p, kind);
    assert names[..|names| - 1][1..] == ns[..|ns| - 1];
    DirCons(w, at, size, parent, names[..|names| - 1], c, mid, dir, end);
  }

  lemma {:induction false} WalkFileFinds(w: World, at: nat, size: nat, parent: nat, names: seq<string>)
    requires WalkFile(w, at, size, parent, names).File?
    ensures var r := WalkFile(w, at, size, parent, names); LeadsToFile(w, at, size, parent, names, r.pos, r.kind)
    decreases |names|
  {
    var s, r := Search(w, at, size, names[0], parent), WalkFile(w, at, size, parent, names);
    if s.pos < size && s.kind.DIRECTORY? {
      SearchIs(w, at, size, names[0], parent);
      WalkFileFinds(w, s.at, size, s.pos, names[1..]);
      FileCons(w, at, size, parent, names, s.pos, s.at, r.pos, r.kind);
    } else {
      EndsOnFileIs(w, at, size, names[0], parent);
      DirHere(w, at, size, parent, parent, at);
      assert names[..|names| - 1] == [];
      assert EndsOnFile(w, at, size, names[|names| - 1], parent, r.pos, r.kind);
    }
  }

  lemma {:induction false} FileIsWalked(
    w: World, at: nat, size: nat, parent: nat, names: seq<string>, p: nat, kind: FileState)
    requires LeadsToFile(w, at, size, parent, names, p, kind)
    ensures WalkFile(w, at, size, parent, names) == File(p, kind)
    decreases |names|
  {
    var n := |names| - 1;
    var dir, end :|
      LeadsToDir(w, at, size, parent, names[..n], dir, end) && EndsOnFile(w, end, size, names[n], dir, p, kind);
    if n == 0 {
      assert names[..n] == [];
      DirHere(w, at, size, parent, dir, end);
      EndsOnFileIs(w, at, size, names[0], parent);
    } else {
      var c, mid := DirTail(w, at, size, parent, names[..n], dir, end);
      HopIsSearch(w, at, size, names[0], parent, c, mid);
      var ns := names[1..];
      assert names[..n][1..] == ns[..|ns| - 1];
      FileIsWalked(w, mid, size, c, ns, p, kind);
    }
  }

  /** Write, truncate and unlink find the slot that directories and two searches lead to, a stray
      directory where directories alone do, and nothing otherwise. */
  lemma WalkFileIff(w: World, at: nat, size: nat, names: seq<string>)
    ensures forall p, kind :: WalkFile(w, at, size, ROOT, names) == File(p, kind)
                              <==> LeadsToFile(w, at, size, ROOT, names, p, kind)
    ensures forall p :: WalkFile(w, at, size, ROOT, names) == Stray(p)
                        <==> exists end :: LeadsToDir(w, at, size, ROOT, names, p, end)
  {
    var r := WalkFile(w, at, size, ROOT, names);
    if r.File? {
      WalkFileFinds(w, at, size, ROOT, names);
    }
    forall p, kind | LeadsToFile(w, at, size, ROOT, names, p, kind) ensures r == File(p, kind) {
      FileIsWalked(w, at, size, ROOT, names, p, kind);
    }
    StrayIff(w, at, size, ROOT, names);
    if r.Stray? {
      var end := WalkDirsFinds(w, at, size, ROOT, names);
      assert LeadsToDir(w, at, size, ROOT, names, r.pos, end);
    }
    forall p, end | LeadsToDir(w, at, size, ROOT, names, p, end) ensures r == Stray(p) {
      DirIsWalked(w, at, size, ROOT, names, p, end);
    }
  }

  /** The positions of the children, in the order of the slots, with their names; no other slot of
      the table is in the directory. */
  ghost predicate ListsAll(t: seq<Slot>, parent: nat, list: seq<string>, pos: seq<nat>) {
    && |pos| == |list|
    && (forall a, b :: 0 <= a < b < |pos| ==> pos[a] < pos[b])
    && (forall a :: 0 <= a < |pos| ==>
          pos[a] < |t| && pos[a] != parent && t[pos[a]].kind != DELETED && t[pos[a]].parent == parent
          && list[a] == t[pos[a]].fname)
    && (forall i :: 0 <= i < |t| && i != parent && i !in pos ==> t[i].kind == DELETED || t[i].parent != parent)
  }

  lemma ListsMore(t: seq<Slot>, x: Slot, parent: nat, list: seq<string>, pos: seq<nat>)
    requires ListsAll(t, parent, list, pos)
    ensures if IsChild(t + [x], |t|, parent) then ListsAll(t + [x], parent, list + [x.fname], pos + [|t|])
            else ListsAll(t + [x], parent, list, pos)
  {
    if IsChild(t + [x], |t|, parent) {
      assert (pos + [|t|])[|pos|] == |t|;
      forall i | 0 <= i < |t| + 1 && i != parent && i !in pos + [|t|]
        ensures (t + [x])[i].kind == DELETED || (t + [x])[i].parent != parent
      {
        assert i !in pos;
      }
    }
  }

  /** A listing has the name of every child, in the order of the slots, and nothing else. */
  lemma {:induction false} NamesAreChildren(t: seq<Slot>, parent: nat) returns (pos: seq<nat>)
    ensures ListsAll(t, parent, Names(t, parent), pos)
  {
    if t == [] {
      pos := [];
    } else {
      var n := |t| - 1;
      pos := NamesAreChildren(t[..n], parent);
      assert t == t[..n] + [t[n]];
      ListsMore(t[..n], t[n], parent, Names(t[..n], parent), pos);
      if IsChild(t, n, parent) {
        pos := pos + [n];
      }
    }
  }

  // ---------------------------------------------------------------- a table nobody changes

  ghost predicate Still(w: World, size: nat, t: seq<Slot>) {
    |t| == size && forall n: nat, i: nat :: i < size ==> Look(w, n, i) == t[i]
  }

  lemma StillSearch(w: World, at: nat, size: nat, t: seq<Slot>, name: string, parent: nat)
    requires Still(w, size, t)
    ensures Search(w, at, size, name, parent).pos == Child(t, name, parent, 0)
    ensures var s := Search(w, at, size, name, parent); s.pos < size ==> s.kind == t[s.pos].kind
  {
    assert Seen(w, at, parent, size) == t;
  }

  /** In a table nobody changes the two searches agree: whatever write, truncate and unlink end
      up holding as their file is a regular one. */
  lemma {:induction false} StillFileIsRegular(
    w: World, at: nat, size: nat, t: seq<Slot>, parent: nat, names: seq<string>)
    requires Still(w, size, t)
    ensures var r := WalkFile(w, at, size, parent, names); r.File? ==> r.kind.REGULAR?
    decreases |names|
  {
    if names != [] {
      var s := Search(w, at, size, names[0], parent);
      StillSearch(w, at, size, t, names[0], parent);
      StillSearch(w, s.at, size, t, names[0], parent);
      StillFileIsRegular(w, s.at, size, t, s.pos, names[1..]);
    }
  }

  /** When others change it they need not: here the name is missing for the first search, and a
      directory for the second, so the operation holds a directory as its file. */
  lemma DirectoryAsFile()
    ensures var none, dir := [Slot(DELETED, "d", ROOT)], [Slot(DIRECTORY, "d", ROOT)];
            WalkFile([none, none, dir], 0, 1, ROOT, ["d"]) == File(0, DIRECTORY)
  {
    var w := [[Slot(DELETED, "d", ROOT)], [Slot(DELETED, "d", ROOT)], [Slot(DIRECTORY, "d", ROOT)]];
    assert Seen(w, 0, ROOT, 1) == w[1] && Seen(w, 1, ROOT, 1) == w[2];
    assert Search(w, 0, 1, "d", ROOT) == Sight(1, DELETED, 1);
    assert Search(w, 1, 1, "d", ROOT) == Sight(0, DIRECTORY, 2);
  }

  /** A path to a directory: the smallest one that leaves its lock behind. */
  lemma StrayDirectory()
    ensures var dir := [Slot(DIRECTORY, "d", ROOT)]; WalkFile([dir, dir], 0, 1, ROOT, ["d"]) == Stray(0)
  {
    var w := [[Slot(DIRECTORY, "d", ROOT)], [Slot(DIRECTORY, "d", ROOT)]];
    assert Seen(w, 0, ROOT, 1) == w[1];
    assert Search(w, 0, 1, "d", ROOT) == Sight(0, DIRECTORY, 1);
    assert ["d"][1..] == [];
  }

  // ---------------------------------------------------------------- one thread

  /** A client thread: how many locks it has taken, those it holds, and the most it ever held. */
  class Session {
    const world: World
    const size: nat
    var now: nat
    var held: map<nat, Mode>
    var peak: nat

    constructor (world: World, size: nat)
      requires size <= ROOT
      ensures this.world == world && this.size == size && Idle() && now == 0
    {
      this.world, this.size, now, held, peak := world, size, 0, map[], 0;
    }

    /** Between two operations: nothing is held, and never more than two locks were. */
    predicate Idle()
      reads this
    {
      size <= ROOT && held == map[] && peak <= 2
    }

    /** Taking a lock twice in one thread would block it for ever: the callers never do. */
    method Lock(pos: nat, mode: Mode) returns (x: Slot)
      requires pos !in held && pos < size
      modifies this
      ensures now == old(now) + 1 && x == Look(world, now, pos)
      ensures held == old(held)[pos := mode] && held - {pos} == old(held) && |held| == |old(held)| + 1
      ensures peak == if old(peak) < |held| then |held| else old(peak)
    {
      now := now + 1;
      held := held[pos := mode];
      if peak < |held| {
        peak := |held|;
      }
      assert held - {pos} == old(held);
      x := Look(world, now, pos);
    }

    method Unlock(pos: nat)
      requires pos in held
      modifies this`held
      ensures held == old(held) - {pos}
    {
      held := held - {pos};
    }

    /** The lock on a parent, which the root does not have. */
    ghost function Parent(pb: nat): map<nat, Mode> {
      if pb == ROOT then map[] else map[pb := LOCK_READ]
    }

    ghost predicate Holding(pb: nat)
      reads this
    {
      size <= ROOT && (pb == ROOT || pb < size) && held == Parent(pb) && peak <= 2
    }

    /** What a search leaves held: the slot it found besides the parent, or nothing new. */
    ghost predicate Holds(pb: nat, r: Found, mode: Mode)
      reads this
    {
      && size <= ROOT && peak <= 2
      && if r.Found? then
           r.pos < size && r.pos != pb && r.pos in held && (pb == ROOT || pb in held)
           && (if pb == ROOT then held else held - {pb}) == map[r.pos := mode] && held - {r.pos} == Parent(pb)
         else held == Parent(pb)
    }

    method UnlockParent(pb: nat, r: Found, mode: Mode)
      requires Holds(pb, r, mode) && (pb == ROOT || pb < size)
      modifies this`held
      ensures held == if r.Found? then map[r.pos := mode] else map[]
    {
      if pb != ROOT {
        Unlock(pb);
      }
    }

    /** Locks one slot; it stays locked if it matches. */
    method TrySlot(name: string, pb: nat, i: nat, mode: Mode) returns (hit: bool, x: Slot)
      requires Holding(pb) && i < size && i != pb
      modifies this
      ensures now == old(now) + 1 && x == Look(world, now, i)
      ensures hit == Matches(x, name, pb) && Holds(pb, if hit then Found(i) else ENOENT, mode)
    {
      x := Lock(i, mode);
      hit := Matches(x, name, pb);
      if hit {
        assert pb != ROOT ==> held - {pb} == map[i := mode];
      } else {
        Unlock(i);
      }
    }

    /** Locks slot after slot until one matches; returns holding that slot besides the parent, or
        nothing new. */
    method SearchNode(name: string, pb: nat, mode: Mode) returns (r: Found, kind: FileState)
      requires Holding(pb)
      modifies this
      ensures var s := Search(world, old(now), size, name, pb);
              && r == (if s.pos < size then Found(s.pos) else ENOENT) && kind == s.kind && now == s.at
      ensures Holds(pb, r, mode)
    {
      ghost var t := Seen(world, now, pb, size);
      var i := 0;
      while i < size
        invariant i <= size && held == Parent(pb) && peak <= 2 && now == Passed(old(now), pb, i)
        invariant Child(t, name, pb, 0) == Child(t, name, pb, i)
      {
        if i != pb {
          var hit, x := TrySlot(name, pb, i, mode);
          if hit {
            return Found(i), x.kind;
          }
        }
        i := i + 1;
      }
      r, kind := ENOENT, DELETED;
    }

    method SearchDir(name: string, pb: nat, mode: Mode) returns (r: Found)
      requires Holding(pb)
      modifies this
      ensures var s := Search(world, old(now), size, name, pb);
              && r == (if s.pos < size && s.kind.DIRECTORY? then Found(s.pos) else ENOTDIR) && now == s.at
      ensures Holds(pb, r, mode)
    {
      var kind: FileState;
      r, kind := SearchNode(name, pb, mode);
      if r.ENOENT? {
        return ENOTDIR;
      }
      if !kind.DIRECTORY? {
        Unlock(r.pos);
        assert held == Parent(pb);
        r := ENOTDIR;
      }
    }

    // -------------------------------------------------------------- resolution

    /** Resolution in getattr and read: ends holding exactly the node found, or nothing. */
    method ResolveNode(names: seq<string>) returns (r: Found, ghost target: Target)
      requires Idle() && names != []
      modifies this
      ensures target == Walk(world, old(now), size, ROOT, DIRECTORY, names)
      ensures r == if target.At? then Found(target.pos) else ENOENT
      ensures IsWhereItLeads(world, old(now), size, names, r)
      ensures size <= ROOT && held == (if r.Found? then map[r.pos := LOCK_READ] else map[]) && peak <= 2
    {
      var pb, kind, i := ROOT, DIRECTORY, 0;
      target := Walk(world, now, size, ROOT, DIRECTORY, names);
      NodeIsWhereItLeads(world, now, size, names);
      while i < |names|
        invariant i <= |names| && 0 <= pb && Holding(pb) && (i > 0 ==> pb < size)
        invariant target == Walk(world, now, size, pb, kind, names[i..])
      {
        assert names[i..][1..] == names[i + 1..];
        r, kind := SearchNode(names[i], pb, LOCK_READ);
        UnlockParent(pb, r, LOCK_READ);
        if r.ENOENT? {
          return ENOENT, target;
        }
        pb := r.pos;
        assert held == Parent(pb);
        i := i + 1;
      }
      r := Found(pb);
    }

    /** Resolution in readdir and rmdir: every name has to be a directory, and the last one is
        locked in the mode asked for. */
    method ResolveDir(names: seq<string>, last: Mode) returns (r: Found)
      requires Idle() && names != []
      modifies this
      ensures var target := WalkDirs(world, old(now), size, ROOT, names);
              r == if target.At? then Found(target.pos) else ENOTDIR
      ensures size <= ROOT && held == (if r.Found? then map[r.pos := last] else map[]) && peak <= 2
      ensures r.Found? ==> r.pos < size
    {
      var pb, i := ROOT, 0;
      ghost var target := WalkDirs(world, now, size, ROOT, names);
      while i < |names| - 1
        invariant i <= |names| - 1 && 0 <= pb && Holding(pb)
        invariant target == WalkDirs(world, now, size, pb, names[i..])
      {
        assert names[i..][1..] == names[i + 1..];
        r := SearchDir(names[i], pb, LOCK_READ);
        UnlockParent(pb, r, LOCK_READ);
        if r.ENOTDIR? {
          return ENOTDIR;
        }
        pb := r.pos;
        assert held == Parent(pb);
        i := i + 1;
      }
      assert names[i..][1..] == [];
      r := SearchDir(names[i], pb, last);
      UnlockParent(pb, r, last);
    }

    /** The second search of write, truncate and unlink, with the parent let go. */
    method ResolveLast(name: string, pb: nat) returns (r: Lookup)
      requires Holding(pb)
      modifies this
      ensures var s := Search(world, old(now), size, name, pb);
              r == if s.pos < size then File(s.pos, s.kind) else NoFile
      ensures size <= ROOT && held == (if r.File? then map[r.pos := LOCK_WRITE] else map[]) && peak <= 2
    {
      var f, kind := SearchNode(name, pb, LOCK_WRITE);
      UnlockParent(pb, f, LOCK_WRITE);
      r := if f.Found? then File(f.pos, kind) else NoFile;
    }

    /** Resolution in write, truncate and unlink.  A path to a file ends holding exactly that file
        for writing, a path to nothing ends holding nothing; a path to a directory ends with the
        directory still locked for reading and no file found. */
    method ResolveFile(names: seq<string>) returns (r: Lookup)
      requires Idle() && names != []
      modifies this
      ensures r == WalkFile(world, old(now), size, ROOT, names) && size <= ROOT && peak <= 2
      ensures held == match r
                      case File(pos, _) => map[pos := LOCK_WRITE]
                      case NoFile => map[]
                      case Stray(pos) => map[pos := LOCK_READ]
    {
      var pb, i := ROOT, 0;
      ghost var target := WalkFile(world, now, size, ROOT, names);
      while i < |names|
        invariant i <= |names| && 0 <= pb && Holding(pb) && (i > 0 ==> pb < size)
        invariant target == WalkFile(world, now, size, pb, names[i..])
      {
        assert names[i..][1..] == names[i + 1..];
        var d := SearchDir(names[i], pb, LOCK_READ);
        if d.ENOTDIR? {
          if i + 1 == |names| {
            r := ResolveLast(names[i], pb);
            return;
          }
          UnlockParent(pb, d, LOCK_READ);
          return NoFile;
        }
        UnlockParent(pb, d, LOCK_READ);
        pb := d.pos;
        assert held == Parent(pb);
        i := i + 1;
      }
      r := Stray(pb);
    }

    // -------------------------------------------------------------- whole operations

    method Getattr(names: seq<string>) returns (r: Found)
      requires Idle() && names != []
      modifies this
      ensures Idle()
      ensures IsWhereItLeads(world, old(now), size, names, r)
      ensures var target := Walk(world, old(now), size, ROOT, DIRECTORY, names);
              r == if target.At? then Found(target.pos) else ENOENT
    {
      ghost var target: Target;
      r, target := ResolveNode(names);
      if r.Found? {
        Unlock(r.pos);
      }
    }

    method Read(names: seq<string>) returns (r: Found)
      requires Idle() && names != []
      modifies this
      ensures Idle()
      ensures IsWhereItLeads(world, old(now), size, names, r)
      ensures var target := Walk(world, old(now), size, ROOT, DIRECTORY, names);
              r == if target.At? then Found(target.pos) else ENOENT
    {
      ghost var target: Target;
      r, target := ResolveNode(names);
      if r.ENOENT? {
        return;
      }
      Unlock(r.pos);
    }

    /** A write of a file: `grows` past its end, `empty` before, `first` and `rest` say whether the
        first-block scan and the allocation scan find room. */
    method Write(names: seq<string>, grows: bool, empty: bool, first: bool, rest: bool)
      returns (r: Lookup, ok: bool)
      requires Idle() && names != []
      modifies this
      ensures r == WalkFile(world, old(now), size, ROOT, names)
      ensures Idle() <==> !WalkDirs(world, old(now), size, ROOT, names).At?
      ensures r.Stray? ==> held == map[r.pos := LOCK_READ]
      ensures ok <==> r.File? && (grows ==> (empty ==> first) && rest)
    {
      StrayIff(world, now, size, ROOT, names);
      r := ResolveFile(names);
      assert r.Stray? ==> r.pos in held;
      ok := false;
      if r.File? {
        if grows {
          if empty && !first {
            Unlock(r.pos);
            return;
          }
          if !rest {
            Unlock(r.pos);
            return;
          }
        }
        Unlock(r.pos);
        ok := true;
      }
    }

    /** A truncate, which may find no room for the blocks it adds. */
    method Truncate(names: seq<string>, grows: bool, room: bool) returns (r: Lookup, ok: bool)
      requires Idle() && names != []
      modifies this
      ensures r == WalkFile(world, old(now), size, ROOT, names)
      ensures Idle() <==> !WalkDirs(world, old(now), size, ROOT, names).At?
      ensures r.Stray? ==> held == map[r.pos := LOCK_READ]
      ensures ok <==> r.File? && (grows ==> room)
    {
      StrayIff(world, now, size, ROOT, names);
      r := ResolveFile(names);
      assert r.Stray? ==> r.pos in held;
      ok := false;
      if r.File? {
        if grows && !room {
          Unlock(r.pos);
          return;
        }
        Unlock(r.pos);
        ok := true;
      }
    }

    method Unlink(names: seq<string>) returns (r: Lookup)
      requires Idle() && names != []
      modifies this
      ensures r == WalkFile(world, old(now), size, ROOT, names)
      ensures Idle() <==> !WalkDirs(world, old(now), size, ROOT, names).At?
      ensures r.Stray? ==> held == map[r.pos := LOCK_READ]
    {
      StrayIff(world, now, size, ROOT, names);
      r := ResolveFile(names);
      assert r.Stray? ==> r.pos in held;
      if r.File? {
        Unlock(r.pos);
      }
    }

    /** The root is left alone. */
    method Rmdir(names: seq<string>) returns (r: Found)
      requires Idle()
      modifies this
      ensures Idle()
      ensures var target := WalkDirs(world, old(now), size, ROOT, names);
              r == if target.At? then Found(target.pos) else ENOTDIR
    {
      if names == [] {
        return Found(ROOT);
      }
      r := ResolveDir(names, LOCK_WRITE);
      if r.Found? {
        Unlock(r.pos);
      }
    }

    // -------------------------------------------------------------- listing a directory

    /** Lists a directory, keeping every child locked until the list is complete. */
    method Readdir(names: seq<string>) returns (r: Found, list: seq<string>, ghost at: nat)
      requires Idle()
      modifies this
      ensures held == map[] && size <= ROOT && peak <= 2 + |list|
      ensures var target := WalkDirs(world, old(now), size, ROOT, names);
              r == if target.At? then Found(target.pos) else ENOTDIR
      ensures list == if r.Found? then Names(Seen(world, at, r.pos, size), r.pos) else []
    {
      r, list, at := Found(ROOT), [], now;
      if names != [] {
        r := ResolveDir(names, LOCK_READ);
        if r.ENOTDIR? {
          return;
        }
      }
      var pb := r.pos;
      at := now;
      var locked: seq<nat>;
      list, locked := ListChildren(pb);
      UnlockAll(pb, locked);
      if pb != ROOT {
        Unlock(pb);
      }
    }

    /** The children's locks, in a list as the original keeps them. */
    ghost predicate HoldingAll(pb: nat, locked: seq<nat>)
      reads this
    {
      InOrder(locked, pb, size) && held == AllRead(Parent(pb).Keys + Members(locked))
    }

    lemma HowMany(pb: nat, locked: seq<nat>)
      requires HoldingAll(pb, locked)
      ensures |held| <= 1 + |locked|
    {
      FewMembers(locked);
      assert held.Keys == Parent(pb).Keys + Members(locked);
      assert |Parent(pb).Keys| <= 1;
    }

    /** One more child, which keeps its lock. */
    method KeepChild(pb: nat, i: nat, ghost locked: seq<nat>) returns (x: Slot)
      requires HoldingAll(pb, locked) && i < size && i != pb && peak <= 2 + |locked|
      requires forall j :: 0 <= j < |locked| ==> locked[j] < i
      modifies this
      ensures now == old(now) + 1 && x == Look(world, now, i) && peak <= 2 + |locked|
      ensures i in held && held - {i} == old(held) && HoldingAll(pb, locked + [i])
    {
      HowMany(pb, locked);
      OneMore(locked, pb, size, i, Parent(pb).Keys);
      x := Lock(i, LOCK_READ);
    }

    /** Looks at one slot: a child is listed and stays locked. */
    method ListSlot(pb: nat, i: nat, list0: seq<string>, locked0: seq<nat>)
      returns (list: seq<string>, locked: seq<nat>)
      requires HoldingAll(pb, locked0) && |list0| == |locked0| && peak <= 2 + |list0|
      requires i < size && i != pb && forall j :: 0 <= j < |locked0| ==> locked0[j] < i
      modifies this
      ensures now == old(now) + 1 && HoldingAll(pb, locked) && |list| == |locked| && peak <= 2 + |list|
      ensures forall j :: 0 <= j < |locked| ==> locked[j] < i + 1
      ensures var x := Look(world, now, i);
              list == if !x.kind.DELETED? && x.parent == pb then list0 + [x.fname] else list0
    {
      var x := KeepChild(pb, i, locked0);
      if !x.kind.DELETED? && x.parent == pb {
        list, locked := list0 + [x.fname], locked0 + [i];
      } else {
        Unlock(i);
        list, locked := list0, locked0;
      }
    }

    method ListChildren(pb: nat) returns (list: seq<string>, locked: seq<nat>)
      requires Holding(pb)
      modifies this
      ensures HoldingAll(pb, locked) && peak <= 2 + |list|
      ensures list == Names(Seen(world, old(now), pb, size), pb)
    {
      ghost var t := Seen(world, now, pb, size);
      list, locked := [], [];
      assert held == AllRead(Parent(pb).Keys);
      var i := 0;
      while i < size
        invariant i <= size && now == Passed(old(now), pb, i) && HoldingAll(pb, locked)
        invariant (forall j :: 0 <= j < |locked| ==> locked[j] < i) && |list| == |locked| && peak <= 2 + |list|
        invariant list == Names(t[..i], pb)
      {
        NamesMore(t, i, pb);
        if i != pb {
          list, locked := ListSlot(pb, i, list, locked);
        }
        i := i + 1;
      }
      assert t[..size] == t;
    }

    method UnlockAll(pb: nat, locked: seq<nat>)
      requires HoldingAll(pb, locked)
      modifies this`held
      ensures held == Parent(pb)
    {
      var i := 0;
      while i < |locked|
        invariant 0 <= i <= |locked| && held == AllRead(Parent(pb).Keys + Members(locked[i..]))
      {
        OneFewer(locked, pb, size, i, Parent(pb).Keys);
        Unlock(locked[i]);
        i := i + 1;
      }
      assert locked[i..] == [];
      assert held == Parent(pb);
    }
  }

  function Members(s: seq<nat>): set<nat> {
    set p | p in s
  }

  function AllRead(s: set<nat>): map<nat, Mode> {
    map p | p in s :: LOCK_READ
  }

  /** Slots in table order, without the parent's. */
  ghost predicate InOrder(locked: seq<nat>, pb: nat, size: nat) {
    && (forall i :: 0 <= i < |locked| ==> locked[i] != pb && locked[i] < size)
    && (forall i, j :: 0 <= i < j < |locked| ==> locked[i] < locked[j])
  }

  lemma MembersMore(s: seq<nat>, x: nat)
    ensures Members(s + [x]) == Members(s) + {x}
  {
  }

  lemma OneMore(locked: seq<nat>, pb: nat, size: nat, i: nat, p: set<nat>)
    requires InOrder(locked, pb, size) && i < size && i != pb && i !in p
    requires forall j :: 0 <= j < |locked| ==> locked[j] < i
    ensures InOrder(locked + [i], pb, size)
    ensures var h := AllRead(p + Members(locked));
            i !in h && AllRead(p + Members(locked + [i])) == h[i := LOCK_READ] && h[i := LOCK_READ] - {i} == h
  {
    MembersMore(locked, i);
    var h := AllRead(p + Members(locked));
    assert i !in Members(locked);
    assert h[i := LOCK_READ] - {i} == h;
  }

  lemma MembersTail(s: seq<nat>, i: nat)
    requires i < |s| && forall a, b :: 0 <= a < b < |s| ==> s[a] < s[b]
    ensures Members(s[i..]) == Members(s[i + 1..]) + {s[i]} && s[i] !in Members(s[i + 1..])
  {
    assert s[i..] == [s[i]] + s[i + 1..];
  }

  lemma OneFewer(locked: seq<nat>, pb: nat, size: nat, i: nat, p: set<nat>)
    requires i < |locked| && InOrder(locked, pb, size) && locked[i] !in p
    ensures InOrder(locked[i + 1..], pb, size)
    ensures var h := AllRead(p + Members(locked[i..]));
            locked[i] in h && h - {locked[i]} == AllRead(p + Members(locked[i + 1..]))
  {
    MembersTail(locked, i);
  }

  lemma {:induction false} FewMembers(s: seq<nat>)
    ensures |Members(s)| <= |s|
  {
    if s != [] {
      var n := |s| - 1;
      FewMembers(s[..n]);
      assert s == s[..n] + [s[n]];
      MembersMore(s[..n], s[n]);
    }
  }
}
