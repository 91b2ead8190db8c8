/** Threads searching the file table at the same time, each holding the directory it searches in:
    when they can come to wait for each other for ever. */
module OsadaLocks {
  import opened OsadaPaths

  /** A search below slot `parent`, or below the root: slot after slot, all but the parent's own, is
      locked in `mode` while it is looked at, up to slot `end`, the one sought.  It is the size of
      the table when no slot matches. */
  datatype Hunt = Hunt(parent: nat, mode: Mode, end: nat)

  /** Where a search is: not yet holding its parent, waiting for slot `i`, holding slot `i`, or
      holding nothing any more.  A search that has found its slot lets the parent go, and what its
      thread does then waits for no other slot. */
  datatype Place = Out | At(i: nat) | On(i: nat) | Gone

  predicate Sensible(hs: seq<Hunt>, size: nat) {
    && size <= ROOT
    && forall t :: 0 <= t < |hs| ==>
         (hs[t].parent == ROOT || hs[t].parent < size) && hs[t].end <= size && hs[t].end != hs[t].parent
  }

  // ---------------------------------------------------------------- moves

  predicate Searching(p: Place) {
    p.At? || p.On?
  }

  predicate HoldsAsParent(hs: seq<Hunt>, s: seq<Place>, u: nat, i: nat) {
    u < |s| == |hs| && Searching(s[u]) && hs[u].parent == i
  }

  /** Parents are held for reading; a slot looked at, in the mode of the search. */
  predicate InTheWay(hs: seq<Hunt>, s: seq<Place>, u: nat, i: nat, mode: Mode) {
    && u < |s| == |hs|
    && if mode.LOCK_WRITE? then HoldsAsParent(hs, s, u, i) || s[u] == On(i)
       else s[u] == On(i) && hs[u].mode.LOCK_WRITE?
  }

  predicate CanLock(hs: seq<Hunt>, s: seq<Place>, t: nat, i: nat, mode: Mode) {
    forall u :: 0 <= u < |s| && u != t ==> !InTheWay(hs, s, u, i, mode)
  }

  predicate CanMove(hs: seq<Hunt>, size: nat, s: seq<Place>, t: nat) {
    && t < |s| == |hs|
    && match s[t]
       case Out => hs[t].parent == ROOT || CanLock(hs, s, t, hs[t].parent, LOCK_READ)
       case At(i) => i >= size || i == hs[t].parent || CanLock(hs, s, t, i, hs[t].mode)
       case On(_) => true
       case Gone => false
  }

  function Moved(h: Hunt, size: nat, p: Place): Place {
    match p
    case Out => Place.At(0)
    case At(i) => if i >= size then Gone else if i == h.parent then Place.At(i + 1) else On(i)
    case On(i) => if i == h.end then Gone else Place.At(i + 1)
    case Gone => Gone
  }

  function Next(hs: seq<Hunt>, size: nat, s: seq<Place>, t: nat): (r: seq<Place>)
    ensures |r| == |s|
  {
    if CanMove(hs, size, s, t) then s[t := Moved(hs[t], size, s[t])] else s
  }

  /** A run: whose turn it is, in order; who cannot move waits. */
  function Exec(hs: seq<Hunt>, size: nat, s: seq<Place>, ts: seq<nat>): (r: seq<Place>)
    ensures |r| == |s|
    decreases |ts|
  {
    if ts == [] then s else Exec(hs, size, Next(hs, size, s, ts[0]), ts[1..])
  }

  function Start(hs: seq<Hunt>): seq<Place> {
    seq(|hs|, _ => Out)
  }

  ghost predicate PlaceOk(h: Hunt, size: nat, p: Place) {
    match p
    case At(i) => i <= h.end
    case On(i) => i <= h.end && i < size && i != h.parent
    case _ => true
  }

  ghost predicate Inv(hs: seq<Hunt>, size: nat, s: seq<Place>) {
    |s| == |hs| && forall t :: 0 <= t < |hs| ==> PlaceOk(hs[t], size, s[t])
  }

  lemma {:induction false} RunKeeps(hs: seq<Hunt>, size: nat, s: seq<Place>, ts: seq<nat>)
    requires Sensible(hs, size) && Inv(hs, size, s)
    ensures Inv(hs, size, Exec(hs, size, s, ts))
    decreases |ts|
  {
    if ts != [] {
      RunKeeps(hs, size, Next(hs, size, s, ts[0]), ts[1..]);
    }
  }

  // ---------------------------------------------------------------- waiting in a circle

  /** Search `t` waits to write-lock the directory that `u` searches in. */
  ghost predicate WaitsFor(hs: seq<Hunt>, size: nat, s: seq<Place>, t: nat, u: nat) {
    && t < |s| == |hs| && s[t].At? && s[t].i < size && s[t].i != hs[t].parent && hs[t].mode.LOCK_WRITE?
    && u != t && HoldsAsParent(hs, s, u, s[t].i)
  }

  ghost predicate WaitsWithin(hs: seq<Hunt>, size: nat, s: seq<Place>, b: set<nat>, t: nat) {
    exists u :: u in b && WaitsFor(hs, size, s, t, u)
  }

  /** Each of these searches waits for another of them. */
  ghost predicate Deadlocked(hs: seq<Hunt>, size: nat, s: seq<Place>, b: set<nat>) {
    b != {} && forall t {:trigger WaitsWithin(hs, size, s, b, t)} :: t in b ==> WaitsWithin(hs, size, s, b, t)
  }

  lemma WaiterStays(hs: seq<Hunt>, size: nat, s: seq<Place>, t: nat, u: nat)
    requires WaitsFor(hs, size, s, t, u)
    ensures !CanMove(hs, size, s, t)
  {
    assert InTheWay(hs, s, u, s[t].i, hs[t].mode);
  }

  /** They wait for ever, whoever else has a turn. */
  lemma {:induction false} DeadlockStays(hs: seq<Hunt>, size: nat, s: seq<Place>, b: set<nat>, ts: seq<nat>)
    requires Deadlocked(hs, size, s, b)
    ensures Deadlocked(hs, size, Exec(hs, size, s, ts), b)
    decreases |ts|
  {
    if ts != [] {
      var s' := Next(hs, size, s, ts[0]);
      forall t | t in b ensures t < |s| && s'[t] == s[t] {
        assert WaitsWithin(hs, size, s, b, t);
        var u :| u in b && WaitsFor(hs, size, s, t, u);
        WaiterStays(hs, size, s, t, u);
      }
      forall t | t in b ensures WaitsWithin(hs, size, s', b, t) {
        assert WaitsWithin(hs, size, s, b, t);
        var u :| u in b && WaitsFor(hs, size, s, t, u);
        assert WaitsFor(hs, size, s', t, u);
      }
      DeadlockStays(hs, size, s', b, ts[1..]);
    }
  }

  ghost predicate AllGone(s: seq<Place>) {
    forall t :: 0 <= t < |s| ==> s[t].Gone?
  }

  /** Who is still searching when nobody can move. */
  lemma StuckAreWaiting(hs: seq<Hunt>, size: nat, s: seq<Place>, t: nat) returns (u: nat)
    requires Sensible(hs, size) && Inv(hs, size, s) && (forall x :: 0 <= x < |s| ==> !CanMove(hs, size, s, x))
    requires t < |s| && !s[t].Gone?
    ensures u < |s| && !s[u].Gone? && WaitsFor(hs, size, s, t, u)
  {
    forall x | 0 <= x < |s| ensures !s[x].On? {
      assert !CanMove(hs, size, s, x);
    }
    assert !CanMove(hs, size, s, t);
    var i, mode := if s[t].At? then s[t].i else hs[t].parent, if s[t].At? then hs[t].mode else LOCK_READ;
    assert !CanLock(hs, s, t, i, mode);
    u :| 0 <= u < |s| && u != t && InTheWay(hs, s, u, i, mode);
  }

  /** When nobody can move and not all have finished, those left wait for each other. */
  lemma StuckIsDeadlock(hs: seq<Hunt>, size: nat, s: seq<Place>) returns (b: set<nat>)
    requires Sensible(hs, size) && Inv(hs, size, s)
    requires (forall t :: 0 <= t < |s| ==> !CanMove(hs, size, s, t)) && !AllGone(s)
    ensures Deadlocked(hs, size, s, b)
  {
    b := set t | 0 <= t < |s| && !s[t].Gone?;
    var x :| 0 <= x < |s| && !s[x].Gone?;
    assert x in b;
    forall t | t in b ensures WaitsWithin(hs, size, s, b, t) {
      var u := StuckAreWaiting(hs, size, s, t);
      assert u in b;
    }
  }

  // ---------------------------------------------------------------- searches that cross

  /** Search `t` comes by the directory that `u` searches in, at the latest where it ends. */
  predicate Passes(hs: seq<Hunt>, size: nat, t: nat, u: nat) {
    && t < |hs| && u < |hs| && hs[t].mode.LOCK_WRITE?
    && hs[u].parent < size && hs[u].parent != hs[t].parent && hs[u].parent <= hs[t].end
  }

  ghost predicate PassesWithin(hs: seq<Hunt>, size: nat, c: set<nat>, t: nat) {
    exists u :: u in c && Passes(hs, size, t, u)
  }

  /** Searches for writing, each coming by the directory of another of them. */
  ghost predicate Crossing(hs: seq<Hunt>, size: nat, c: set<nat>) {
    c != {} && forall t {:trigger PassesWithin(hs, size, c, t)} :: t in c ==> PassesWithin(hs, size, c, t)
  }

  lemma DeadlockedCross(hs: seq<Hunt>, size: nat, s: seq<Place>, b: set<nat>)
    requires Inv(hs, size, s) && Deadlocked(hs, size, s, b)
    ensures Crossing(hs, size, b)
  {
    forall t | t in b ensures PassesWithin(hs, size, b, t) {
      assert WaitsWithin(hs, size, s, b, t);
      var u :| u in b && WaitsFor(hs, size, s, t, u);
      assert PlaceOk(hs[t], size, s[t]);
      assert Passes(hs, size, t, u);
    }
  }

  /** Slot `i` is the directory of a crossing search other than those below `t`'s own. */
  ghost predicate Blocked(hs: seq<Hunt>, c: set<nat>, t: nat, i: nat) {
    t < |hs| && exists u :: u in c && u < |hs| && hs[u].parent == i && i != hs[t].parent
  }

  /** The first such slot. */
  ghost function Stop(hs: seq<Hunt>, c: set<nat>, t: nat, i: nat, last: nat): (r: nat)
    requires i <= last && Blocked(hs, c, t, last)
    ensures i <= r <= last && Blocked(hs, c, t, r) && forall j :: i <= j < r ==> !Blocked(hs, c, t, j)
    decreases last - i
  {
    if Blocked(hs, c, t, i) then i else Stop(hs, c, t, i + 1, last)
  }

  lemma StopOf(hs: seq<Hunt>, size: nat, c: set<nat>, t: nat) returns (stop: nat)
    requires Crossing(hs, size, c) && t in c
    ensures t < |hs| && stop < size && stop <= hs[t].end && Blocked(hs, c, t, stop)
    ensures forall j :: 0 <= j < stop ==> !Blocked(hs, c, t, j)
  {
    assert PassesWithin(hs, size, c, t);
    var u :| u in c && Passes(hs, size, t, u);
    assert Blocked(hs, c, t, hs[u].parent);
    stop := Stop(hs, c, t, 0, hs[u].parent);
  }

  /** Only crossing searches have begun, and none holds a slot but its parent. */
  ghost predicate Poised(hs: seq<Hunt>, s: seq<Place>, c: set<nat>) {
    |s| == |hs| && forall t :: 0 <= t < |s| ==> if t in c then s[t].At? || s[t].Out? else s[t].Out?
  }

  lemma {:induction false} ExecConcat(hs: seq<Hunt>, size: nat, s: seq<Place>, ts: seq<nat>, us: seq<nat>)
    ensures Exec(hs, size, s, ts + us) == Exec(hs, size, Exec(hs, size, s, ts), us)
    decreases |ts|
  {
    if ts == [] {
      assert ts + us == us;
    } else {
      assert (ts + us)[0] == ts[0] && (ts + us)[1..] == ts[1..] + us;
      ExecConcat(hs, size, Next(hs, size, s, ts[0]), ts[1..], us);
    }
  }

  /** A poised search goes past a slot that no crossing search has for its directory. */
  lemma PassOne(hs: seq<Hunt>, size: nat, s: seq<Place>, c: set<nat>, t: nat, i: nat) returns (ts: seq<nat>)
    requires Poised(hs, s, c) && t < |s| && s[t] == Place.At(i) && i < size && i < hs[t].end && !Blocked(hs, c, t, i)
    ensures Exec(hs, size, s, ts) == s[t := Place.At(i + 1)]
  {
    if i == hs[t].parent {
      ts := [t];
      assert Next(hs, size, s, t) == s[t := Place.At(i + 1)];
    } else {
      ts := [t, t];
      forall u | 0 <= u < |s| && u != t ensures !InTheWay(hs, s, u, i, hs[t].mode) {
      }
      var s1 := Next(hs, size, s, t);
      assert s1 == s[t := On(i)];
      assert Next(hs, size, s1, t) == s[t := Place.At(i + 1)];
      assert ts[1..] == [t];
      assert Exec(hs, size, s1, [t]) == Next(hs, size, s1, t);
    }
  }

  lemma {:induction false} PassUpTo(hs: seq<Hunt>, size: nat, s: seq<Place>, c: set<nat>, t: nat, i: nat, stop: nat)
    returns (ts: seq<nat>)
    requires Poised(hs, s, c) && t in c && t < |s| && s[t] == Place.At(i) && i <= stop <= hs[t].end && stop < size
    requires forall j :: i <= j < stop ==> !Blocked(hs, c, t, j)
    ensures Exec(hs, size, s, ts) == s[t := Place.At(stop)]
    decreases stop - i
  {
    if i == stop {
      ts := [];
    } else {
      var first := PassOne(hs, size, s, c, t, i);
      var s1 := s[t := Place.At(i + 1)];
      var rest := PassUpTo(hs, size, s1, c, t, i + 1, stop);
      ExecConcat(hs, size, s, first, rest);
      ts := first + rest;
    }
  }

  lemma BeginOne(hs: seq<Hunt>, size: nat, s: seq<Place>, c: set<nat>, t: nat)
    requires Poised(hs, s, c) && t < |s| && s[t].Out?
    ensures Exec(hs, size, s, [t]) == s[t := Place.At(0)]
  {
    assert CanMove(hs, size, s, t);
    assert [t][1..] == [];
  }

  /** The crossing searches below `n` wait each for another one's directory, no other has begun. */
  ghost predicate Brought(hs: seq<Hunt>, size: nat, s: seq<Place>, c: set<nat>, n: nat) {
    && |s| == |hs|
    && forall t :: 0 <= t < |s| ==>
         if t < n && t in c then s[t].At? && s[t].i < size && Blocked(hs, c, t, s[t].i) else s[t].Out?
  }

  /** One after the other they begin and go as far as the first directory of another. */
  lemma {:induction false} BringAll(hs: seq<Hunt>, size: nat, c: set<nat>, n: nat) returns (ts: seq<nat>)
    requires Crossing(hs, size, c) && n <= |hs|
    ensures Brought(hs, size, Exec(hs, size, Start(hs), ts), c, n)
  {
    if n == 0 {
      ts := [];
    } else {
      ts := BringAll(hs, size, c, n - 1);
      if n - 1 in c {
        var more := BringOne(hs, size, Exec(hs, size, Start(hs), ts), c, n - 1);
        ExecConcat(hs, size, Start(hs), ts, more);
        ts := ts + more;
      }
    }
  }

  lemma BringOne(hs: seq<Hunt>, size: nat, s: seq<Place>, c: set<nat>, t: nat) returns (ts: seq<nat>)
    requires Crossing(hs, size, c) && t in c && Brought(hs, size, s, c, t)
    ensures Brought(hs, size, Exec(hs, size, s, ts), c, t + 1)
  {
    var stop := StopOf(hs, size, c, t);
    BeginOne(hs, size, s, c, t);
    var s1 := s[t := Place.At(0)];
    var rest := PassUpTo(hs, size, s1, c, t, 0, stop);
    ExecConcat(hs, size, s, [t], rest);
    ts := [t] + rest;
  }

  lemma BroughtIsDeadlock(hs: seq<Hunt>, size: nat, s: seq<Place>, c: set<nat>)
    requires Crossing(hs, size, c) && Brought(hs, size, s, c, |hs|)
    ensures Deadlocked(hs, size, s, c)
  {
    forall t | t in c ensures WaitsWithin(hs, size, s, c, t) {
      assert PassesWithin(hs, size, c, t);
      var v :| v in c && Passes(hs, size, t, v);
      var u :| u in c && u < |hs| && hs[u].parent == s[t].i && s[t].i != hs[t].parent;
      assert WaitsFor(hs, size, s, t, u);
    }
  }

  // ---------------------------------------------------------------- the exact condition

  /** The run leaves the searches of `b` waiting for each other. */
  ghost predicate EndsDeadlocked(hs: seq<Hunt>, size: nat, ts: seq<nat>, b: set<nat>) {
    Deadlocked(hs, size, Exec(hs, size, Start(hs), ts), b)
  }

  /** Some run of the searches ends with some of them waiting for each other for ever exactly when
      some of them, all for writing, come each by the directory of another. */
  lemma DeadlockIff(hs: seq<Hunt>, size: nat)
    requires Sensible(hs, size)
    ensures (exists ts: seq<nat>, b: set<nat> :: EndsDeadlocked(hs, size, ts, b))
            <==> (exists c: set<nat> :: Crossing(hs, size, c))
  {
    if ts: seq<nat>, b: set<nat> :| EndsDeadlocked(hs, size, ts, b) {
      RunKeeps(hs, size, Start(hs), ts);
      DeadlockedCross(hs, size, Exec(hs, size, Start(hs), ts), b);
    }
    if c: set<nat> :| Crossing(hs, size, c) {
      var ts := BringAll(hs, size, c, |hs|);
      BroughtIsDeadlock(hs, size, Exec(hs, size, Start(hs), ts), c);
      assert EndsDeadlocked(hs, size, ts, c);
    }
  }

  /** Moves a search may still make. */
  function Left(h: Hunt, size: nat, p: Place): int {
    match p
    case Out => 2 * size + 3
    case At(i) => 2 * (size - i) + 2
    case On(i) => 2 * (size - i) + 1
    case Gone => 0
  }

  function AllLeft(hs: seq<Hunt>, size: nat, s: seq<Place>): int
    requires |s| == |hs|
  {
    if s == [] then 0 else Left(hs[0], size, s[0]) + AllLeft(hs[1..], size, s[1..])
  }

  lemma {:induction false} AllLeftChange(hs: seq<Hunt>, size: nat, s: seq<Place>, t: nat, p: Place)
    requires t < |s| == |hs|
    ensures AllLeft(hs, size, s[t := p]) == AllLeft(hs, size, s) - Left(hs[t], size, s[t]) + Left(hs[t], size, p)
  {
    if t == 0 {
      assert s[t := p][1..] == s[1..];
    } else {
      assert s[t := p][1..] == s[1..][t - 1 := p];
      AllLeftChange(hs[1..], size, s[1..], t - 1, p);
    }
  }

  lemma {:induction false} AllLeftNotNegative(hs: seq<Hunt>, size: nat, s: seq<Place>)
    requires Sensible(hs, size) && Inv(hs, size, s)
    ensures AllLeft(hs, size, s) >= 0
  {
    if s != [] {
      assert PlaceOk(hs[0], size, s[0]);
      forall t | 0 <= t < |hs[1..]| ensures PlaceOk(hs[1..][t], size, s[1..][t]) {
        assert PlaceOk(hs[t + 1], size, s[t + 1]);
      }
      AllLeftNotNegative(hs[1..], size, s[1..]);
    }
  }

  lemma MoveUsesUp(hs: seq<Hunt>, size: nat, s: seq<Place>, t: nat)
    requires Sensible(hs, size) && Inv(hs, size, s) && CanMove(hs, size, s, t)
    ensures Inv(hs, size, Next(hs, size, s, t)) && AllLeft(hs, size, Next(hs, size, s, t)) < AllLeft(hs, size, s)
  {
    assert PlaceOk(hs[t], size, s[t]);
    AllLeftChange(hs, size, s, t, Moved(hs[t], size, s[t]));
  }

  /** Searches of which none cross can always all be brought to their end, whatever has happened. */
  lemma {:induction false} AllCanFinish(hs: seq<Hunt>, size: nat, s: seq<Place>) returns (ts: seq<nat>)
    requires Sensible(hs, size) && Inv(hs, size, s) && forall c: set<nat> :: !Crossing(hs, size, c)
    ensures AllGone(Exec(hs, size, s, ts))
    decreases AllLeft(hs, size, s)
  {
    if AllGone(s) {
      ts := [];
    } else if t :| 0 <= t < |s| && CanMove(hs, size, s, t) {
      MoveUsesUp(hs, size, s, t);
      AllLeftNotNegative(hs, size, Next(hs, size, s, t));
      AllLeftNotNegative(hs, size, s);
      var rest := AllCanFinish(hs, size, Next(hs, size, s, t));
      ts := [t] + rest;
      assert ts[1..] == rest;
    } else {
      var b := StuckIsDeadlock(hs, size, s);
      DeadlockedCross(hs, size, s, b);
      ts := [];
    }
  }

  lemma Another(hs: seq<Hunt>, size: nat, c: set<nat>, t: nat) returns (u: nat)
    requires Crossing(hs, size, c) && t in c
    ensures u in c && Passes(hs, size, t, u)
  {
    assert PassesWithin(hs, size, c, t);
    u :| u in c && Passes(hs, size, t, u);
  }

  /** Searches for writing of which only those below one directory come by any never cross. */
  lemma OneDirectoryIsSafe(hs: seq<Hunt>, size: nat, dir: nat)
    requires forall t: nat, u: nat :: Passes(hs, size, t, u) ==> hs[t].parent == dir
    ensures forall c: set<nat> :: !Crossing(hs, size, c)
  {
    forall c: set<nat> ensures !Crossing(hs, size, c) {
      if Crossing(hs, size, c) {
        var t :| t in c;
        var u := Another(hs, size, c, t);
        var v := Another(hs, size, c, u);
      }
    }
  }

  /** A write below the directory in slot 5 and one below that in slot 3, both of files further on:
      each comes by the other's directory. */
  lemma TwoWritesCross(a: nat, b: nat, size: nat)
    requires 5 < a <= size && 5 < b <= size <= ROOT
    ensures var hs := [Hunt(5, LOCK_WRITE, a), Hunt(3, LOCK_WRITE, b)];
            Sensible(hs, size) && exists ts: seq<nat>, w: set<nat> :: EndsDeadlocked(hs, size, ts, w)
  {
    var hs := [Hunt(5, LOCK_WRITE, a), Hunt(3, LOCK_WRITE, b)];
    assert Passes(hs, size, 0, 1) && Passes(hs, size, 1, 0);
    assert PassesWithin(hs, size, {0, 1}, 0) && PassesWithin(hs, size, {0, 1}, 1);
    assert Crossing(hs, size, {0, 1});
    DeadlockIff(hs, size);
  }
}
