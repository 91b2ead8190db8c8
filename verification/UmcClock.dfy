/** Victim choice of the memory unit: the clock and the enhanced clock, both local to one
    process, going round the frame list from that process's own pointer. */
module UmcClock {

  /** A frame of main memory; frame `i` of the list has identifier `i`, and pid 0 is free. */
  datatype Frame = Frame(pid: nat, ref: bool, mod: bool)

  type Frames = seq<Frame>

  // ---------------------------------------------------------------- going round

  /** The index `k` places after `start`, in a list of `n`. */
  function Pos(start: nat, k: nat, n: nat): (i: nat)
    requires start < n && k <= n
    ensures i < n
  {
    if start + k < n then start + k else start + k - n
  }

  /** How many places after `start` index `i` comes. */
  function Dist(start: nat, i: nat, n: nat): (k: nat)
    requires start < n && i < n
    ensures k < n && Pos(start, k, n) == i
  {
    if start <= i then i - start else i + n - start
  }

  /** One place further, going round. */
  lemma PosNext(start: nat, k: nat, n: nat)
    requires start < n && k < n
    ensures var i := Pos(start, k, n);
            && (if i + 1 == n then 0 else i + 1) == Pos(start, if k + 1 == n then 0 else k + 1, n)
            && ((if i + 1 == n then 0 else i + 1) == start <==> k + 1 == n)
  {
  }

  datatype Want = Clean | Dirty | Unreferenced | Unmodified | Any

  predicate Wanted(x: Frame, w: Want) {
    match w
    case Clean => !x.ref && !x.mod
    case Dirty => !x.ref && x.mod
    case Unreferenced => !x.ref
    case Unmodified => !x.mod
    case Any => true
  }

  predicate Fit(f: Frames, pid: nat, i: nat, w: Want)
    requires i < |f|
  {
    f[i].pid == pid && Wanted(f[i], w)
  }

  /** The first place at or after `k`, going round from `start`, with a frame of `pid` that is
      wanted; |f| when there is none. */
  function FirstFrom(f: Frames, pid: nat, start: nat, k: nat, w: Want): (r: nat)
    requires start < |f| && k <= |f|
    ensures k <= r <= |f| && (r < |f| ==> Fit(f, pid, Pos(start, r, |f|), w))
    ensures forall j :: k <= j < r ==> !Fit(f, pid, Pos(start, j, |f|), w)
    decreases |f| - k
  {
    if k == |f| || Fit(f, pid, Pos(start, k, |f|), w) then k else FirstFrom(f, pid, start, k + 1, w)
  }

  /** The reference bits of the process's frames in the first `k` places are cleared. */
  function ClearRefs(f: Frames, pid: nat, start: nat, k: nat): (g: Frames)
    requires start < |f|
    ensures |g| == |f|
  {
    seq(|f|, i requires 0 <= i < |f| =>
      if f[i].pid == pid && Dist(start, i, |f|) < k then f[i].(ref := false) else f[i])
  }

  /** The next frame of the process after `i`, possibly `i` itself again. */
  function NextOwned(f: Frames, pid: nat, i: nat): nat
    requires i < |f|
  {
    Pos(i, FirstFrom(f, pid, i, 1, Any), |f|)
  }

  ghost predicate Owns(f: Frames, pid: nat) {
    exists i :: 0 <= i < |f| && f[i].pid == pid
  }

  /** `r` belongs to the process, and nothing does between `i` and `r`, going round: up to the end
      of the list and on from its beginning unless `r` comes after `i`. */
  ghost predicate NextAfter(f: Frames, pid: nat, i: nat, r: nat) {
    && i < |f| && r < |f| && f[r].pid == pid
    && if i < r then forall j :: i < j < r ==> f[j].pid != pid
       else forall j :: 0 <= j < r || i < j < |f| ==> f[j].pid != pid
  }

  datatype Choice = Choice(victim: nat, frames: Frames)

  function Clock(f: Frames, pid: nat, start: nat): Choice
    requires start < |f|
  {
    var k := FirstFrom(f, pid, start, 0, Unreferenced);
    if k < |f| then Choice(Pos(start, k, |f|), ClearRefs(f, pid, start, k))
    else Choice(Pos(start, FirstFrom(f, pid, start, 0, Any), |f|), ClearRefs(f, pid, start, |f|))
  }

  function Enhanced(f: Frames, pid: nat, start: nat): Choice
    requires start < |f|
  {
    var k0, k1 := FirstFrom(f, pid, start, 0, Clean), FirstFrom(f, pid, start, 0, Dirty);
    if k0 < |f| then Choice(Pos(start, k0, |f|), f)
    else if k1 < |f| then Choice(Pos(start, k1, |f|), ClearRefs(f, pid, start, k1))
    else
      var k2 := FirstFrom(f, pid, start, 0, Unmodified);
      Choice(Pos(start, if k2 < |f| then k2 else FirstFrom(f, pid, start, 0, Any), |f|), ClearRefs(f, pid, start, |f|))
  }

  // ---------------------------------------------------------------- what makes a good victim

  /** The class of a frame: reference bit first, modified bit second. */
  function Rank(x: Frame): nat {
    (if x.ref then 2 else 0) + (if x.mod then 1 else 0)
  }

  function RefRank(x: Frame): nat {
    if x.ref then 1 else 0
  }

  /** `v` belongs to the process, and no frame of the process has a lower rank, or the same
      rank and comes sooner after the pointer. */
  ghost predicate Best(f: Frames, pid: nat, start: nat, v: nat, rank: Frame -> nat)
    requires start < |f|
  {
    && v < |f| && f[v].pid == pid
    && forall u :: 0 <= u < |f| && f[u].pid == pid ==>
         rank(f[v]) < rank(f[u]) || (rank(f[v]) == rank(f[u]) && Dist(start, v, |f|) <= Dist(start, u, |f|))
  }

  lemma PlaceFrom(f: Frames, pid: nat, start: nat, k: nat, u: nat, w: Want)
    requires start < |f| && u < |f| && Fit(f, pid, u, w) && k <= Dist(start, u, |f|)
    ensures FirstFrom(f, pid, start, k, w) <= Dist(start, u, |f|) < |f|
  {
    assert Fit(f, pid, Pos(start, Dist(start, u, |f|), |f|), w);
  }

  lemma DistOfPos(start: nat, k: nat, n: nat)
    requires start < n && k < n
    ensures Dist(start, Pos(start, k, n), n) == k
  {
  }

  lemma AllReferenced(f: Frames, pid: nat, start: nat, u: nat)
    requires start < |f| && u < |f| && f[u].pid == pid
    requires FirstFrom(f, pid, start, 0, Clean) == |f| && FirstFrom(f, pid, start, 0, Dirty) == |f|
    ensures f[u].ref
  {
    if Wanted(f[u], Clean) { PlaceFrom(f, pid, start, 0, u, Clean); }
    if Wanted(f[u], Dirty) { PlaceFrom(f, pid, start, 0, u, Dirty); }
  }

  /** The same when all the process's frames are referenced: the third and fourth rounds. */
  lemma EnhancedLate(f: Frames, pid: nat, start: nat, u: nat)
    requires start < |f| && u < |f| && f[u].pid == pid
    requires FirstFrom(f, pid, start, 0, Clean) == |f| && FirstFrom(f, pid, start, 0, Dirty) == |f|
    ensures var v := Enhanced(f, pid, start).victim;
            && v < |f| && f[v].pid == pid && f[v].ref && f[u].ref
            && (Rank(f[v]) < Rank(f[u]) || (Rank(f[v]) == Rank(f[u]) && Dist(start, v, |f|) <= Dist(start, u, |f|)))
  {
    AllReferenced(f, pid, start, u);
    var k2, k3 := FirstFrom(f, pid, start, 0, Unmodified), FirstFrom(f, pid, start, 0, Any);
    PlaceFrom(f, pid, start, 0, u, Any);
    if Wanted(f[u], Unmodified) { PlaceFrom(f, pid, start, 0, u, Unmodified); }
    var k := if k2 < |f| then k2 else k3;
    DistOfPos(start, k, |f|);
    AllReferenced(f, pid, start, Pos(start, k, |f|));
  }

  /** No frame of the process beats the enhanced clock's choice. */
  lemma EnhancedBeats(f: Frames, pid: nat, start: nat, u: nat)
    requires start < |f| && u < |f| && f[u].pid == pid
    ensures var v := Enhanced(f, pid, start).victim;
            && v < |f| && f[v].pid == pid
            && (Rank(f[v]) < Rank(f[u]) || (Rank(f[v]) == Rank(f[u]) && Dist(start, v, |f|) <= Dist(start, u, |f|)))
  {
    var n := |f|;
    var k0, k1 := FirstFrom(f, pid, start, 0, Clean), FirstFrom(f, pid, start, 0, Dirty);
    PlaceFrom(f, pid, start, 0, u, Any);
    if Wanted(f[u], Clean) { PlaceFrom(f, pid, start, 0, u, Clean); }
    if Wanted(f[u], Dirty) { PlaceFrom(f, pid, start, 0, u, Dirty); }
    if k0 < n {
      DistOfPos(start, k0, n);
    } else if k1 < n {
      DistOfPos(start, k1, n);
    } else {
      EnhancedLate(f, pid, start, u);
    }
  }

  /** The enhanced clock takes the frame with the least (reference, modified) pair, ties going
      to the first after the pointer, and touches no frame of another process. */
  lemma EnhancedIsBest(f: Frames, pid: nat, start: nat)
    requires start < |f| && Owns(f, pid)
    ensures Best(f, pid, start, Enhanced(f, pid, start).victim, Rank)
    ensures SameOwners(f, Enhanced(f, pid, start).frames) && OthersKept(f, Enhanced(f, pid, start).frames, pid)
  {
    forall u | 0 <= u < |f| && f[u].pid == pid ensures var v := Enhanced(f, pid, start).victim;
      && f[v].pid == pid
      && (Rank(f[v]) < Rank(f[u]) || (Rank(f[v]) == Rank(f[u]) && Dist(start, v, |f|) <= Dist(start, u, |f|)))
    {
      EnhancedBeats(f, pid, start, u);
    }
  }

  /** The plain clock takes the first unreferenced frame after the pointer, or, when all are
      referenced, the first one. */
  lemma ClockIsBest(f: Frames, pid: nat, start: nat)
    requires start < |f| && Owns(f, pid)
    ensures Best(f, pid, start, Clock(f, pid, start).victim, RefRank)
    ensures SameOwners(f, Clock(f, pid, start).frames) && OthersKept(f, Clock(f, pid, start).frames, pid)
  {
    var v := Clock(f, pid, start).victim;
    var w0 :| 0 <= w0 < |f| && f[w0].pid == pid;
    PlaceFrom(f, pid, start, 0, w0, Any);
    forall u | 0 <= u < |f| && f[u].pid == pid
      ensures (!f[v].ref && f[u].ref) || (f[v].ref == f[u].ref && Dist(start, v, |f|) <= Dist(start, u, |f|))
    {
      PlaceFrom(f, pid, start, 0, u, Any);
      if Wanted(f[u], Unreferenced) { PlaceFrom(f, pid, start, 0, u, Unreferenced); }
    }
  }

  ghost predicate SameOwners(f: Frames, g: Frames) {
    |g| == |f| && forall i :: 0 <= i < |f| ==> g[i].pid == f[i].pid
  }

  ghost predicate OthersKept(f: Frames, g: Frames, pid: nat) {
    |g| == |f| && forall i :: 0 <= i < |f| && f[i].pid != pid ==> g[i] == f[i]
  }

  /** The bits a search leaves: own frames lose their reference bit up to the victim, or all of them
      when the victim was referenced itself; nothing else changes. */
  ghost predicate Swept(f: Frames, g: Frames, pid: nat, start: nat, v: nat)
    requires start < |f| && v < |f|
  {
    && |g| == |f|
    && forall u :: 0 <= u < |f| ==>
         && g[u].pid == f[u].pid && g[u].mod == f[u].mod
         && (g[u].ref <==> f[u].ref && !(f[u].pid == pid && (f[v].ref || Dist(start, u, |f|) < Dist(start, v, |f|))))
  }

  lemma ClockSweeps(f: Frames, pid: nat, start: nat)
    requires start < |f| && Owns(f, pid)
    ensures Swept(f, Clock(f, pid, start).frames, pid, start, Clock(f, pid, start).victim)
  {
    ClockIsBest(f, pid, start);
    var k := FirstFrom(f, pid, start, 0, Unreferenced);
    if k < |f| {
      DistOfPos(start, k, |f|);
    } else {
      var v := Clock(f, pid, start).victim;
      assert f[v].pid == pid;
      if Wanted(f[v], Unreferenced) { PlaceFrom(f, pid, start, 0, v, Unreferenced); }
    }
  }

  /** The enhanced clock leaves all bits alone when it finds a frame with both clear. */
  lemma EnhancedSweeps(f: Frames, pid: nat, start: nat)
    requires start < |f| && Owns(f, pid)
    ensures var c := Enhanced(f, pid, start);
            if Rank(f[c.victim]) == 0 then c.frames == f else Swept(f, c.frames, pid, start, c.victim)
  {
    EnhancedIsBest(f, pid, start);
    var v := Enhanced(f, pid, start).victim;
    var k0, k1 := FirstFrom(f, pid, start, 0, Clean), FirstFrom(f, pid, start, 0, Dirty);
    if k0 == |f| && k1 < |f| {
      DistOfPos(start, k1, |f|);
    } else if k0 == |f| {
      AllReferenced(f, pid, start, v);
    }
  }

  // ---------------------------------------------------------------- the loops

  /** Going once all the way round, the process's own frames are met again. */
  lemma SomeAfter(f: Frames, pid: nat, i: nat)
    requires i < |f| && Owns(f, pid)
    ensures FirstFrom(f, pid, i, 1, Any) == |f| ==> f[i].pid == pid
  {
    var w :| 0 <= w < |f| && f[w].pid == pid;
    if Dist(i, w, |f|) >= 1 {
      PlaceFrom(f, pid, i, 1, w, Any);
    }
  }

  /** The pointer goes to the process's next frame, and stays only when it has no other. */
  lemma NextOwnedIs(f: Frames, pid: nat, i: nat)
    requires i < |f| && Owns(f, pid)
    ensures forall r: nat :: r == NextOwned(f, pid, i) <==> NextAfter(f, pid, i, r)
    ensures NextOwned(f, pid, i) == i <==> forall j :: 0 <= j < |f| && j != i ==> f[j].pid != pid
  {
    var r := NextOwned(f, pid, i);
    SomeAfter(f, pid, i);
    forall j | 0 <= j < |f| && j != i && f[j].pid == pid
      ensures Dist(i, r, |f|) <= Dist(i, j, |f|) && r != i
    {
      PlaceFrom(f, pid, i, 1, j, Any);
    }
    var k := FirstFrom(f, pid, i, 1, Any);
    if k == |f| {
      assert r == i;
    } else {
      DistOfPos(i, k, |f|);
    }
    assert NextAfter(f, pid, i, r);
    forall r': nat | NextAfter(f, pid, i, r') ensures r' == r {
      OneNext(f, pid, i, r, r');
    }
  }

  lemma OneNext(f: Frames, pid: nat, i: nat, r: nat, r': nat)
    requires NextAfter(f, pid, i, r) && NextAfter(f, pid, i, r')
    ensures r == r'
  {
  }

  method MoverPunteroProximaPosibleVictima(frames: array<Frame>, indice0: nat, pid: nat) returns (puntero: nat)
    requires indice0 < frames.Length && Owns(frames[..], pid)
    ensures puntero == NextOwned(frames[..], pid, indice0) && NextAfter(frames[..], pid, indice0, puntero)
  {
    var n := frames.Length;
    ghost var f := frames[..];
    var indice := indice0 + 1;
    if indice == n {
      indice := 0;
    }
    ghost var k := 1;
    SomeAfter(f, pid, indice0);
    NextOwnedIs(f, pid, indice0);
    while frames[indice].pid != pid
      invariant 1 <= k <= n && indice == Pos(indice0, k, n)
      invariant FirstFrom(f, pid, indice0, k, Any) == FirstFrom(f, pid, indice0, 1, Any)
      decreases n - k
    {
      assert k < n;
      indice := indice + 1;
      if indice == n {
        indice := 0;
      }
      k := k + 1;
    }
    puntero := indice;
  }

  /** Clears the reference bit of the frame at place `k`. */
  lemma ClearNext(f: Frames, pid: nat, start: nat, k: nat)
    requires start < |f| && k < |f|
    ensures var g, i := ClearRefs(f, pid, start, k), Pos(start, k, |f|);
            && g[i] == f[i]
            && ClearRefs(f, pid, start, k + 1) == if f[i].pid == pid then g[i := g[i].(ref := false)] else g
  {
    var g, i := ClearRefs(f, pid, start, k), Pos(start, k, |f|);
    DistOfPos(start, k, |f|);
    forall j | 0 <= j < |f| && j != i ensures Dist(start, j, |f|) != k {
    }
  }

  /** The state of the clock's loop: `k` places into its first or second round. */
  ghost predicate ClockAt(f: Frames, g: Frames, pid: nat, start: nat, round: nat, k: nat)
    requires start < |f|
  {
    && k < |f| && round <= 1
    && FirstFrom(f, pid, start, 0, Unreferenced)
       == (if round == 0 then FirstFrom(f, pid, start, k, Unreferenced) else |f|)
    && g == ClearRefs(f, pid, start, if round == 0 then k else |f|)
    && (round == 1 ==> FirstFrom(f, pid, start, 0, Any) == FirstFrom(f, pid, start, k, Any))
  }

  lemma ClockStep(f: Frames, g: Frames, pid: nat, start: nat, round: nat, k: nat)
    requires start < |f| && Owns(f, pid) && ClockAt(f, g, pid, start, round, k)
    requires var i := Pos(start, k, |f|); g[i].pid != pid || g[i].ref
    ensures var i := Pos(start, k, |f|);
            var g' := if g[i].pid == pid then g[i := g[i].(ref := false)] else g;
            if k + 1 < |f| then ClockAt(f, g', pid, start, round, k + 1)
            else round == 0 && ClockAt(f, g', pid, start, 1, 0)
  {
    ClearNext(f, pid, start, k);
    var w :| 0 <= w < |f| && f[w].pid == pid;
    PlaceFrom(f, pid, start, 0, w, Any);
  }

  lemma ClockExit(f: Frames, g: Frames, pid: nat, start: nat, round: nat, k: nat)
    requires start < |f| && Owns(f, pid) && ClockAt(f, g, pid, start, round, k)
    requires g[Pos(start, k, |f|)].pid == pid && !g[Pos(start, k, |f|)].ref
    ensures Choice(Pos(start, k, |f|), g) == Clock(f, pid, start)
  {
    ClearNext(f, pid, start, k);
  }

  method ApagarReferencia(frames: array<Frame>, indice: nat)
    requires indice < frames.Length
    modifies frames
    ensures frames[..] == old(frames[..])[indice := old(frames[indice]).(ref := false)]
  {
    frames[indice] := frames[indice].(ref := false);
  }

  /** The clock: first unreferenced frame of the process from its pointer on, clearing the
      reference bits it passes; it stops within two rounds. */
  method BuscarVictimaClock(frames: array<Frame>, pid: nat, indiceRecorrida: nat)
    returns (victima: nat, nuevoPuntero: nat)
    requires indiceRecorrida < frames.Length && Owns(frames[..], pid)
    modifies frames
    ensures Choice(victima, frames[..]) == Clock(old(frames[..]), pid, indiceRecorrida)
    ensures nuevoPuntero == NextOwned(frames[..], pid, victima) && NextAfter(frames[..], pid, victima, nuevoPuntero)
  {
    var n := frames.Length;
    ghost var f, start := frames[..], indiceRecorrida;
    var indice := indiceRecorrida;
    ghost var round, k := 0, 0;
    assert ClearRefs(f, pid, start, 0) == f;
    while frames[indice].pid != pid || frames[indice].ref
      invariant 0 <= k < n && 0 <= round <= 1 && indice == Pos(start, k, n)
      invariant ClockAt(f, frames[..], pid, start, round, k)
      decreases 1 - round, n - k
    {
      ghost var g := frames[..];
      PosNext(start, k, n);
      ClockStep(f, g, pid, start, round, k);
      if frames[indice].pid == pid {
        ApagarReferencia(frames, indice);
      }
      indice := indice + 1;
      if indice == n {
        indice := 0;
      }
      k := k + 1;
      if k == n {
        round, k := round + 1, 0;
      }
    }
    ClockExit(f, frames[..], pid, start, round, k);
    victima := indice;
    nuevoPuntero := MoverPunteroProximaPosibleVictima(frames, indice, pid);
  }

  // ---------------------------------------------------------------- the enhanced loop

  /** What the enhanced clock has seen: `k` places into round 0, 1, 2 or 3.  Rounds 0 and 2
      look for a frame with both bits clear, rounds 1 and 3 for a modified one, and round 1
      clears the reference bits it passes. */
  ghost predicate EnhancedAt(f: Frames, g: Frames, pid: nat, start: nat, round: nat, k: nat)
    requires start < |f|
  {
    && k < |f| && round <= 3
    && FirstFrom(f, pid, start, 0, Clean) == (if round == 0 then FirstFrom(f, pid, start, k, Clean) else |f|)
    && (round >= 1 ==>
          FirstFrom(f, pid, start, 0, Dirty) == if round == 1 then FirstFrom(f, pid, start, k, Dirty) else |f|)
    && (round >= 2 ==>
          FirstFrom(f, pid, start, 0, Unmodified)
          == if round == 2 then FirstFrom(f, pid, start, k, Unmodified) else |f|)
    && (round == 3 ==> FirstFrom(f, pid, start, 0, Any) == FirstFrom(f, pid, start, k, Any))
    && g == match round
            case 0 => f
            case 1 => ClearRefs(f, pid, start, k)
            case _ => ClearRefs(f, pid, start, |f|)
  }

  predicate Accepted(x: Frame, pid: nat, recorrida: nat) {
    x.pid == pid && !x.ref && (x.mod <==> recorrida == 1)
  }

  ghost predicate EnhancedNext(f: Frames, g: Frames, pid: nat, start: nat, round: nat, k: nat)
    requires start < |f| && |g| == |f| && k < |f|
  {
    var i := Pos(start, k, |f|);
    var g' := if g[i].pid == pid && round % 2 == 1 then g[i := g[i].(ref := false)] else g;
    if k + 1 < |f| then EnhancedAt(f, g', pid, start, round, k + 1)
    else round < 3 && EnhancedAt(f, g', pid, start, round + 1, 0)
  }

  lemma EnhancedFirstRounds(f: Frames, g: Frames, pid: nat, start: nat, round: nat, k: nat)
    requires start < |f| && EnhancedAt(f, g, pid, start, round, k) && round <= 1
    requires !Accepted(g[Pos(start, k, |f|)], pid, round % 2)
    ensures EnhancedNext(f, g, pid, start, round, k)
  {
    ClearNext(f, pid, start, k);
    assert ClearRefs(f, pid, start, 0) == f;
  }

  lemma EnhancedThirdRound(f: Frames, g: Frames, pid: nat, start: nat, k: nat)
    requires start < |f| && EnhancedAt(f, g, pid, start, 2, k) && !Accepted(g[Pos(start, k, |f|)], pid, 0)
    ensures EnhancedNext(f, g, pid, start, 2, k)
  {
    DistOfPos(start, k, |f|);
  }

  lemma EnhancedFourthRound(f: Frames, g: Frames, pid: nat, start: nat, k: nat)
    requires start < |f| && Owns(f, pid) && EnhancedAt(f, g, pid, start, 3, k)
    requires !Accepted(g[Pos(start, k, |f|)], pid, 1)
    ensures EnhancedNext(f, g, pid, start, 3, k)
  {
    var i := Pos(start, k, |f|);
    DistOfPos(start, k, |f|);
    if f[i].pid == pid && !f[i].mod {
      PlaceFrom(f, pid, start, 0, i, Unmodified);
    }
    var w :| 0 <= w < |f| && f[w].pid == pid;
    PlaceFrom(f, pid, start, 0, w, Any);
  }

  lemma EnhancedStep(f: Frames, g: Frames, pid: nat, start: nat, round: nat, k: nat)
    requires start < |f| && Owns(f, pid) && EnhancedAt(f, g, pid, start, round, k)
    requires !Accepted(g[Pos(start, k, |f|)], pid, round % 2)
    ensures EnhancedNext(f, g, pid, start, round, k)
  {
    if round <= 1 {
      EnhancedFirstRounds(f, g, pid, start, round, k);
    } else if round == 2 {
      EnhancedThirdRound(f, g, pid, start, k);
    } else {
      EnhancedFourthRound(f, g, pid, start, k);
    }
  }

  lemma EnhancedExit(f: Frames, g: Frames, pid: nat, start: nat, round: nat, k: nat)
    requires start < |f| && Owns(f, pid) && EnhancedAt(f, g, pid, start, round, k)
    requires Accepted(g[Pos(start, k, |f|)], pid, round % 2)
    ensures Choice(Pos(start, k, |f|), g) == Enhanced(f, pid, start)
  {
    ClearNext(f, pid, start, k);
  }

  /** Where the loop is after a turn without a victim. */
  lemma EnhancedTurn(f: Frames, g: Frames, pid: nat, start: nat, round: nat, k: nat)
    requires start < |f| && Owns(f, pid) && EnhancedAt(f, g, pid, start, round, k)
    requires !Accepted(g[Pos(start, k, |f|)], pid, round % 2)
    ensures var i := Pos(start, k, |f|);
            var g' := if g[i].pid == pid && round % 2 == 1 then g[i := g[i].(ref := false)] else g;
            var (round', k') := if k + 1 == |f| then (round + 1, 0) else (round, k + 1);
            && EnhancedAt(f, g', pid, start, round', k') && |g'| == |f| && round' <= 3
            && (k' == 0 ==> round < 3)
  {
    EnhancedStep(f, g, pid, start, round, k);
  }

  /** The search of the enhanced clock. */
  method RecorrerModificado(frames: array<Frame>, pid: nat, indiceRecorrida: nat) returns (victima: nat)
    requires indiceRecorrida < frames.Length && Owns(frames[..], pid)
    modifies frames
    ensures Choice(victima, frames[..]) == Enhanced(old(frames[..]), pid, indiceRecorrida)
  {
    var n := frames.Length;
    ghost var f, start := frames[..], indiceRecorrida;
    var indice, recorrida, acierto := indiceRecorrida, 0, false;
    ghost var round: nat, k: nat := 0, 0;
    victima := 0;
    while !acierto
      invariant !acierto ==> k < n && round <= 3 && indice == Pos(start, k, n) && recorrida == round % 2
      invariant !acierto ==> EnhancedAt(f, frames[..], pid, start, round, k)
      invariant acierto ==> Choice(victima, frames[..]) == Enhanced(f, pid, start)
      decreases !acierto, 3 - round, n - k
    {
      ghost var g := frames[..];
      PosNext(start, k, n);
      if Accepted(frames[indice], pid, recorrida) {
        EnhancedExit(f, g, pid, start, round, k);
        victima := indice;
        acierto := true;
      } else {
        EnhancedTurn(f, g, pid, start, round, k);
      }
      if frames[indice].pid == pid && recorrida == 1 {
        ApagarReferencia(frames, indice);
      }
      indice := indice + 1;
      if indice == n {
        indice := 0;
      }
      if indice == indiceRecorrida {
        recorrida := 1 - recorrida;
      }
      round, k := if k + 1 == n then round + 1 else round, if k + 1 == n then 0 else k + 1;
    }
  }

  /** The enhanced clock, which stops within four rounds. */
  method BuscarVictimaClockModificado(frames: array<Frame>, pid: nat, indiceRecorrida: nat)
    returns (victima: nat, nuevoPuntero: nat)
    requires indiceRecorrida < frames.Length && Owns(frames[..], pid)
    modifies frames
    ensures Choice(victima, frames[..]) == Enhanced(old(frames[..]), pid, indiceRecorrida)
    ensures nuevoPuntero == NextOwned(frames[..], pid, victima) && NextAfter(frames[..], pid, victima, nuevoPuntero)
  {
    EnhancedIsBest(frames[..], pid, indiceRecorrida);
    victima := RecorrerModificado(frames, pid, indiceRecorrida);
    assert frames[..][victima].pid == pid;
    nuevoPuntero := MoverPunteroProximaPosibleVictima(frames, victima, pid);
  }
}
