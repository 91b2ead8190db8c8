/** Successive replacements of one process: from frames that are all referenced on, each takes the
    frame its pointer is on, so that the process's frames are given up in the order of the list,
    round after round. */
module UmcRounds {
  import opened UmcClock
  import opened UmcTables
  import opened UmcSafety
  import opened UmcEffects

  // ---------------------------------------------------------------- one search

  /** The class of a frame for either clock. */
  function RankFor(a: Algorithm, x: Frame): nat {
    if a.CLOCK? then RefRank(x) else Rank(x)
  }

  /** From the pointer on, going round, the classes of the process's frames do not decrease. */
  ghost predicate Rising(f: Frames, pid: nat, start: nat, a: Algorithm)
    requires start < |f|
  {
    forall u, w :: 0 <= u < |f| && 0 <= w < |f| && f[u].pid == f[w].pid == pid ==>
      Dist(start, u, |f|) <= Dist(start, w, |f|) ==> RankFor(a, f[u]) <= RankFor(a, f[w])
  }

  ghost predicate AllReferencedOf(f: Frames, pid: nat) {
    forall u :: 0 <= u < |f| && f[u].pid == pid ==> f[u].ref
  }

  ghost predicate NoneUsedAndModified(f: Frames, pid: nat) {
    forall u :: 0 <= u < |f| && f[u].pid == pid ==> !(f[u].ref && f[u].mod)
  }

  /** The pointer is on a frame of the process and comes to the others in the order in which the
      clock wants them. */
  ghost predicate InTurn(f: Frames, pid: nat, start: nat, a: Algorithm) {
    && start < |f| && f[start].pid == pid && Rising(f, pid, start, a)
    && (a.CLOCK_M? ==> NoneUsedAndModified(f, pid) || AllReferencedOf(f, pid))
  }

  lemma VictimIsBest(f: Frames, pid: nat, start: nat, a: Algorithm)
    requires start < |f| && f[start].pid == pid
    ensures var c := Victim(f, pid, start, a);
            && c.victim < |f| && f[c.victim].pid == pid
            && forall u :: 0 <= u < |f| && f[u].pid == pid ==>
                 || RankFor(a, f[c.victim]) < RankFor(a, f[u])
                 || (RankFor(a, f[c.victim]) == RankFor(a, f[u])
                     && Dist(start, c.victim, |f|) <= Dist(start, u, |f|))
  {
    assert Owns(f, pid);
    if a.CLOCK? {
      ClockIsBest(f, pid, start);
    } else {
      EnhancedIsBest(f, pid, start);
    }
  }

  lemma TakesThePointer(f: Frames, pid: nat, start: nat, a: Algorithm)
    requires InTurn(f, pid, start, a)
    ensures Victim(f, pid, start, a).victim == start
  {
    VictimIsBest(f, pid, start, a);
    var v := Victim(f, pid, start, a).victim;
    assert Dist(start, start, |f|) == 0;
    assert RankFor(a, f[start]) <= RankFor(a, f[v]);
  }

  /** With every frame referenced the clock takes the one its pointer is on; the enhanced clock does
      so exactly when that one is unmodified or all are modified. */
  lemma AllReferencedVictimIff(f: Frames, pid: nat, start: nat, a: Algorithm)
    requires start < |f| && f[start].pid == pid && AllReferencedOf(f, pid)
    ensures Victim(f, pid, start, a).victim == start
            <==> a.CLOCK? || !f[start].mod || forall u :: 0 <= u < |f| && f[u].pid == pid ==> f[u].mod
  {
    VictimIsBest(f, pid, start, a);
    var v := Victim(f, pid, start, a).victim;
    assert Dist(start, start, |f|) == 0;
    assert f[v].ref && f[start].ref;
  }

  /** The bits of the process's other frames after a search that took the pointer's. */
  lemma PointerSweep(f: Frames, pid: nat, start: nat, a: Algorithm)
    requires InTurn(f, pid, start, a)
    ensures var g := Victim(f, pid, start, a).frames;
            |g| == |f| && forall u :: 0 <= u < |f| ==>
              && g[u].pid == f[u].pid
              && (u != start && f[u].pid == pid ==> g[u] == Frame(pid, f[u].ref && !f[start].ref, f[u].mod))
  {
    TakesThePointer(f, pid, start, a);
    assert Owns(f, pid) && Dist(start, start, |f|) == 0;
    if a.CLOCK? {
      ClockSweeps(f, pid, start);
    } else {
      EnhancedSweeps(f, pid, start);
    }
  }

  /** Distances from the next frame: what came after it stays behind it, the old start comes last. */
  lemma DistFromNext(f: Frames, pid: nat, start: nat, next: nat, u: nat)
    requires start < |f| && f[start].pid == pid && NextAfter(f, pid, start, next) && next != start
    requires u < |f| && f[u].pid == pid
    ensures Dist(next, u, |f|) == if u == start then |f| - Dist(start, next, |f|)
                                  else Dist(start, u, |f|) - Dist(start, next, |f|)
  {
  }

  lemma RisesAgain(f: Frames, g: Frames, pid: nat, start: nat, next: nat, a: Algorithm)
    requires InTurn(f, pid, start, a) && NextAfter(f, pid, start, next) && |g| == |f|
    requires forall u :: 0 <= u < |f| ==> g[u].pid == f[u].pid
    requires forall u :: 0 <= u < |f| && u != start && f[u].pid == pid ==>
               g[u] == Frame(pid, f[u].ref && !f[start].ref, f[u].mod)
    requires g[start] == Frame(pid, true, false)
    ensures Rising(g, pid, next, a)
  {
    if next != start {
      forall u, w | 0 <= u < |g| && 0 <= w < |g| && g[u].pid == g[w].pid == pid
                    && Dist(next, u, |g|) <= Dist(next, w, |g|)
        ensures RankFor(a, g[u]) <= RankFor(a, g[w])
      {
        DistFromNext(f, pid, start, next, u);
        DistFromNext(f, pid, start, next, w);
        assert RankFor(a, f[start]) <= RankFor(a, f[u]);
        assert u != start && w != start ==> RankFor(a, f[u]) <= RankFor(a, f[w]);
      }
    }
  }

  /** A page is brought into the pointer's frame and the pointer moves on: the order stays. */
  lemma StaysInTurn(f: Frames, pid: nat, start: nat, next: nat, a: Algorithm)
    requires InTurn(f, pid, start, a) && NextAfter(f, pid, start, next)
    ensures |Victim(f, pid, start, a).frames| == |f|
    ensures InTurn(Victim(f, pid, start, a).frames[start := Frame(pid, true, false)], pid, next, a)
  {
    PointerSweep(f, pid, start, a);
    var g := Victim(f, pid, start, a).frames[start := Frame(pid, true, false)];
    RisesAgain(f, g, pid, start, next, a);
    if a.CLOCK_M? && f[start].ref && !AllReferencedOf(f, pid) {
      var u :| 0 <= u < |f| && f[u].pid == pid && !f[u].ref;
      assert Dist(start, start, |f|) == 0;
      assert RankFor(a, f[start]) <= RankFor(a, f[u]);
    }
  }

  // ---------------------------------------------------------------- one request

  function PointerOf(t: Tables, pid: nat): nat {
    var i := FindProc(t.procs, pid, 0);
    if i < |t.procs| then t.procs[i].indice else 0
  }

  /** The process has used up its quota and its frames are in turn. */
  ghost predicate Ready(t: Tables, pid: nat, a: Algorithm, marcos: nat) {
    && Inv(t, marcos) && QuotaOk(marcos)
    && FindProc(t.procs, pid, 0) < |t.procs| && t.procs[FindProc(t.procs, pid, 0)].cantFrames == marcos
    && InTurn(t.frames, pid, PointerOf(t, pid), a)
  }

  /** The process asks for a page that is out. */
  ghost predicate Faults(t: Tables, r: Request, pid: nat) {
    (r.Leer? || r.Escribir?) && r.pid == pid && Lookup(t.procs, pid, r.nro) == NO_EN_MEMORIA
  }

  lemma ReplaceStays(t: Tables, i: nat, n: nat, a: Algorithm, marcos: nat)
    requires Inv(t, marcos) && QuotaOk(marcos) && i < |t.procs| && t.procs[i].cantFrames == marcos
    requires InTurn(t.frames, t.procs[i].pid, t.procs[i].indice, a)
    ensures t.procs[i].indice < |t.frames|
    ensures var (s, v) := Replace(t, i, n, a);
            && OnlyAt(t.procs, s.procs, i) && s.procs[i].cantFrames == marcos
            && v == t.procs[i].indice && v < |s.frames| && s.frames[v].ref
            && NextAfter(t.frames, t.procs[i].pid, v, s.procs[i].indice)
            && InTurn(s.frames, t.procs[i].pid, s.procs[i].indice, a)
  {
    var p := t.procs[i];
    TakesThePointer(t.frames, p.pid, p.indice, a);
    ReplaceFrames(t, i, n, a, marcos);
    ReplacePointer(t, i, n, a, marcos);
    ReplaceShape(t, i, n, a);
    var (s, v) := Replace(t, i, n, a);
    StaysInTurn(t.frames, p.pid, p.indice, s.procs[i].indice, a);
    ReplaceCharges(t, i, n, a);
  }

  lemma ReplaceCharges(t: Tables, i: nat, n: nat, a: Algorithm)
    requires i < |t.procs| && t.procs[i].indice < |t.frames|
    ensures var s := Replace(t, i, n, a).0; i < |s.procs| && s.procs[i].cantFrames == t.procs[i].cantFrames
  {
    var p := t.procs[i];
    var c := Victim(t.frames, p.pid, p.indice, a);
    if c.victim < |c.frames| {
      var next := NextOwned(c.frames, p.pid, c.victim);
      if c.victim < |t.frames| {
        var g, k := EvictIs(t.(frames := c.frames, procs := t.procs[i := p.(indice := next)]), i, c.victim, n);
      }
    }
  }

  /** The load behind a fault. */
  lemma LoadTurns(t: Tables, i: nat, n: nat, a: Algorithm, marcos: nat)
    requires Inv(t, marcos) && QuotaOk(marcos) && i < |t.procs| && t.procs[i].cantFrames == marcos
    requires InTurn(t.frames, t.procs[i].pid, t.procs[i].indice, a)
    requires n < |t.procs[i].pages| && !t.procs[i].pages[n].status.M?
    ensures var l := Load(t, i, n, a, marcos);
            && OnlyAt(t.procs, l.t.procs, i) && l.t.procs[i].cantFrames == marcos
            && l.frame == t.procs[i].indice == Lookup(l.t.procs, t.procs[i].pid, n)
            && SameOwners(t.frames, l.t.frames) && l.t.frames[l.frame].ref
            && NextAfter(t.frames, t.procs[i].pid, t.procs[i].indice, l.t.procs[i].indice)
            && InTurn(l.t.frames, t.procs[i].pid, l.t.procs[i].indice, a)
  {
    ReplaceKeeps(t, i, n, a, marcos);
    ReplaceStays(t, i, n, a, marcos);
  }

  lemma OnlyAtFinds(ps: seq<Proc>, rs: seq<Proc>, i: nat, pid: nat)
    requires OnlyAt(ps, rs, i)
    ensures FindProc(rs, pid, 0) == FindProc(ps, pid, 0)
  {
    FindProcSame(ps, i, rs[i], pid);
    assert rs == ps[i := rs[i]];
  }

  /** The page comes into the frame the pointer was on, and the pointer goes to the next one. */
  lemma FaultTurns(t: Tables, r: Request, pid: nat, a: Algorithm, marcos: nat)
    requires Ready(t, pid, a, marcos) && Faults(t, r, pid)
    ensures var s := Serve(t, r, a, marcos);
            && Ready(s, pid, a, marcos) && SameOwners(t.frames, s.frames)
            && Lookup(s.procs, pid, r.nro) == PointerOf(t, pid)
            && NextAfter(t.frames, pid, PointerOf(t, pid), PointerOf(s, pid))
  {
    var i := FaultIs(t, r, a, marcos);
    LoadTurns(t, i, r.nro, a, marcos);
    ServeKeeps(t, r, a, marcos);
    var s, l := Serve(t, r, a, marcos), Load(t, i, r.nro, a, marcos);
    OnlyAtFinds(t.procs, s.procs, i, pid);
    assert s.frames == l.t.frames;
  }

  // ---------------------------------------------------------------- many requests

  ghost predicate AllFault(t: Tables, rs: seq<Request>, pid: nat, a: Algorithm, marcos: nat)
    decreases |rs|
  {
    rs != [] ==> Faults(t, rs[0], pid) && AllFault(Serve(t, rs[0], a, marcos), rs[1..], pid, a, marcos)
  }

  /** Where each page asked for ended up. */
  function FramesTaken(t: Tables, rs: seq<Request>, pid: nat, a: Algorithm, marcos: nat): seq<int>
    decreases |rs|
  {
    if rs == [] || !(rs[0].Leer? || rs[0].Escribir?) then []
    else
      var s := Serve(t, rs[0], a, marcos);
      [Lookup(s.procs, pid, rs[0].nro)] + FramesTaken(s, rs[1..], pid, a, marcos)
  }

  /** The frames of the process one after the other from `start` on, round after round. */
  ghost predicate GoesRound(f: Frames, pid: nat, start: nat, v: seq<int>) {
    && (v != [] ==> v[0] == start)
    && (forall k :: 0 <= k < |v| ==> 0 <= v[k])
    && forall k :: 0 < k < |v| ==> NextAfter(f, pid, v[k - 1], v[k])
  }

  lemma GoesRoundCons(f: Frames, g: Frames, pid: nat, start: nat, next: nat, v: seq<int>)
    requires SameOwners(f, g) && NextAfter(f, pid, start, next) && GoesRound(g, pid, next, v)
    ensures GoesRound(f, pid, start, [start] + v)
  {
    var w := [start] + v;
    forall k | 0 < k < |w| ensures NextAfter(f, pid, w[k - 1], w[k]) {
      if k > 1 {
        assert NextAfter(g, pid, v[k - 1 - 1], v[k - 1]);
      }
    }
  }

  /** While the process asks for pages that are out, they come into its frames in their order. */
  lemma {:induction false} FaultsGoRound(t: Tables, rs: seq<Request>, pid: nat, a: Algorithm, marcos: nat)
    requires Ready(t, pid, a, marcos) && AllFault(t, rs, pid, a, marcos)
    ensures |FramesTaken(t, rs, pid, a, marcos)| == |rs|
    ensures GoesRound(t.frames, pid, PointerOf(t, pid), FramesTaken(t, rs, pid, a, marcos))
    decreases |rs|
  {
    if rs != [] {
      var s := Serve(t, rs[0], a, marcos);
      FaultTurns(t, rs[0], pid, a, marcos);
      FaultsGoRound(s, rs[1..], pid, a, marcos);
      GoesRoundCons(t.frames, s.frames, pid, PointerOf(t, pid), PointerOf(s, pid),
                    FramesTaken(s, rs[1..], pid, a, marcos));
    }
  }

  ghost predicate AllSameMod(f: Frames, pid: nat) {
    forall u, w :: 0 <= u < |f| && 0 <= w < |f| && f[u].pid == f[w].pid == pid ==> f[u].mod == f[w].mod
  }

  /** After any run that leaves every frame of a process referenced, and for the enhanced clock all
      or none of them modified, its next replacements take its frames in the order of the list from
      the pointer on, round after round. */
  lemma ReferencedGoRound(
    frames: nat, entries: nat, log: seq<Request>, rs: seq<Request>, pid: nat, a: Algorithm, marcos: nat)
    requires QuotaOk(marcos)
    requires var t := Exec(Initial(frames, entries), log, a, marcos);
             && FindProc(t.procs, pid, 0) < |t.procs| && t.procs[FindProc(t.procs, pid, 0)].cantFrames == marcos
             && AllReferencedOf(t.frames, pid) && (a.CLOCK_M? ==> AllSameMod(t.frames, pid))
             && AllFault(t, rs, pid, a, marcos)
    ensures var t := Exec(Initial(frames, entries), log, a, marcos);
            && |FramesTaken(t, rs, pid, a, marcos)| == |rs|
            && GoesRound(t.frames, pid, PointerOf(t, pid), FramesTaken(t, rs, pid, a, marcos))
  {
    var t := Exec(Initial(frames, entries), log, a, marcos);
    assert Inv(Initial(frames, entries), marcos);
    ExecKeeps(Initial(frames, entries), log, a, marcos);
    assert ProcOk(t.frames, t.procs[FindProc(t.procs, pid, 0)], marcos);
    assert Rising(t.frames, pid, PointerOf(t, pid), a);
    FaultsGoRound(t, rs, pid, a, marcos);
  }
}
