/** What each request does to the frames, their bits and the TLB, and over every run which frames
    count as modified. */
module UmcEffects {
  import opened UmcClock
  import opened UmcTables
  import opened UmcSafety

  // ---------------------------------------------------------------- pages that are resident

  lemma AllowedPid(t: Tables, r: Request, marcos: nat)
    requires Inv(t, marcos) && (r.Leer? || r.Escribir?) && Allowed(t, r)
    ensures FindProc(t.procs, r.pid, 0) < |t.procs| && t.procs[FindProc(t.procs, r.pid, 0)].pid == r.pid != 0
  {
    assert ProcOk(t.frames, t.procs[FindProc(t.procs, r.pid, 0)], marcos);
  }

  /** A write to a resident page marks its frame as referenced and modified, and changes no other
      frame and no page table, whether the TLB knew the page or not. */
  lemma WriteEffect(t: Tables, pid: nat, n: nat, a: Algorithm, marcos: nat)
    requires Inv(t, marcos) && pid != 0 && Lookup(t.procs, pid, n) > -1
    ensures var f, r := Lookup(t.procs, pid, n), Serve(t, Escribir(pid, n), a, marcos);
            && f < |t.frames| && r.frames == t.frames[f := Frame(pid, true, true)]
            && r.procs == t.procs && r.accesos == t.accesos + 1
  {
    LookupIsOwn(t, marcos, pid, n);
    if TlbLookup(t.tlb, pid, n) > -1 {
      TlbAgrees(t, marcos, pid, n);
    }
  }

  /** A read marks it as referenced and leaves its modified bit. */
  lemma ReadEffect(t: Tables, pid: nat, n: nat, a: Algorithm, marcos: nat)
    requires Inv(t, marcos) && pid != 0 && Lookup(t.procs, pid, n) > -1
    ensures var f, r := Lookup(t.procs, pid, n), Serve(t, Leer(pid, n), a, marcos);
            && f < |t.frames| && r.frames == t.frames[f := Frame(pid, true, t.frames[f].mod)]
            && r.procs == t.procs && r.accesos == t.accesos + 1
  {
    LookupIsOwn(t, marcos, pid, n);
    if TlbLookup(t.tlb, pid, n) > -1 {
      TlbAgrees(t, marcos, pid, n);
    }
  }

  /** What a read of a page that is resident changes. */
  ghost predicate ReadsAsMeant(t: Tables, r: Tables, pid: nat, n: nat) {
    var f := Lookup(t.procs, pid, n);
    f > -1 ==> f < |t.frames| && r.frames == t.frames[f := Frame(pid, true, t.frames[f].mod)] && r.procs == t.procs
  }

  ghost predicate WritesAsMeant(t: Tables, r: Tables, pid: nat, n: nat) {
    var f := Lookup(t.procs, pid, n);
    f > -1 ==> f < |t.frames| && r.frames == t.frames[f := Frame(pid, true, true)] && r.procs == t.procs
  }

  lemma ResidentRead(t: Tables, pid: nat, n: nat, a: Algorithm, marcos: nat)
    requires Inv(t, marcos) && FindProc(t.procs, pid, 0) < |t.procs|
    ensures ReadsAsMeant(t, Solicitar(t, pid, n, a, marcos), pid, n)
  {
    AllowedPid(t, Leer(pid, n), marcos);
    if Lookup(t.procs, pid, n) > -1 { ReadEffect(t, pid, n, a, marcos); }
  }

  lemma ResidentWrite(t: Tables, pid: nat, n: nat, a: Algorithm, marcos: nat)
    requires Inv(t, marcos) && FindProc(t.procs, pid, 0) < |t.procs|
    ensures WritesAsMeant(t, Almacenar(t, pid, n, a, marcos), pid, n)
  {
    AllowedPid(t, Escribir(pid, n), marcos);
    if Lookup(t.procs, pid, n) > -1 { WriteEffect(t, pid, n, a, marcos); }
  }

  lemma TouchFinds(t: Tables, pid: nat, f: nat, q: nat, m: nat)
    ensures TlbLookup(TlbTouch(t, pid, f).tlb, q, m) == TlbLookup(t.tlb, q, m)
  {
    var tlb, now := t.tlb, TlbTouch(t, pid, f).tlb;
    assert |now| == |tlb|
      && forall k :: 0 <= k < |tlb| ==>
           now[k].pid == tlb[k].pid && now[k].nro == tlb[k].nro && now[k].frame == tlb[k].frame;
    var i, j := FindTlb(tlb, q, m, 0), FindTlb(now, q, m, 0);
    assert i < |tlb| ==> now[i].pid == q && now[i].nro == m;
    assert j < |tlb| ==> tlb[j].pid == q && tlb[j].nro == m;
  }

  lemma LoadFinds(t: Tables, pid: nat, n: nat, f: nat)
    requires t.tlb != [] && TlbLookup(t.tlb, pid, n) == NO_EN_MEMORIA
    ensures TlbLookup(TlbLoad(t, pid, n, f).tlb, pid, n) == f
  {
    var e := FindEmpty(t.tlb, 0);
    var k := if e < |t.tlb| then e else Oldest(t.tlb, 0, 0, t.accesos);
    var now := TlbLoad(t, pid, n, f).tlb;
    assert now[k] == TlbEntry(n, f, pid, t.accesos % WORD);
    assert FindTlb(now, pid, n, 0) <= k;
  }

  /** A page the TLB did not know takes the first free entry or, when all are live, the first of those
      with the least stamp; every other entry stays. */
  lemma EntryGivenUp(t: Tables, pid: nat, n: nat, f: nat, marcos: nat) returns (k: nat)
    requires Inv(t, marcos) && t.tlb != []
    ensures k < |t.tlb| && TlbLoad(t, pid, n, f) == t.(tlb := t.tlb[k := TlbEntry(n, f, pid, t.accesos % WORD)])
    ensures if exists e :: 0 <= e < |t.tlb| && t.tlb[e].pid == 0
            then t.tlb[k].pid == 0 && forall e :: 0 <= e < k ==> t.tlb[e].pid != 0
            else forall e :: 0 <= e < |t.tlb| ==> t.tlb[k].ultimo <= t.tlb[e].ultimo
                                                  && (e < k ==> t.tlb[k].ultimo < t.tlb[e].ultimo)
  {
    TlbVictimIsOldest(t, marcos);
    var e := FindEmpty(t.tlb, 0);
    k := if e < |t.tlb| then e else Oldest(t.tlb, 0, 0, t.accesos);
  }

  /** After either the TLB knows the page. */
  lemma ThenTlbKnows(t: Tables, r: Request, a: Algorithm, marcos: nat)
    requires Inv(t, marcos) && (r.Leer? || r.Escribir?) && r.pid != 0 && Lookup(t.procs, r.pid, r.nro) > -1
    requires t.tlb != []
    ensures TlbLookup(Serve(t, r, a, marcos).tlb, r.pid, r.nro) == Lookup(t.procs, r.pid, r.nro)
  {
    var f := Lookup(t.procs, r.pid, r.nro);
    if TlbLookup(t.tlb, r.pid, r.nro) > -1 {
      TlbAgrees(t, marcos, r.pid, r.nro);
      TouchFinds(if r.Leer? then Access(t, f) else Modify(Access(t, f), f), r.pid, f, r.pid, r.nro);
    } else {
      var t1 := if r.Leer? then Access(t, f) else t;
      LoadFinds(t1, r.pid, r.nro, f);
      TouchFinds(TlbLoad(t1, r.pid, r.nro, f), r.pid, f, r.pid, r.nro);
    }
  }

  // ---------------------------------------------------------------- pages that are brought in

  /** A page brought into a free frame gets the lowest one, where the process's pointer goes when
      it is its first; the process is charged for it and nothing else changes. */
  lemma FreshFrame(t: Tables, i: nat, n: nat, a: Algorithm, marcos: nat) returns (j: nat)
    requires Inv(t, marcos) && QuotaOk(marcos) && i < |t.procs|
    requires n < |t.procs[i].pages| && !t.procs[i].pages[n].status.M?
    requires t.procs[i].cantFrames < marcos && exists x :: 0 <= x < |t.frames| && t.frames[x].pid == 0
    ensures j < |t.frames| && t.frames[j].pid == 0 && forall x :: 0 <= x < j ==> t.frames[x].pid != 0
    ensures var p := t.procs[i];
            var p' := p.(cantFrames := p.cantFrames + 1,
                         indice := if p.cantFrames == 0 then j else p.indice,
                         pages := p.pages[n := PageEntry(j, n, M)]);
            Load(t, i, n, a, marcos)
            == Loaded(Tables(t.frames[j := Frame(p.pid, true, false)], t.procs[i := p'], t.tlb, t.accesos + 1), true, j)
  {
    j := FindFree(t.frames, 0);
    var p := FreeLoadKeeps(t, i, n, j, marcos);
    FreeLoadIs(t, i, n, a, marcos);
  }

  /** When the quota allows but no frame is free, the process is charged, the page goes nowhere, and
      the last frame of the list, whosever it is, is taken for used. */
  lemma ChargedFrame(t: Tables, i: nat, n: nat, a: Algorithm, marcos: nat)
    requires Inv(t, marcos) && QuotaOk(marcos) && i < |t.procs| && 0 < t.procs[i].cantFrames < marcos
    requires forall x :: 0 <= x < |t.frames| ==> t.frames[x].pid != 0
    ensures var p, z := t.procs[i], |t.frames| - 1;
            && z >= 0
            && Load(t, i, n, a, marcos)
               == Loaded(Tables(t.frames[z := Frame(t.frames[z].pid, true, t.frames[z].mod)],
                                t.procs[i := p.(cantFrames := p.cantFrames + 1)], t.tlb, t.accesos + 1), true, -1)
  {
    assert ProcOk(t.frames, t.procs[i], marcos);
    ChargeLoadIs(t, i, n, a, marcos);
  }

  lemma VictimMods(f: Frames, pid: nat, start: nat, a: Algorithm)
    requires start < |f| && Owned(f, pid) >= 1
    ensures var g := Victim(f, pid, start, a).frames;
            |g| == |f| && forall x :: 0 <= x < |f| ==> g[x].mod == f[x].mod && g[x].pid == f[x].pid
  {
    OwnedSome(f, pid);
    if a.CLOCK? {
      ClockIsBest(f, pid, start);
      ClockSweeps(f, pid, start);
    } else {
      EnhancedIsBest(f, pid, start);
      EnhancedSweeps(f, pid, start);
    }
  }

  /** Replacement leaves the victim's frame referenced and clean, and the others as the search did. */
  lemma ReplaceFrames(t: Tables, i: nat, n: nat, a: Algorithm, marcos: nat)
    requires Inv(t, marcos) && i < |t.procs| && t.procs[i].cantFrames >= 1
    ensures t.procs[i].indice < |t.frames|
    ensures var p := t.procs[i];
            var c, (r, v) := Victim(t.frames, p.pid, p.indice, a), Replace(t, i, n, a);
            && v == c.victim < |c.frames| == |t.frames| && r.frames == c.frames[v := Frame(p.pid, true, false)]
            && r.tlb == TlbDropFrame(t.tlb, v) && r.accesos == t.accesos + if c.frames[v].mod then 2 else 1
  {
    var p := t.procs[i];
    assert ProcOk(t.frames, p, marcos);
    VictimOwn(t.frames, p.pid, p.indice, a);
    var c := Victim(t.frames, p.pid, p.indice, a);
    var next := NextOwned(c.frames, p.pid, c.victim);
    NextIsOwn(t.frames, c.frames, p.pid, c.victim);
    var g, k := EvictIs(t.(frames := c.frames, procs := t.procs[i := p.(indice := next)]), i, c.victim, n);
  }

  /** However a page is brought in, its frame starts referenced and unmodified, and no other frame
      changes hands or its modified bit. */
  lemma LoadFrames(t: Tables, i: nat, n: nat, a: Algorithm, marcos: nat)
    requires Inv(t, marcos) && QuotaOk(marcos) && i < |t.procs|
    requires n < |t.procs[i].pages| && !t.procs[i].pages[n].status.M?
    ensures var l := Load(t, i, n, a, marcos);
            && |l.t.frames| == |t.frames|
            && forall x :: 0 <= x < |t.frames| ==>
                 if x == l.frame then l.t.frames[x] == Frame(t.procs[i].pid, true, false)
                 else l.t.frames[x].pid == t.frames[x].pid && l.t.frames[x].mod == t.frames[x].mod
  {
    var p := t.procs[i];
    assert ProcOk(t.frames, p, marcos);
    if p.cantFrames == marcos {
      ReplaceFrames(t, i, n, a, marcos);
      VictimMods(t.frames, p.pid, p.indice, a);
    } else if FindFree(t.frames, 0) < |t.frames| {
      FreeLoadIs(t, i, n, a, marcos);
    } else if p.cantFrames > 0 {
      ChargeLoadIs(t, i, n, a, marcos);
    }
  }

  // ---------------------------------------------------------------- which frames are modified

  function Step(t: Tables, r: Request, a: Algorithm, marcos: nat): Tables {
    if Allowed(t, r) then Serve(t, r, a, marcos) else t
  }

  /** Frame `x` is written while the page is in it, or memory is flushed. */
  predicate Dirties(t: Tables, r: Request, x: nat) {
    r.FlushMemoria? || (r.Escribir? && Allowed(t, r) && Lookup(t.procs, r.pid, r.nro) == x)
  }

  /** A page that was out is in frame `x` afterwards. */
  predicate BringsIn(t: Tables, r: Request, x: nat, a: Algorithm, marcos: nat) {
    && (r.Leer? || r.Escribir?) && Allowed(t, r) && Lookup(t.procs, r.pid, r.nro) == NO_EN_MEMORIA
    && Lookup(Serve(t, r, a, marcos).procs, r.pid, r.nro) == x
  }

  lemma NotInTlb(t: Tables, pid: nat, n: nat, marcos: nat)
    requires Inv(t, marcos) && pid != 0 && Lookup(t.procs, pid, n) < 0
    ensures TlbLookup(t.tlb, pid, n) == NO_EN_MEMORIA
  {
    if TlbLookup(t.tlb, pid, n) > -1 {
      TlbAgrees(t, marcos, pid, n);
    }
  }

  /** A request for a page that is out, as a load. */
  lemma FaultIs(t: Tables, r: Request, a: Algorithm, marcos: nat) returns (i: nat)
    requires Inv(t, marcos) && QuotaOk(marcos) && (r.Leer? || r.Escribir?) && Allowed(t, r)
    requires Lookup(t.procs, r.pid, r.nro) == NO_EN_MEMORIA
    ensures i < |t.procs| && t.procs[i].pid == r.pid != 0 && i == FindProc(t.procs, r.pid, 0)
    ensures r.nro < |t.procs[i].pages| && !t.procs[i].pages[r.nro].status.M?
    ensures var l, s := Load(t, i, r.nro, a, marcos), Serve(t, r, a, marcos);
            && s.procs == l.t.procs && s.tlb == l.t.tlb
            && s.accesos == l.t.accesos + (if r.Leer? == l.ok then 1 else 0)
            && (s.frames == l.t.frames || (l.frame > -1 && s.frames == SetRef(l.t.frames, l.frame)))
  {
    AllowedPid(t, r, marcos);
    i := FindProc(t.procs, r.pid, 0);
    LookupIs(t, marcos, i, r.nro);
    NotInTlb(t, r.pid, r.nro, marcos);
  }

  lemma FaultMods(t: Tables, r: Request, x: nat, a: Algorithm, marcos: nat)
    requires Inv(t, marcos) && QuotaOk(marcos) && x < |t.frames| && (r.Leer? || r.Escribir?) && Allowed(t, r)
    requires Lookup(t.procs, r.pid, r.nro) == NO_EN_MEMORIA
    ensures var s := Serve(t, r, a, marcos).frames;
            |s| == |t.frames| && (s[x].mod <==> !BringsIn(t, r, x, a, marcos) && t.frames[x].mod)
  {
    var i := FaultIs(t, r, a, marcos);
    LoadFrames(t, i, r.nro, a, marcos);
    LoadKeeps(t, i, r.nro, a, marcos);
  }

  /** What one request does to the modified bit of a frame. */
  lemma ModStep(t: Tables, r: Request, x: nat, a: Algorithm, marcos: nat)
    requires Inv(t, marcos) && QuotaOk(marcos) && x < |t.frames|
    ensures var s := Step(t, r, a, marcos).frames;
            && |s| == |t.frames|
            && (s[x].mod <==> !BringsIn(t, r, x, a, marcos) && (Dirties(t, r, x) || t.frames[x].mod))
  {
    if (r.Leer? || r.Escribir?) && Allowed(t, r) {
      AllowedPid(t, r, marcos);
      var f := Lookup(t.procs, r.pid, r.nro);
      if f > -1 {
        if r.Leer? { ReadEffect(t, r.pid, r.nro, a, marcos); } else { WriteEffect(t, r.pid, r.nro, a, marcos); }
      } else if f == NO_EN_MEMORIA {
        FaultMods(t, r, x, a, marcos);
      } else {
        LookupIs(t, marcos, FindProc(t.procs, r.pid, 0), r.nro);
        NotInTlb(t, r.pid, r.nro, marcos);
      }
    }
  }

  /** Some request of the run dirtied the frame, and none after it brought a page into it. */
  ghost predicate DirtySince(t: Tables, rs: seq<Request>, x: nat, a: Algorithm, marcos: nat) {
    exists k :: 0 <= k < |rs| && LastlyDirtied(t, rs, k, x, a, marcos)
  }

  ghost predicate LastlyDirtied(t: Tables, rs: seq<Request>, k: nat, x: nat, a: Algorithm, marcos: nat)
    requires k < |rs|
  {
    && Dirties(Exec(t, rs[..k], a, marcos), rs[k], x)
    && forall j :: k < j < |rs| ==> !BringsIn(Exec(t, rs[..j], a, marcos), rs[j], x, a, marcos)
  }

  lemma {:induction false} ExecMore(t: Tables, rs: seq<Request>, r: Request, a: Algorithm, marcos: nat)
    ensures Exec(t, rs + [r], a, marcos) == Step(Exec(t, rs, a, marcos), r, a, marcos)
    decreases |rs|
  {
    var run := rs + [r];
    if rs == [] {
      assert run[1..] == [];
    } else {
      assert run[0] == rs[0] && run[1..] == rs[1..] + [r];
      ExecMore(Step(t, rs[0], a, marcos), rs[1..], r, a, marcos);
    }
  }

  lemma DirtyMore(t: Tables, rs: seq<Request>, r: Request, x: nat, a: Algorithm, marcos: nat)
    ensures var s := Exec(t, rs, a, marcos);
            DirtySince(t, rs + [r], x, a, marcos)
            <==> Dirties(s, r, x) || (DirtySince(t, rs, x, a, marcos) && !BringsIn(s, r, x, a, marcos))
  {
    var run, n := rs + [r], |rs|;
    assert run[..n] == rs && run[n] == r;
    assert forall k :: 0 <= k < n ==> run[..k] == rs[..k] && run[k] == rs[k];
    forall k | 0 <= k < n
      ensures LastlyDirtied(t, run, k, x, a, marcos)
              <==> LastlyDirtied(t, rs, k, x, a, marcos) && !BringsIn(Exec(t, rs, a, marcos), r, x, a, marcos)
    {
    }
    assert LastlyDirtied(t, run, n, x, a, marcos) <==> Dirties(Exec(t, rs, a, marcos), r, x);
  }

  lemma {:induction false} ModifiedSince(t: Tables, rs: seq<Request>, x: nat, a: Algorithm, marcos: nat)
    requires Inv(t, marcos) && QuotaOk(marcos) && x < |t.frames| && !t.frames[x].mod
    ensures var s := Exec(t, rs, a, marcos).frames;
            |s| == |t.frames| && (s[x].mod <==> DirtySince(t, rs, x, a, marcos))
    decreases |rs|
  {
    if rs != [] {
      var n := |rs| - 1;
      assert rs == rs[..n] + [rs[n]];
      ModifiedSince(t, rs[..n], x, a, marcos);
      ExecKeeps(t, rs[..n], a, marcos);
      ExecMore(t, rs[..n], rs[n], a, marcos);
      ModStep(Exec(t, rs[..n], a, marcos), rs[n], x, a, marcos);
      DirtyMore(t, rs[..n], rs[n], x, a, marcos);
    }
  }

  /** Over every run a frame is modified exactly when it was written while the page was in it, or
      memory was flushed, and no page has been brought into it since. */
  lemma ModifiedIff(frames: nat, entries: nat, rs: seq<Request>, x: nat, a: Algorithm, marcos: nat)
    requires QuotaOk(marcos) && x < frames
    ensures var t := Initial(frames, entries);
            && |Exec(t, rs, a, marcos).frames| == frames
            && (Exec(t, rs, a, marcos).frames[x].mod <==> DirtySince(t, rs, x, a, marcos))
  {
    assert Inv(Initial(frames, entries), marcos);
    ModifiedSince(Initial(frames, entries), rs, x, a, marcos);
  }

  // ---------------------------------------------------------------- what the TLB forgets

  /** A lookup once some entries are killed. */
  lemma KilledLookup(t: Tables, less: seq<TlbEntry>, marcos: nat, q: nat, m: nat)
    requires Inv(t, marcos) && q != 0 && |less| == |t.tlb|
    requires forall k :: 0 <= k < |less| ==> less[k] == t.tlb[k] || less[k] == t.tlb[k].(pid := 0)
    ensures var k := FindTlb(t.tlb, q, m, 0);
            TlbLookup(less, q, m) == if k < |less| && less[k] == t.tlb[k] then t.tlb[k].frame else NO_EN_MEMORIA
  {
    var k, j := FindTlb(t.tlb, q, m, 0), FindTlb(less, q, m, 0);
    if j < |less| {
      assert less[j] == t.tlb[j] && k <= j;
      assert k < j ==> SameKey(t.tlb[k], t.tlb[j]);
    }
    assert k < |less| && less[k] == t.tlb[k] ==> j <= k;
  }

  /** When a CPU switches, the TLB knows no page of the process that leaves, and what it knew of the
      others; nothing else changes. */
  lemma SwitchForgets(t: Tables, activo: nat, a: Algorithm, marcos: nat, q: nat, m: nat)
    requires Inv(t, marcos) && q != 0
    ensures var r := Serve(t, Cambio(activo), a, marcos);
            && TlbLookup(r.tlb, q, m) == (if q == activo then NO_EN_MEMORIA else TlbLookup(t.tlb, q, m))
            && |r.tlb| == |t.tlb| && r == t.(tlb := r.tlb)
  {
    KilledLookup(t, TlbDropPid(t.tlb, activo), marcos, q, m);
  }

  /** A flush leaves it knowing nothing. */
  lemma FlushForgets(t: Tables, a: Algorithm, marcos: nat, q: nat, m: nat)
    requires Inv(t, marcos) && q != 0
    ensures var r := Serve(t, FlushTlb, a, marcos);
            TlbLookup(r.tlb, q, m) == NO_EN_MEMORIA && |r.tlb| == |t.tlb| && r == t.(tlb := r.tlb)
  {
    KilledLookup(t, TlbFlush(t.tlb), marcos, q, m);
  }

  /** A load out of the quota: one access to write the page, one more to read a victim that is modified;
      the TLB forgets the pages of the victim's frame, and no other. */
  lemma ReplaceCounts(t: Tables, i: nat, n: nat, a: Algorithm, marcos: nat, q: nat, m: nat)
    requires Inv(t, marcos) && QuotaOk(marcos) && i < |t.procs| && t.procs[i].cantFrames == marcos && q != 0
    ensures var l, known := Load(t, i, n, a, marcos), TlbLookup(t.tlb, q, m);
            && 0 <= l.frame < |t.frames|
            && l.t.accesos == t.accesos + (if t.frames[l.frame].mod then 2 else 1)
            && TlbLookup(l.t.tlb, q, m) == if known == l.frame then NO_EN_MEMORIA else known
  {
    var p := t.procs[i];
    assert ProcOk(t.frames, p, marcos);
    ReplaceFrames(t, i, n, a, marcos);
    VictimMods(t.frames, p.pid, p.indice, a);
    KilledLookup(t, Load(t, i, n, a, marcos).t.tlb, marcos, q, m);
  }

  /** A load within it costs one access, unless no frame is there at all, and leaves the TLB alone. */
  lemma LoadCounts(t: Tables, i: nat, n: nat, a: Algorithm, marcos: nat)
    requires Inv(t, marcos) && QuotaOk(marcos) && i < |t.procs| && t.procs[i].cantFrames < marcos
    ensures var l, room := Load(t, i, n, a, marcos), exists y :: 0 <= y < |t.frames| && t.frames[y].pid == 0;
            && l.t.tlb == t.tlb && (l.ok <==> room || t.procs[i].cantFrames > 0)
            && l.t.accesos == t.accesos + if l.ok then 1 else 0
  {
    if FindFree(t.frames, 0) < |t.frames| {
      FreeLoadIs(t, i, n, a, marcos);
    } else if t.procs[i].cantFrames > 0 {
      ChargeLoadIs(t, i, n, a, marcos);
    }
  }

  /** What a request for a page that is out costs and leaves in the TLB: its load, and one access more
      for a read that succeeds or a write that does not. */
  lemma FaultCounts(t: Tables, r: Request, a: Algorithm, marcos: nat, q: nat, m: nat)
    requires Inv(t, marcos) && QuotaOk(marcos) && (r.Leer? || r.Escribir?) && Allowed(t, r) && q != 0
    requires Lookup(t.procs, r.pid, r.nro) == NO_EN_MEMORIA
    ensures var s, x := Serve(t, r, a, marcos), Lookup(Serve(t, r, a, marcos).procs, r.pid, r.nro);
            var charged, known := t.procs[FindProc(t.procs, r.pid, 0)].cantFrames, TlbLookup(t.tlb, q, m);
            var room := exists y :: 0 <= y < |t.frames| && t.frames[y].pid == 0;
            if charged == marcos then
              && 0 <= x < |t.frames|
              && s.accesos == t.accesos + (if r.Leer? then 2 else 1) + (if t.frames[x].mod then 1 else 0)
              && TlbLookup(s.tlb, q, m) == if known == x then NO_EN_MEMORIA else known
            else
              && s.tlb == t.tlb
              && s.accesos == t.accesos + if room || charged > 0 then (if r.Leer? then 2 else 1)
                                          else if r.Leer? then 0 else 1
  {
    var i := FaultIs(t, r, a, marcos);
    assert ProcOk(t.frames, t.procs[i], marcos);
    if t.procs[i].cantFrames == marcos {
      LoadKeeps(t, i, r.nro, a, marcos);
      ReplaceCounts(t, i, r.nro, a, marcos, q, m);
    } else {
      LoadCounts(t, i, r.nro, a, marcos);
    }
  }

  /** An eviction makes it forget the pages of that frame, and no other. */
  lemma EvictForgets(t: Tables, i: nat, v: nat, n: nat, marcos: nat, q: nat, m: nat)
    requires Inv(t, marcos) && i < |t.procs| && v < |t.frames| && q != 0
    ensures var known := TlbLookup(t.tlb, q, m);
            TlbLookup(Evict(t, i, v, n).tlb, q, m) == if known == v then NO_EN_MEMORIA else known
  {
    var g, k := EvictIs(t, i, v, n);
    KilledLookup(t, TlbDropFrame(t.tlb, v), marcos, q, m);
  }

  /** A flush of memory marks every frame as modified and changes nothing else. */
  lemma FlushMarks(t: Tables, a: Algorithm, marcos: nat)
    ensures var r := Serve(t, FlushMemoria, a, marcos);
            && r == t.(frames := r.frames) && |r.frames| == |t.frames|
            && forall x :: 0 <= x < |t.frames| ==> r.frames[x] == Frame(t.frames[x].pid, t.frames[x].ref, true)
  {
    var r := Serve(t, FlushMemoria, a, marcos);
    forall x | 0 <= x < |t.frames| ensures r.frames[x] == Frame(t.frames[x].pid, t.frames[x].ref, true) {
      assert r.frames[x] == t.frames[x].(mod := true);
    }
  }

  // ---------------------------------------------------------------- processes that come and go

  /** A new process has exactly the pages 0 to n-1, all out, and no frame; the others keep theirs. */
  lemma BeginIs(t: Tables, pid: nat, n: nat, a: Algorithm, marcos: nat, q: nat, m: nat)
    requires Inv(t, marcos) && Allowed(t, Iniciar(pid, n))
    ensures var r := Serve(t, Iniciar(pid, n), a, marcos);
            && Lookup(r.procs, q, m)
               == (if q != pid then Lookup(t.procs, q, m) else if m < n then NO_EN_MEMORIA else OVERFLOW)
            && r == t.(procs := r.procs) && Owned(r.frames, pid) == 0
            && |r.procs| == |t.procs| + 1 && |r.procs[|t.procs|].pages| == n
            && forall k :: 0 <= k < n ==> r.procs[|t.procs|].pages[k] == PageEntry(|t.frames| + 1, k, S)
  {
    BeginKeeps(t, pid, n, marcos);
    var r := Begin(t, pid, n);
    OwnedNone(t.frames, pid);
    var k := |t.procs|;
    assert r.procs[k].pid == pid;
    if q == pid {
      LookupIs(r, marcos, k, m);
    } else if FindProc(t.procs, q, 0) < k {
      FindProcLonger(t.procs, r.procs[k], q);
    }
  }

  /** A program that has ended, or has asked for a page it does not have, has no entry, no frame and
      no live TLB entry. */
  lemma EndsAllOfIt(t: Tables, r: Request, a: Algorithm, marcos: nat)
    requires Inv(t, marcos) && QuotaOk(marcos) && Allowed(t, r) && (r.Terminar? || r.Leer? || r.Escribir?)
    requires !r.Terminar? ==> Lookup(t.procs, r.pid, r.nro) == OVERFLOW
    ensures var s := Serve(t, r, a, marcos);
            && (forall k :: 0 <= k < |s.procs| ==> s.procs[k].pid != r.pid)
            && (forall x :: 0 <= x < |s.frames| ==> s.frames[x].pid != r.pid)
            && (forall e :: 0 <= e < |s.tlb| ==> s.tlb[e].pid != r.pid)
            && |s.procs| == |t.procs| - 1 && |s.frames| == |t.frames| && |s.tlb| == |t.tlb|
  {
    var i := FindProc(t.procs, r.pid, 0);
    assert ProcOk(t.frames, t.procs[i], marcos);
    if !r.Terminar? {
      LookupIs(t, marcos, i, r.nro);
      NotInTlb(t, r.pid, r.nro, marcos);
    }
    WithoutProc(t.procs, i);
  }
}
