/** Pages keep the number of a frame they have lost, and frames may be charged that are not given:
    what becomes of residence in the memory unit, with the runs that show it. */
module UmcSharing {
  import opened UmcClock
  import opened UmcTables
  import opened UmcSafety

  // ---------------------------------------------------------------- stale frame numbers

  /** Page `j` of the process counts as resident in frame `v`. */
  predicate ResidentIn(pages: seq<PageEntry>, j: nat, v: nat)
    requires j < |pages|
  {
    pages[j].status.M? && pages[j].frame == v
  }

  predicate Numbered(pages: seq<PageEntry>) {
    forall j :: 0 <= j < |pages| ==> pages[j].nro == j
  }

  lemma NumberedFinds(pages: seq<PageEntry>, n: nat)
    requires Numbered(pages) && n < |pages|
    ensures FindPage(pages, n, 0) == n
  {
    assert pages[n].nro == n;
  }

  /** Page `n` is the only one resident in frame `v`. */
  ghost predicate Alone(pages: seq<PageEntry>, n: nat, v: nat) {
    forall j :: 0 <= j < |pages| && ResidentIn(pages, j, v) ==> j == n
  }

  /** The pages after an eviction, one by one. */
  lemma EvictedPages(was: seq<PageEntry>, n: nat, v: nat)
    requires Numbered(was) && n < |was|
    ensures var now, f := NewPage(OldPage(was, v), n, v), FindFrame(was, v, 0);
            && |now| == |was| && ResidentIn(now, n, v)
            && forall j :: 0 <= j < |was| && j != n ==> (ResidentIn(now, j, v) <==> j != f && ResidentIn(was, j, v))
  {
    var once := OldPage(was, v);
    assert Numbered(once);
    NumberedFinds(once, n);
  }

  lemma MarkTwice(pages: seq<PageEntry>, v: nat)
    ensures OldPage(OldPage(pages, v), v) == OldPage(pages, v)
  {
    var once, f := OldPage(pages, v), FindFrame(pages, v, 0);
    assert |once| == |pages| && forall j :: 0 <= j < |pages| ==> once[j].frame == pages[j].frame;
    var g := FindFrame(once, v, 0);
    assert f < |pages| ==> once[f].frame == v;
    assert g < |pages| ==> pages[g].frame == v;
    assert f == g;
  }

  lemma InvNumbered(t: Tables, i: nat, marcos: nat)
    requires Inv(t, marcos) && i < |t.procs|
    ensures Numbered(t.procs[i].pages)
  {
    assert ProcOk(t.frames, t.procs[i], marcos);
    forall j | 0 <= j < |t.procs[i].pages| ensures t.procs[i].pages[j].nro == j {
      assert PageOk(t.frames, t.procs[i].pid, t.procs[i].pages, j);
    }
  }

  /** Eviction looks for the page to mark by its frame number alone, and pages keep the number
      of a frame they have lost.  The new page ends as the frame's only resident page exactly
      when no page but the first with that number was resident there. */
  lemma EvictAloneIff(t: Tables, i: nat, v: nat, n: nat, marcos: nat)
    requires Inv(t, marcos) && i < |t.procs| && v < |t.frames|
    requires n < |t.procs[i].pages| && !t.procs[i].pages[n].status.M?
    ensures var was, now := t.procs[i].pages, Evict(t, i, v, n).procs[i].pages;
            && |now| == |was| && ResidentIn(now, n, v)
            && (Alone(now, n, v) <==> Alone(was, FindFrame(was, v, 0), v))
  {
    var was := t.procs[i].pages;
    var g, k := EvictIs(t, i, v, n);
    MarkTwice(was, v);
    InvNumbered(t, i, marcos);
    EvictedPages(was, n, v);
    assert !ResidentIn(was, n, v);
  }

  // ---------------------------------------------------------------- runs that show it

  /** A memory of one frame, held by process 1 and referenced. */
  function OneFrame(pages: seq<PageEntry>, tlb: seq<TlbEntry>, accesos: nat): Tables {
    Tables([Frame(1, true, false)], [Proc(1, 1, 0, pages)], tlb, accesos)
  }

  predicate NoneLive(tlb: seq<TlbEntry>) {
    forall i :: 0 <= i < |tlb| ==> tlb[i].pid == 0
  }

  lemma OneFrameVictim(a: Algorithm)
    ensures Victim([Frame(1, true, false)], 1, 0, a) == Choice(0, [Frame(1, false, false)])
    ensures NextOwned([Frame(1, false, false)], 1, 0) == 0
  {
    var f := [Frame(1, true, false)];
    assert FirstFrom(f, 1, 0, 0, Any) == 0;
    assert ClearRefs(f, 1, 0, 1) == [Frame(1, false, false)];
  }

  lemma OneFrameEvict(pages: seq<PageEntry>, tlb: seq<TlbEntry>, n: nat, accesos: nat)
    requires NoneLive(tlb)
    ensures Evict(Tables([Frame(1, false, false)], [Proc(1, 1, 0, pages)], tlb, accesos), 0, 0, n)
            == OneFrame(NewPage(OldPage(pages, 0), n, 0), tlb, accesos + 1)
  {
    var e := Evict(Tables([Frame(1, false, false)], [Proc(1, 1, 0, pages)], tlb, accesos), 0, 0, n);
    assert e.procs == [Proc(1, 1, 0, NewPage(OldPage(pages, 0), n, 0))];
    assert TlbDropFrame(tlb, 0) == tlb;
    assert e.frames == [Frame(1, true, false)];
  }

  lemma OneFrameReplace(
    pages: seq<PageEntry>, tlb: seq<TlbEntry>, n: nat, accesos: nat, a: Algorithm)
    requires NoneLive(tlb)
    ensures Replace(OneFrame(pages, tlb, accesos), 0, n, a)
            == (OneFrame(NewPage(OldPage(pages, 0), n, 0), tlb, accesos + 1), 0)
  {
    OneFrameVictim(a);
    OneFrameEvict(pages, tlb, n, accesos);
    assert [Proc(1, 1, 0, pages)][0 := Proc(1, 1, 0, pages)] == [Proc(1, 1, 0, pages)];
  }

  lemma NotInTlb(tlb: seq<TlbEntry>, n: nat)
    requires NoneLive(tlb)
    ensures TlbLookup(tlb, 1, n) == -1
  {
  }

  /** There every read of a page that is out replaces the frame. */
  lemma {:induction false} OneFrameRead(pages: seq<PageEntry>, tlb: seq<TlbEntry>, n: nat, accesos: nat, a: Algorithm)
    requires NoneLive(tlb) && n < |pages| && FindPage(pages, n, 0) == n && !pages[n].status.M?
    ensures Solicitar(OneFrame(pages, tlb, accesos), 1, n, a, 1)
            == OneFrame(NewPage(OldPage(pages, 0), n, 0), tlb, accesos + 2)
  {
    var t := OneFrame(pages, tlb, accesos);
    NotInTlb(tlb, n);
    assert Lookup(t.procs, 1, n) == NO_EN_MEMORIA;
    assert FindFree(t.frames, 0) == 1;
    OneFrameReplace(pages, tlb, n, accesos, a);
    var e := OneFrame(NewPage(OldPage(pages, 0), n, 0), tlb, accesos + 1);
    assert Load(t, 0, n, a, 1) == Loaded(e, true, 0);
    assert Access(e, 0).frames == e.frames;
  }

  /** Reading page `n` there marks page 0, the first with the frame's number, and no other. */
  lemma NextRead(
    was: seq<PageEntry>, now: seq<PageEntry>, tlb: seq<TlbEntry>, n: nat, accesos: nat, a: Algorithm)
    requires NoneLive(tlb) && 1 <= n < |was| && Numbered(was) && !was[n].status.M?
    requires was[0].frame == 0 && now == was[0 := PageEntry(0, 0, S)][n := PageEntry(0, n, M)]
    ensures Serve(OneFrame(was, tlb, accesos), Leer(1, n), a, 1) == OneFrame(now, tlb, accesos + 2)
  {
    var once := was[0 := PageEntry(0, 0, S)];
    NumberedFinds(was, n);
    assert FindFrame(was, 0, 0) == 0 && OldPage(was, 0) == once;
    NumberedFinds(once, n);
    assert NewPage(once, n, 0) == now;
    OneFrameRead(was, tlb, n, accesos, a);
  }

  /** A process started in a memory of one frame. */
  function Started(pages: seq<PageEntry>, tlb: seq<TlbEntry>): Tables {
    Tables([Frame(0, false, false)], [Proc(1, 0, 0, pages)], tlb, 0)
  }

  lemma StartedIs(n: nat, entries: nat, a: Algorithm, marcos: nat)
    ensures Serve(Initial(1, entries), Iniciar(1, n), a, marcos) == Started(NewPages(n, 2), Initial(1, entries).tlb)
    ensures NoneLive(Initial(1, entries).tlb) && Numbered(NewPages(n, 2))
  {
    assert Initial(1, entries).frames == [Frame(0, false, false)];
  }

  /** The first read takes the free frame. */
  lemma FirstLoad(pages: seq<PageEntry>, tlb: seq<TlbEntry>, a: Algorithm, marcos: nat)
    requires NoneLive(tlb) && Numbered(pages) && pages != [] && !pages[0].status.M? && QuotaOk(marcos)
    ensures Serve(Started(pages, tlb), Leer(1, 0), a, marcos) == OneFrame(pages[0 := PageEntry(0, 0, M)], tlb, 2)
  {
    var t := Started(pages, tlb);
    NumberedFinds(pages, 0);
    NotInTlb(tlb, 0);
    assert Lookup(t.procs, 1, 0) == NO_EN_MEMORIA;
    var l := Load(t, 0, 0, a, marcos);
    assert l.ok && l.frame == 0 && l.t.procs == [Proc(1, 1, 0, pages[0 := PageEntry(0, 0, M)])];
    assert l.t.frames == [Frame(1, true, false)];
    assert Access(l.t, 0).frames == l.t.frames;
  }

  /** A process of `n` pages whose first page has taken the only frame. */
  lemma FirstOf(n: nat, entries: nat, a: Algorithm, marcos: nat)
    requires n > 0 && QuotaOk(marcos)
    ensures var tlb := Initial(1, entries).tlb;
            && NoneLive(tlb) && Numbered(NewPages(n, 2))
            && Serve(Serve(Initial(1, entries), Iniciar(1, n), a, marcos), Leer(1, 0), a, marcos)
               == OneFrame(NewPages(n, 2)[0 := PageEntry(0, 0, M)], tlb, 2)
  {
    StartedIs(n, entries, a, marcos);
    FirstLoad(NewPages(n, 2), Initial(1, entries).tlb, a, marcos);
  }

  lemma {:induction false} ExecConcat(t: Tables, rs: seq<Request>, qs: seq<Request>, a: Algorithm, marcos: nat)
    ensures Exec(t, rs + qs, a, marcos) == Exec(Exec(t, rs, a, marcos), qs, a, marcos)
    decreases |rs|
  {
    if rs == [] {
      assert rs + qs == qs;
    } else {
      assert (rs + qs)[0] == rs[0] && (rs + qs)[1..] == rs[1..] + qs;
      ExecConcat(if Allowed(t, rs[0]) then Serve(t, rs[0], a, marcos) else t, rs[1..], qs, a, marcos);
    }
  }

  lemma ExecOne(t: Tables, r: Request, a: Algorithm, marcos: nat)
    requires Allowed(t, r)
    ensures Exec(t, [r], a, marcos) == Serve(t, r, a, marcos)
  {
    assert [r][1..] == [];
  }

  lemma ExecThen(t: Tables, rs: seq<Request>, u: Tables, r: Request, a: Algorithm, marcos: nat)
    requires Exec(t, rs, a, marcos) == u && Allowed(u, r)
    ensures Exec(t, rs + [r], a, marcos) == Serve(u, r, a, marcos)
  {
    ExecConcat(t, rs, [r], a, marcos);
    ExecOne(u, r, a, marcos);
  }

  lemma OneFrameAllows(pages: seq<PageEntry>, tlb: seq<TlbEntry>, accesos: nat, n: nat)
    ensures Allowed(OneFrame(pages, tlb, accesos), Leer(1, n)) && Allowed(Started(pages, tlb), Leer(1, n))
  {
  }

  /** A process of `n` pages in a memory of one frame reads the first `m` of them. */
  function Crowding(n: nat, m: nat): seq<Request> {
    if m == 0 then [Iniciar(1, n)] else Crowding(n, m - 1) + [Leer(1, m - 1)]
  }

  /** Its pages then: all it has read but the first count as resident in the frame. */
  function Crowded(n: nat, m: nat): seq<PageEntry> {
    seq(n, j requires 0 <= j =>
      if j >= m then PageEntry(2, j, S) else if j == 0 && m > 1 then PageEntry(0, 0, S) else PageEntry(0, j, M))
  }

  /** Every page it has read, but the first, ends resident in the one frame there is. */
  lemma {:induction false} SharedFrame(n: nat, m: nat, entries: nat, a: Algorithm)
    requires 1 <= m <= n
    ensures var tlb := Initial(1, entries).tlb;
            NoneLive(tlb) && Exec(Initial(1, entries), Crowding(n, m), a, 1) == OneFrame(Crowded(n, m), tlb, 2 * m)
    decreases m
  {
    var t, tlb := Initial(1, entries), Initial(1, entries).tlb;
    if m == 1 {
      FirstOf(n, entries, a, 1);
      assert NewPages(n, 2)[0 := PageEntry(0, 0, M)] == Crowded(n, 1);
      StartedIs(n, entries, a, 1);
      ExecOne(t, Iniciar(1, n), a, 1);
      OneFrameAllows(NewPages(n, 2), tlb, 0, 0);
      assert Crowding(n, 0) == [Iniciar(1, n)];
      ExecThen(t, Crowding(n, 0), Started(NewPages(n, 2), tlb), Leer(1, 0), a, 1);
    } else {
      SharedFrame(n, m - 1, entries, a);
      var was, now := Crowded(n, m - 1), Crowded(n, m);
      assert now == was[0 := PageEntry(0, 0, S)][m - 1 := PageEntry(0, m - 1, M)];
      NextRead(was, now, tlb, m - 1, 2 * (m - 1), a);
      OneFrameAllows(was, tlb, 2 * (m - 1), m - 1);
      ExecThen(t, Crowding(n, m - 1), OneFrame(was, tlb, 2 * (m - 1)), Leer(1, m - 1), a, 1);
    }
  }

  /** With one frame and a quota of two the second page is charged for and stays out. */
  lemma ChargedForNothing(a: Algorithm)
    ensures var t1 := Serve(Initial(1, 0), Iniciar(1, 2), a, 2);
            var t2 := Serve(t1, Leer(1, 0), a, 2);
            var t3 := Serve(t2, Leer(1, 1), a, 2);
            t3.procs == [Proc(1, 2, 0, [PageEntry(0, 0, M), PageEntry(2, 1, S)])]
  {
    FirstOf(2, 0, a, 2);
    var pages := [PageEntry(0, 0, M), PageEntry(2, 1, S)];
    assert NewPages(2, 2)[0 := PageEntry(0, 0, M)] == pages;
    var t := OneFrame(pages, Initial(1, 0).tlb, 2);
    NumberedFinds(pages, 1);
    NotInTlb(t.tlb, 1);
    assert Lookup(t.procs, 1, 1) == NO_EN_MEMORIA && FindFree(t.frames, 0) == 1;
    assert Load(t, 0, 1, a, 2).t.procs == [Proc(1, 2, 0, pages)];
  }
}
