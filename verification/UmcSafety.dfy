/** What holds of the memory unit's tables in every reachable state: TLB and page tables agree,
    every resident page sits in a frame of its own process, and quotas are kept. */
module UmcSafety {
  import opened UmcClock
  import opened UmcTables

  // ---------------------------------------------------------------- the invariant

  function Owned(f: Frames, pid: nat): (n: nat)
    ensures n <= |f|
  {
    if f == [] then 0 else (if f[0].pid == pid then 1 else 0) + Owned(f[1..], pid)
  }

  ghost predicate PageOk(f: Frames, pid: nat, pages: seq<PageEntry>, j: nat)
    requires j < |pages|
  {
    && pages[j].nro == j
    && (pages[j].status.M? ==> pages[j].frame < |f| && f[pages[j].frame].pid == pid)
  }

  /** Quota and residence of one process. */
  ghost predicate ProcOk(f: Frames, p: Proc, marcos: nat) {
    && p.pid != 0
    && (forall j :: 0 <= j < |p.pages| ==> PageOk(f, p.pid, p.pages, j))
    && Owned(f, p.pid) <= p.cantFrames <= marcos
    && (p.cantFrames >= 1 ==> Owned(f, p.pid) >= 1 && p.indice < |f| && f[p.indice].pid == p.pid)
  }

  /** A live TLB entry names a resident page and its frame. */
  ghost predicate EntryOk(ps: seq<Proc>, e: TlbEntry) {
    e.pid != 0 ==>
      var i := FindProc(ps, e.pid, 0);
      && i < |ps| && e.nro < |ps[i].pages|
      && ps[i].pages[e.nro].status.M? && ps[i].pages[e.nro].frame == e.frame
  }

  ghost predicate SameKey(a: TlbEntry, b: TlbEntry) {
    a.pid != 0 && a.pid == b.pid && a.nro == b.nro
  }

  ghost predicate TlbOk(ps: seq<Proc>, tlb: seq<TlbEntry>, accesos: nat) {
    && (forall i :: 0 <= i < |tlb| ==> EntryOk(ps, tlb[i]))
    && (forall i :: 0 <= i < |tlb| ==> tlb[i].ultimo <= accesos)
    && (forall i, j :: 0 <= i < j < |tlb| ==> !SameKey(tlb[i], tlb[j]))
  }

  ghost predicate Inv(t: Tables, marcos: nat) {
    && (forall i :: 0 <= i < |t.procs| ==> ProcOk(t.frames, t.procs[i], marcos))
    && (forall i, j :: 0 <= i < j < |t.procs| ==> t.procs[i].pid != t.procs[j].pid)
    && (forall x :: 0 <= x < |t.frames| && t.frames[x].pid != 0 ==> FindProc(t.procs, t.frames[x].pid, 0) < |t.procs|)
    && TlbOk(t.procs, t.tlb, t.accesos)
  }

  // ---------------------------------------------------------------- what it gives

  lemma FindProcAt(ps: seq<Proc>, i: nat)
    requires i < |ps| && forall a, b :: 0 <= a < b < |ps| ==> ps[a].pid != ps[b].pid
    ensures FindProc(ps, ps[i].pid, 0) == i
  {
  }

  lemma LookupIs(t: Tables, marcos: nat, i: nat, n: nat)
    requires Inv(t, marcos) && i < |t.procs|
    ensures var pages := t.procs[i].pages;
            && FindPage(pages, n, 0) == (if n < |pages| then n else |pages|)
            && Lookup(t.procs, t.procs[i].pid, n)
               == if n >= |pages| then OVERFLOW else if pages[n].status.M? then pages[n].frame else NO_EN_MEMORIA
  {
    FindProcAt(t.procs, i);
    var pages := t.procs[i].pages;
    assert ProcOk(t.frames, t.procs[i], marcos);
    forall j | 0 <= j < |pages| ensures pages[j].nro == j {
      assert PageOk(t.frames, t.procs[i].pid, pages, j);
    }
    assert n < |pages| ==> pages[n].nro == n;
  }

  /** A TLB hit is what the page table says. */
  lemma TlbAgrees(t: Tables, marcos: nat, pid: nat, n: nat)
    requires Inv(t, marcos) && pid != 0 && TlbLookup(t.tlb, pid, n) > -1
    ensures Lookup(t.procs, pid, n) == TlbLookup(t.tlb, pid, n)
  {
    var e := t.tlb[FindTlb(t.tlb, pid, n, 0)];
    assert EntryOk(t.procs, e);
    LookupIs(t, marcos, FindProc(t.procs, pid, 0), n);
  }

  /** Whatever frame a lookup names, by TLB or page table, belongs to the process that asked. */
  lemma LookupIsOwn(t: Tables, marcos: nat, pid: nat, n: nat)
    requires Inv(t, marcos) && pid != 0 && Lookup(t.procs, pid, n) > -1
    ensures var f := Lookup(t.procs, pid, n); f < |t.frames| && t.frames[f].pid == pid
  {
    var i := FindProc(t.procs, pid, 0);
    LookupIs(t, marcos, i, n);
    assert ProcOk(t.frames, t.procs[i], marcos) && PageOk(t.frames, pid, t.procs[i].pages, n);
  }

  // ---------------------------------------------------------------- counting frames

  lemma {:induction false} OwnedSame(f: Frames, g: Frames, pid: nat)
    requires |g| == |f| && forall x :: 0 <= x < |f| ==> (g[x].pid == pid <==> f[x].pid == pid)
    ensures Owned(g, pid) == Owned(f, pid)
  {
    if f != [] {
      OwnedSame(f[1..], g[1..], pid);
    }
  }

  lemma {:induction false} OwnedMore(f: Frames, j: nat, x: Frame)
    requires j < |f| && f[j].pid != x.pid
    ensures Owned(f[j := x], x.pid) == Owned(f, x.pid) + 1
  {
    if j == 0 {
      assert f[j := x][1..] == f[1..];
    } else {
      assert f[j := x][1..] == f[1..][j - 1 := x];
      OwnedMore(f[1..], j - 1, x);
    }
  }

  lemma {:induction false} OwnedSome(f: Frames, pid: nat)
    requires Owned(f, pid) >= 1
    ensures Owns(f, pid)
  {
    if f[0].pid != pid {
      OwnedSome(f[1..], pid);
      var i :| 0 <= i < |f[1..]| && f[1..][i].pid == pid;
      assert f[i + 1].pid == pid;
    }
  }

  lemma {:induction false} OwnedAt(f: Frames, pid: nat, i: nat)
    requires i < |f| && f[i].pid == pid
    ensures Owned(f, pid) >= 1
  {
    if f[0].pid != pid {
      OwnedAt(f[1..], pid, i - 1);
    }
  }

  lemma {:induction false} OwnedNone(f: Frames, pid: nat)
    requires forall x :: 0 <= x < |f| ==> f[x].pid != pid
    ensures Owned(f, pid) == 0
  {
    if f != [] {
      OwnedNone(f[1..], pid);
    }
  }

  // ---------------------------------------------------------------- one process changes

  /** Owned frames stay owned by whom they were; free ones stay free or go to `pid`. */
  ghost predicate Keeps(f: Frames, g: Frames, pid: nat) {
    |g| == |f| && forall x :: 0 <= x < |f| ==> g[x].pid == f[x].pid || (f[x].pid == 0 && g[x].pid == pid)
  }

  lemma ProcKept(f: Frames, g: Frames, pid: nat, q: Proc, marcos: nat)
    requires Keeps(f, g, pid) && ProcOk(f, q, marcos) && q.pid != pid
    ensures ProcOk(g, q, marcos)
  {
    OwnedSame(f, g, q.pid);
    forall j | 0 <= j < |q.pages| ensures PageOk(g, q.pid, q.pages, j) {
      assert PageOk(f, q.pid, q.pages, j);
    }
  }

  lemma FindProcSame(ps: seq<Proc>, i: nat, p: Proc, pid: nat)
    requires i < |ps| && p.pid == ps[i].pid
    ensures FindProc(ps[i := p], pid, 0) == FindProc(ps, pid, 0)
  {
    var qs := ps[i := p];
    var a, b := FindProc(ps, pid, 0), FindProc(qs, pid, 0);
    assert forall j :: 0 <= j < |ps| ==> qs[j].pid == ps[j].pid;
    assert a < |ps| ==> qs[a].pid == pid;
    assert b < |ps| ==> ps[b].pid == pid;
  }

  /** The common shape of every operation on one process: its entry, frames, the TLB and the
      access count change, all others' entries stay. */
  lemma UpdateKeeps(t: Tables, i: nat, p: Proc, g: Frames, tlb: seq<TlbEntry>, accesos: nat, marcos: nat)
    requires Inv(t, marcos) && i < |t.procs| && p.pid == t.procs[i].pid
    requires Keeps(t.frames, g, p.pid) && ProcOk(g, p, marcos) && TlbOk(t.procs[i := p], tlb, accesos)
    ensures Inv(Tables(g, t.procs[i := p], tlb, accesos), marcos)
  {
    var ps := t.procs[i := p];
    forall k | 0 <= k < |ps| ensures ProcOk(g, ps[k], marcos) {
      if k != i {
        assert ProcOk(t.frames, t.procs[k], marcos) && (k < i || i < k);
        ProcKept(t.frames, g, p.pid, t.procs[k], marcos);
      }
    }
    forall x | 0 <= x < |g| && g[x].pid != 0 ensures FindProc(ps, g[x].pid, 0) < |ps| {
      FindProcSame(t.procs, i, p, g[x].pid);
      FindProcAt(t.procs, i);
    }
  }

  /** Bits of frames and the access count do not matter to it. */
  lemma BitsKeep(t: Tables, g: Frames, accesos: nat, marcos: nat)
    requires Inv(t, marcos) && SameOwners(t.frames, g) && t.accesos <= accesos
    ensures Inv(t.(frames := g, accesos := accesos), marcos)
  {
    forall k | 0 <= k < |t.procs| ensures ProcOk(g, t.procs[k], marcos) {
      var q := t.procs[k];
      assert ProcOk(t.frames, q, marcos);
      OwnedSame(t.frames, g, q.pid);
      forall j | 0 <= j < |q.pages| ensures PageOk(g, q.pid, q.pages, j) {
        assert PageOk(t.frames, q.pid, q.pages, j);
      }
    }
  }

  lemma TlbKeeps(t: Tables, tlb: seq<TlbEntry>, marcos: nat)
    requires Inv(t, marcos) && TlbOk(t.procs, tlb, t.accesos)
    ensures Inv(t.(tlb := tlb), marcos)
  {
  }

  // ---------------------------------------------------------------- TLB operations

  lemma LoadTlbKeeps(t: Tables, pid: nat, n: nat, f: nat, marcos: nat)
    requires Inv(t, marcos) && t.tlb != [] && pid != 0 && Lookup(t.procs, pid, n) == f && TlbLookup(t.tlb, pid, n) == -1
    ensures Inv(TlbLoad(t, pid, n, f), marcos)
  {
    var e := FindEmpty(t.tlb, 0);
    var k := if e < |t.tlb| then e else Oldest(t.tlb, 0, 0, t.accesos);
    var x := TlbEntry(n, f, pid, t.accesos % WORD);
    LookupIs(t, marcos, FindProc(t.procs, pid, 0), n);
    assert EntryOk(t.procs, x);
    var tlb := t.tlb[k := x];
    forall i | 0 <= i < |tlb|
      ensures EntryOk(t.procs, tlb[i]) && (i != k ==> !SameKey(tlb[i], x) && !SameKey(x, tlb[i]))
    {
      assert EntryOk(t.procs, t.tlb[i]);
    }
    TlbKeeps(t, tlb, marcos);
  }

  lemma TouchKeeps(t: Tables, pid: nat, f: nat, marcos: nat)
    requires Inv(t, marcos)
    ensures Inv(TlbTouch(t, pid, f), marcos)
  {
    var k := FindTouched(t.tlb, pid, f, 0);
    if k < |t.tlb| {
      var tlb := t.tlb[k := t.tlb[k].(ultimo := t.accesos % WORD)];
      forall i | 0 <= i < |tlb| ensures EntryOk(t.procs, tlb[i]) {
        assert EntryOk(t.procs, t.tlb[i]);
      }
      forall i, j | 0 <= i < j < |tlb| ensures !SameKey(tlb[i], tlb[j]) {
        assert !SameKey(t.tlb[i], t.tlb[j]);
      }
      TlbKeeps(t, tlb, marcos);
    }
  }

  /** Killing TLB entries keeps what is left sound. */
  lemma KillKeeps(ps: seq<Proc>, tlb: seq<TlbEntry>, less: seq<TlbEntry>, accesos: nat)
    requires TlbOk(ps, tlb, accesos) && |less| == |tlb|
    requires forall i :: 0 <= i < |tlb| ==> less[i] == tlb[i] || less[i] == tlb[i].(pid := 0)
    ensures TlbOk(ps, less, accesos)
  {
    forall i | 0 <= i < |less| ensures EntryOk(ps, less[i]) {
      assert EntryOk(ps, tlb[i]);
    }
    forall i, j | 0 <= i < j < |less| ensures !SameKey(less[i], less[j]) {
      assert !SameKey(tlb[i], tlb[j]);
    }
  }

  /** The scan's running best: the first least-recent entry so far, or entry 0 while nothing is
      older than the present. */
  ghost predicate Running(tlb: seq<TlbEntry>, i: nat, best: nat, limit: nat)
    requires i <= |tlb| && best < |tlb|
  {
    && (forall j :: 0 <= j < i ==> tlb[j].ultimo >= limit)
    && (forall j :: 0 <= j < best ==> tlb[j].ultimo > limit)
    && ((best < i && tlb[best].ultimo == limit) || (best == 0 && forall j :: 0 <= j < |tlb| ==> tlb[j].ultimo <= limit))
  }

  lemma {:induction false} OldestRuns(tlb: seq<TlbEntry>, i: nat, best: nat, limit: nat)
    requires i <= |tlb| && best < |tlb| && Running(tlb, i, best, limit)
    ensures var r := Oldest(tlb, i, best, limit);
            && (forall j :: 0 <= j < |tlb| ==> tlb[r].ultimo <= tlb[j].ultimo)
            && forall j :: 0 <= j < r ==> tlb[r].ultimo < tlb[j].ultimo
    decreases |tlb| - i
  {
    if i < |tlb| {
      if tlb[i].ultimo < limit {
        OldestRuns(tlb, i + 1, i, tlb[i].ultimo);
      } else {
        OldestRuns(tlb, i + 1, best, limit);
      }
    }
  }

  /** With no free entry the TLB gives up the first of those with the least recorded stamp. */
  lemma TlbVictimIsOldest(t: Tables, marcos: nat)
    requires Inv(t, marcos) && t.tlb != []
    ensures var r := Oldest(t.tlb, 0, 0, t.accesos);
            (forall j :: 0 <= j < |t.tlb| ==> t.tlb[r].ultimo <= t.tlb[j].ultimo)
            && forall j :: 0 <= j < r ==> t.tlb[r].ultimo < t.tlb[j].ultimo
  {
    OldestRuns(t.tlb, 0, 0, t.accesos);
  }

  // ---------------------------------------------------------------- loading into a free frame

  lemma NewPageOk(f: Frames, pid: nat, pages: seq<PageEntry>, n: nat, v: nat)
    requires n < |pages| && v < |f| && f[v].pid == pid
    requires forall j :: 0 <= j < |pages| ==> PageOk(f, pid, pages, j)
    ensures FindPage(pages, n, 0) == n && NewPage(pages, n, v) == pages[n := PageEntry(v, n, M)]
    ensures forall j :: 0 <= j < |pages| ==> PageOk(f, pid, NewPage(pages, n, v), j)
  {
    forall j | 0 <= j < |pages| ensures pages[j].nro == j {
      assert PageOk(f, pid, pages, j);
    }
    assert pages[n].nro == n;
    var r := NewPage(pages, n, v);
    forall j | 0 <= j < |pages| ensures PageOk(f, pid, r, j) {
      assert PageOk(f, pid, pages, j);
    }
  }

  /** The process once it has been given frame `j` for page `n`. */
  function WithFrame(p: Proc, n: nat, j: nat): Proc {
    p.(cantFrames := p.cantFrames + 1,
       indice := if p.cantFrames == 0 then j else p.indice,
       pages := NewPage(p.pages, n, j))
  }

  lemma FreeLoadKeeps(t: Tables, i: nat, n: nat, j: nat, marcos: nat) returns (p: Proc)
    requires Inv(t, marcos) && i < |t.procs| && n < |t.procs[i].pages| && !t.procs[i].pages[n].status.M?
    requires j < |t.frames| && t.frames[j].pid == 0 && t.procs[i].cantFrames < marcos
    ensures p == WithFrame(t.procs[i], n, j) && p.pages == t.procs[i].pages[n := PageEntry(j, n, M)]
    ensures Inv(t.(frames := t.frames[j := Frame(p.pid, true, false)], procs := t.procs[i := p]), marcos)
  {
    var q := t.procs[i];
    assert ProcOk(t.frames, q, marcos);
    p := WithFrame(q, n, j);
    var g := t.frames[j := Frame(p.pid, true, false)];
    OwnedMore(t.frames, j, Frame(p.pid, true, false));
    forall k | 0 <= k < |q.pages| ensures PageOk(g, p.pid, q.pages, k) {
      assert PageOk(t.frames, q.pid, q.pages, k);
    }
    NewPageOk(g, p.pid, q.pages, n, j);
    SamePagesTlb(t, i, p, n, marcos);
    UpdateKeeps(t, i, p, g, t.tlb, t.accesos, marcos);
  }

  /** Installing a page that was out disturbs no live TLB entry. */
  lemma SamePagesTlb(t: Tables, i: nat, p: Proc, n: nat, marcos: nat)
    requires Inv(t, marcos) && i < |t.procs| && p.pid == t.procs[i].pid && n < |t.procs[i].pages|
    requires !t.procs[i].pages[n].status.M? && |p.pages| == |t.procs[i].pages|
    requires forall k :: 0 <= k < |p.pages| && k != n ==> p.pages[k] == t.procs[i].pages[k]
    ensures TlbOk(t.procs[i := p], t.tlb, t.accesos)
  {
    forall k | 0 <= k < |t.tlb| ensures EntryOk(t.procs[i := p], t.tlb[k]) {
      assert EntryOk(t.procs, t.tlb[k]);
      FindProcSame(t.procs, i, p, t.tlb[k].pid);
    }
  }

  /** Charged without a frame: the page stays out. */
  lemma ChargeKeeps(t: Tables, i: nat, marcos: nat)
    requires Inv(t, marcos) && i < |t.procs| && 0 < t.procs[i].cantFrames < marcos < BYTE
    ensures Inv(t.(procs := t.procs[i := t.procs[i].(cantFrames := t.procs[i].cantFrames + 1)]), marcos)
  {
    var p := t.procs[i].(cantFrames := t.procs[i].cantFrames + 1);
    assert ProcOk(t.frames, t.procs[i], marcos);
    forall k | 0 <= k < |p.pages| ensures PageOk(t.frames, p.pid, p.pages, k) {
      assert PageOk(t.frames, p.pid, t.procs[i].pages, k);
    }
    forall k | 0 <= k < |t.tlb| ensures EntryOk(t.procs[i := p], t.tlb[k]) {
      assert EntryOk(t.procs, t.tlb[k]);
      FindProcSame(t.procs, i, p, t.tlb[k].pid);
    }
    UpdateKeeps(t, i, p, t.frames, t.tlb, t.accesos, marcos);
  }

  // ---------------------------------------------------------------- replacement

  lemma OldPageOk(f: Frames, pid: nat, pages: seq<PageEntry>, v: nat)
    requires forall j :: 0 <= j < |pages| ==> PageOk(f, pid, pages, j)
    ensures |OldPage(pages, v)| == |pages| && forall j :: 0 <= j < |pages| ==> PageOk(f, pid, OldPage(pages, v), j)
    ensures forall j :: 0 <= j < |pages| && pages[j].frame != v ==> OldPage(pages, v)[j] == pages[j]
    ensures forall j :: 0 <= j < |pages| && !pages[j].status.M? ==> !OldPage(pages, v)[j].status.M?
  {
    forall j | 0 <= j < |pages| ensures PageOk(f, pid, OldPage(pages, v), j) {
      assert PageOk(f, pid, pages, j);
    }
  }

  /** Closed form of an eviction: the process's pages, the TLB and the frame bits. */
  lemma EvictIs(t: Tables, i: nat, v: nat, n: nat) returns (g: Frames, k: nat)
    requires i < |t.procs| && v < |t.frames|
    ensures g == t.frames[v := Frame(t.frames[v].pid, true, false)]
    ensures k == t.accesos + if t.frames[v].mod then 2 else 1
    ensures var p := t.procs[i];
            var was := if t.frames[v].mod then OldPage(p.pages, v) else p.pages;
            var p' := p.(pages := NewPage(OldPage(was, v), n, v));
            Evict(t, i, v, n) == Tables(g, t.procs[i := p'], TlbDropFrame(t.tlb, v), k)
  {
    var r := Evict(t, i, v, n);
    g, k := r.frames, r.accesos;
    var p := t.procs[i];
    var was := if t.frames[v].mod then OldPage(p.pages, v) else p.pages;
    assert r.procs == t.procs[i := p.(pages := NewPage(OldPage(was, v), n, v))];
  }

  /** The same without the bits. */
  lemma EvictShape(t: Tables, i: nat, v: nat, n: nat) returns (g: Frames, k: nat)
    requires i < |t.procs| && v < |t.frames|
    ensures SameOwners(t.frames, g) && k >= t.accesos && OthersKept(t.frames, g, t.frames[v].pid)
    ensures var p := t.procs[i];
            var was := if t.frames[v].mod then OldPage(p.pages, v) else p.pages;
            var p' := p.(pages := NewPage(OldPage(was, v), n, v));
            Evict(t, i, v, n) == Tables(g, t.procs[i := p'], TlbDropFrame(t.tlb, v), k)
  {
    g, k := EvictIs(t, i, v, n);
  }

  lemma EvictKeeps(t: Tables, i: nat, v: nat, n: nat, marcos: nat)
    requires Inv(t, marcos) && i < |t.procs| && v < |t.frames| && t.frames[v].pid == t.procs[i].pid
    requires n < |t.procs[i].pages| && !t.procs[i].pages[n].status.M?
    ensures Inv(Evict(t, i, v, n), marcos)
    ensures Lookup(Evict(t, i, v, n).procs, t.procs[i].pid, n) == v
    ensures SameOwners(t.frames, Evict(t, i, v, n).frames)
    ensures OthersKept(t.frames, Evict(t, i, v, n).frames, t.procs[i].pid)
  {
    var q := t.procs[i];
    assert ProcOk(t.frames, q, marcos);
    var g, k := EvictShape(t, i, v, n);
    OldPageOk(t.frames, q.pid, q.pages, v);
    var a := if t.frames[v].mod then OldPage(q.pages, v) else q.pages;
    OldPageOk(t.frames, q.pid, a, v);
    var b := OldPage(a, v);
    NewPageOk(t.frames, q.pid, b, n, v);
    var p := q.(pages := NewPage(b, n, v));
    OwnedSame(t.frames, g, q.pid);
    forall j | 0 <= j < |p.pages| ensures PageOk(g, p.pid, p.pages, j) {
      assert PageOk(t.frames, p.pid, p.pages, j);
    }
    EvictTlb(t, i, v, n, p, k, marcos);
    UpdateKeeps(t, i, p, g, TlbDropFrame(t.tlb, v), k, marcos);
    LookupIs(Evict(t, i, v, n), marcos, i, n);
  }

  /** Entries of other frames than the victim's survive an eviction. */
  lemma EvictTlb(t: Tables, i: nat, v: nat, n: nat, p: Proc, accesos: nat, marcos: nat)
    requires Inv(t, marcos) && i < |t.procs| && p.pid == t.procs[i].pid && |p.pages| == |t.procs[i].pages|
    requires n < |p.pages| && !t.procs[i].pages[n].status.M? && accesos >= t.accesos
    requires forall j :: 0 <= j < |p.pages| && j != n && t.procs[i].pages[j].frame != v ==>
               p.pages[j] == t.procs[i].pages[j]
    ensures TlbOk(t.procs[i := p], TlbDropFrame(t.tlb, v), accesos)
  {
    var tlb := TlbDropFrame(t.tlb, v);
    forall k | 0 <= k < |tlb| ensures EntryOk(t.procs[i := p], tlb[k]) {
      assert EntryOk(t.procs, t.tlb[k]);
      FindProcSame(t.procs, i, p, tlb[k].pid);
    }
    forall a, b | 0 <= a < b < |tlb| ensures !SameKey(tlb[a], tlb[b]) {
      assert !SameKey(t.tlb[a], t.tlb[b]);
    }
  }

  lemma VictimOwn(f: Frames, pid: nat, start: nat, a: Algorithm)
    requires start < |f| && Owned(f, pid) >= 1
    ensures var c := Victim(f, pid, start, a);
            && c.victim < |f| && f[c.victim].pid == pid && SameOwners(f, c.frames) && OthersKept(f, c.frames, pid)
  {
    OwnedSome(f, pid);
    if a.CLOCK? {
      ClockIsBest(f, pid, start);
    } else {
      EnhancedIsBest(f, pid, start);
    }
  }

  lemma NextIsOwn(f: Frames, g: Frames, pid: nat, v: nat)
    requires SameOwners(f, g) && v < |f| && f[v].pid == pid
    ensures NextOwned(g, pid, v) < |g| && g[NextOwned(g, pid, v)].pid == pid
    ensures NextAfter(f, pid, v, NextOwned(g, pid, v))
  {
    NextOwnedIs(g, pid, v);
    assert NextAfter(g, pid, v, NextOwned(g, pid, v));
  }

  /** Replacement evicts a frame of the process itself, brings the page in, and touches no frame
      of another process. */
  lemma ReplaceKeeps(t: Tables, i: nat, n: nat, a: Algorithm, marcos: nat)
    requires Inv(t, marcos) && i < |t.procs| && t.procs[i].cantFrames >= 1
    requires n < |t.procs[i].pages| && !t.procs[i].pages[n].status.M?
    ensures t.procs[i].indice < |t.frames|
    ensures var (r, v) := Replace(t, i, n, a);
            && Inv(r, marcos) && v < |t.frames| && t.frames[v].pid == t.procs[i].pid
            && Lookup(r.procs, t.procs[i].pid, n) == v
            && SameOwners(t.frames, r.frames) && OthersKept(t.frames, r.frames, t.procs[i].pid)
  {
    var p := t.procs[i];
    assert ProcOk(t.frames, p, marcos);
    VictimOwn(t.frames, p.pid, p.indice, a);
    var c := Victim(t.frames, p.pid, p.indice, a);
    var p' := p.(indice := NextOwned(c.frames, p.pid, c.victim));
    NextIsOwn(t.frames, c.frames, p.pid, c.victim);
    BitsKeep(t, c.frames, t.accesos, marcos);
    var t1 := t.(frames := c.frames);
    PointerKeeps(t1, i, NextOwned(c.frames, p.pid, c.victim), marcos);
    EvictKeeps(t1.(procs := t.procs[i := p']), i, c.victim, n, marcos);
  }

  /** The pointer goes to the process's next frame after the victim. */
  lemma ReplacePointer(t: Tables, i: nat, n: nat, a: Algorithm, marcos: nat)
    requires Inv(t, marcos) && i < |t.procs| && t.procs[i].cantFrames >= 1
    ensures t.procs[i].indice < |t.frames|
    ensures var (r, v) := Replace(t, i, n, a);
            |r.procs| == |t.procs| && NextAfter(t.frames, t.procs[i].pid, v, r.procs[i].indice)
  {
    var p := t.procs[i];
    assert ProcOk(t.frames, p, marcos);
    VictimOwn(t.frames, p.pid, p.indice, a);
    var c := Victim(t.frames, p.pid, p.indice, a);
    var next := NextOwned(c.frames, p.pid, c.victim);
    NextIsOwn(t.frames, c.frames, p.pid, c.victim);
    var g, k := EvictShape(t.(frames := c.frames, procs := t.procs[i := p.(indice := next)]), i, c.victim, n);
  }

  lemma PointerKeeps(t: Tables, i: nat, indice: nat, marcos: nat)
    requires Inv(t, marcos) && i < |t.procs| && indice < |t.frames| && t.frames[indice].pid == t.procs[i].pid
    ensures Inv(t.(procs := t.procs[i := t.procs[i].(indice := indice)]), marcos)
  {
    var p := t.procs[i].(indice := indice);
    assert ProcOk(t.frames, t.procs[i], marcos);
    forall k | 0 <= k < |p.pages| ensures PageOk(t.frames, p.pid, p.pages, k) {
      assert PageOk(t.frames, p.pid, t.procs[i].pages, k);
    }
    forall k | 0 <= k < |t.tlb| ensures EntryOk(t.procs[i := p], t.tlb[k]) {
      assert EntryOk(t.procs, t.tlb[k]);
      FindProcSame(t.procs, i, p, t.tlb[k].pid);
    }
    UpdateKeeps(t, i, p, t.frames, t.tlb, t.accesos, marcos);
  }

  lemma AccessKeeps(t: Tables, f: int, marcos: nat)
    requires Inv(t, marcos)
    ensures Inv(Access(t, f), marcos) && Inv(Modify(t, f), marcos)
  {
    BitsKeep(t, SetRef(t.frames, f), t.accesos + 1, marcos);
    BitsKeep(t, SetMod(t.frames, f), t.accesos, marcos);
  }

  lemma FreeLoadIs(t: Tables, i: nat, n: nat, a: Algorithm, marcos: nat)
    requires i < |t.procs| && t.procs[i].cantFrames < marcos < BYTE && FindFree(t.frames, 0) < |t.frames|
    ensures var p, j := t.procs[i], FindFree(t.frames, 0);
            var t1 := t.(frames := t.frames[j := Frame(p.pid, true, false)], procs := t.procs[i := WithFrame(p, n, j)]);
            Load(t, i, n, a, marcos) == Loaded(Access(t1, j), true, j)
  {
  }

  lemma ChargeLoadIs(t: Tables, i: nat, n: nat, a: Algorithm, marcos: nat)
    requires i < |t.procs| && 0 < t.procs[i].cantFrames < marcos < BYTE && FindFree(t.frames, 0) == |t.frames|
    ensures var p := t.procs[i];
            var t1 := t.(procs := t.procs[i := p.(cantFrames := p.cantFrames + 1)]);
            Load(t, i, n, a, marcos) == Loaded(Access(t1, |t.frames| - 1), true, -1)
  {
  }

  lemma FreeLoad(t: Tables, i: nat, n: nat, a: Algorithm, marcos: nat)
    requires Inv(t, marcos) && i < |t.procs| && n < |t.procs[i].pages| && !t.procs[i].pages[n].status.M?
    requires t.procs[i].cantFrames < marcos < BYTE && FindFree(t.frames, 0) < |t.frames|
    ensures var l := Load(t, i, n, a, marcos);
            Inv(l.t, marcos) && l.ok && l.frame > -1 && Lookup(l.t.procs, t.procs[i].pid, n) == l.frame
  {
    var p, j := t.procs[i], FindFree(t.frames, 0);
    var p' := FreeLoadKeeps(t, i, n, j, marcos);
    FreeLoadIs(t, i, n, a, marcos);
    var t1 := t.(frames := t.frames[j := Frame(p.pid, true, false)], procs := t.procs[i := p']);
    AccessKeeps(t1, j, marcos);
    LookupIs(Access(t1, j), marcos, i, n);
  }

  lemma ChargeLoad(t: Tables, i: nat, n: nat, a: Algorithm, marcos: nat)
    requires Inv(t, marcos) && i < |t.procs| && n < |t.procs[i].pages| && !t.procs[i].pages[n].status.M?
    requires 0 < t.procs[i].cantFrames < marcos < BYTE && FindFree(t.frames, 0) == |t.frames|
    ensures var l := Load(t, i, n, a, marcos);
            Inv(l.t, marcos) && l.ok && l.frame == -1 && Lookup(l.t.procs, t.procs[i].pid, n) == -1
  {
    var p := t.procs[i];
    ChargeLoadIs(t, i, n, a, marcos);
    ChargeKeeps(t, i, marcos);
    var t1 := t.(procs := t.procs[i := p.(cantFrames := p.cantFrames + 1)]);
    AccessKeeps(t1, |t.frames| - 1, marcos);
    LookupIs(Access(t1, |t.frames| - 1), marcos, i, n);
  }

  /** Bringing in a page keeps the invariant.  When it succeeds the page is resident in a frame
      of the process exactly when the quota is used up or a frame was free; otherwise it stays
      out, although the process is charged for it. */
  lemma LoadKeeps(t: Tables, i: nat, n: nat, a: Algorithm, marcos: nat)
    requires Inv(t, marcos) && QuotaOk(marcos) && i < |t.procs|
    requires n < |t.procs[i].pages| && !t.procs[i].pages[n].status.M?
    ensures var l := Load(t, i, n, a, marcos); var p := t.procs[i]; var room := FindFree(t.frames, 0) < |t.frames|;
            && Inv(l.t, marcos)
            && (l.ok <==> p.cantFrames > 0 || room)
            && (!l.ok ==> l.t == t)
            && (l.ok ==> (Lookup(l.t.procs, p.pid, n) > -1 <==> p.cantFrames == marcos || room))
            && (l.ok ==> l.frame == Lookup(l.t.procs, p.pid, n))
  {
    var p, room := t.procs[i], FindFree(t.frames, 0) < |t.frames|;
    assert ProcOk(t.frames, p, marcos);
    if p.cantFrames == marcos {
      ReplaceKeeps(t, i, n, a, marcos);
    } else if room {
      FreeLoad(t, i, n, a, marcos);
    } else if p.cantFrames > 0 {
      ChargeLoad(t, i, n, a, marcos);
    }
  }

  // ---------------------------------------------------------------- starting and ending processes

  lemma BeginKeeps(t: Tables, pid: nat, n: nat, marcos: nat)
    requires Inv(t, marcos) && pid != 0 && FindProc(t.procs, pid, 0) == |t.procs|
    ensures Inv(Begin(t, pid, n), marcos)
  {
    var p := Proc(pid, 0, 0, NewPages(n, |t.frames| + 1));
    var ps := t.procs + [p];
    OwnedNone(t.frames, pid);
    forall k | 0 <= k < |ps| ensures ProcOk(t.frames, ps[k], marcos) {
      if k < |t.procs| {
        assert ProcOk(t.frames, t.procs[k], marcos);
      }
    }
    forall x | 0 <= x < |t.frames| && t.frames[x].pid != 0 ensures FindProc(ps, t.frames[x].pid, 0) < |ps| {
      FindProcLonger(t.procs, p, t.frames[x].pid);
    }
    forall k | 0 <= k < |t.tlb| ensures EntryOk(ps, t.tlb[k]) {
      assert EntryOk(t.procs, t.tlb[k]);
      if t.tlb[k].pid != 0 {
        FindProcLonger(t.procs, p, t.tlb[k].pid);
      }
    }
  }

  lemma FindProcLonger(ps: seq<Proc>, p: Proc, pid: nat)
    requires FindProc(ps, pid, 0) < |ps|
    ensures FindProc(ps + [p], pid, 0) == FindProc(ps, pid, 0)
  {
    var a, b := FindProc(ps, pid, 0), FindProc(ps + [p], pid, 0);
    assert (ps + [p])[a].pid == pid;
    assert b < |ps| ==> ps[b].pid == pid;
  }

  lemma FindProcShorter(ps: seq<Proc>, i: nat, pid: nat)
    requires i < |ps| && ps[i].pid != pid && FindProc(ps, pid, 0) < |ps|
    ensures var qs, a := ps[..i] + ps[i + 1..], FindProc(ps, pid, 0);
            FindProc(qs, pid, 0) == (if a < i then a else a - 1) && FindProc(qs, pid, 0) < |qs|
            && qs[FindProc(qs, pid, 0)] == ps[a]
  {
    var qs, a := ps[..i] + ps[i + 1..], FindProc(ps, pid, 0);
    var b := FindProc(qs, pid, 0);
    assert qs[if a < i then a else a - 1] == ps[a];
    assert b < |qs| ==> qs[b] == ps[if b < i then b else b + 1];
    assert forall j :: 0 <= j < |qs| ==> qs[j] == ps[if j < i then j else j + 1];
  }

  lemma WithoutProc(ps: seq<Proc>, i: nat)
    requires i < |ps|
    ensures var qs := ps[..i] + ps[i + 1..];
            |qs| == |ps| - 1 && forall j :: 0 <= j < |qs| ==> qs[j] == ps[if j < i then j else j + 1]
  {
  }

  /** The processes that stay: their frames and pages are as before. */
  lemma ReleaseKeeps(f: Frames, pid: nat, q: Proc, marcos: nat)
    requires ProcOk(f, q, marcos) && q.pid != pid && pid != 0
    ensures ProcOk(Release(f, pid), q, marcos)
  {
    var g := Release(f, pid);
    OwnedSame(f, g, q.pid);
    forall j | 0 <= j < |q.pages| ensures PageOk(g, q.pid, q.pages, j) {
      assert PageOk(f, q.pid, q.pages, j);
    }
  }

  lemma FinishTlb(t: Tables, i: nat, marcos: nat)
    requires Inv(t, marcos) && i < |t.procs|
    ensures TlbOk(t.procs[..i] + t.procs[i + 1..], TlbDropPid(t.tlb, t.procs[i].pid), t.accesos)
  {
    var pid, tlb := t.procs[i].pid, TlbDropPid(t.tlb, t.procs[i].pid);
    KillKeeps(t.procs, t.tlb, tlb, t.accesos);
    forall k | 0 <= k < |tlb| ensures EntryOk(t.procs[..i] + t.procs[i + 1..], tlb[k]) {
      assert EntryOk(t.procs, tlb[k]);
      if tlb[k].pid != 0 {
        FindProcShorter(t.procs, i, tlb[k].pid);
      }
    }
  }

  lemma FinishProcs(t: Tables, i: nat, marcos: nat)
    requires Inv(t, marcos) && i < |t.procs|
    ensures var qs, g := t.procs[..i] + t.procs[i + 1..], Release(t.frames, t.procs[i].pid);
            && (forall k :: 0 <= k < |qs| ==> ProcOk(g, qs[k], marcos))
            && (forall j, k :: 0 <= j < k < |qs| ==> qs[j].pid != qs[k].pid)
  {
    var pid, qs := t.procs[i].pid, t.procs[..i] + t.procs[i + 1..];
    WithoutProc(t.procs, i);
    assert ProcOk(t.frames, t.procs[i], marcos);
    forall k | 0 <= k < |qs| ensures ProcOk(Release(t.frames, pid), qs[k], marcos) {
      ReleaseKeeps(t.frames, pid, qs[k], marcos);
    }
  }

  lemma FinishOwners(t: Tables, i: nat, marcos: nat)
    requires Inv(t, marcos) && i < |t.procs|
    ensures var qs, g := t.procs[..i] + t.procs[i + 1..], Release(t.frames, t.procs[i].pid);
            forall x :: 0 <= x < |g| && g[x].pid != 0 ==> FindProc(qs, g[x].pid, 0) < |qs|
  {
    var qs, g := t.procs[..i] + t.procs[i + 1..], Release(t.frames, t.procs[i].pid);
    forall x | 0 <= x < |g| && g[x].pid != 0 ensures FindProc(qs, g[x].pid, 0) < |qs| {
      FindProcShorter(t.procs, i, g[x].pid);
    }
  }

  lemma FinishKeeps(t: Tables, pid: nat, marcos: nat)
    requires Inv(t, marcos) && FindProc(t.procs, pid, 0) < |t.procs| && pid != 0
    ensures Inv(Finish(t, pid), marcos)
  {
    var i := FindProc(t.procs, pid, 0);
    var qs := t.procs[..i] + t.procs[i + 1..];
    assert Finish(t, pid) == Tables(Release(t.frames, pid), qs, TlbDropPid(t.tlb, pid), t.accesos);
    FinishProcs(t, i, marcos);
    FinishOwners(t, i, marcos);
    FinishTlb(t, i, marcos);
  }

  // ---------------------------------------------------------------- requests and runs

  lemma SolicitarKeeps(t: Tables, pid: nat, n: nat, a: Algorithm, marcos: nat)
    requires Inv(t, marcos) && QuotaOk(marcos) && FindProc(t.procs, pid, 0) < |t.procs|
    ensures Inv(Solicitar(t, pid, n, a, marcos), marcos)
  {
    var i := FindProc(t.procs, pid, 0);
    assert ProcOk(t.frames, t.procs[i], marcos);
    LookupIs(t, marcos, i, n);
    var hit, f := TlbLookup(t.tlb, pid, n), Lookup(t.procs, pid, n);
    if hit > -1 {
      AccessKeeps(t, hit, marcos);
      TouchKeeps(Access(t, hit), pid, hit, marcos);
    } else if f == OVERFLOW {
      FinishKeeps(t, pid, marcos);
    } else if f > -1 {
      AccessKeeps(t, f, marcos);
      if t.tlb != [] {
        LoadTlbKeeps(Access(t, f), pid, n, f, marcos);
        TouchKeeps(TlbLoad(Access(t, f), pid, n, f), pid, f, marcos);
      }
    } else {
      LoadKeeps(t, i, n, a, marcos);
      var l := Load(t, i, n, a, marcos);
      AccessKeeps(l.t, l.frame, marcos);
    }
  }

  lemma AlmacenarKeeps(t: Tables, pid: nat, n: nat, a: Algorithm, marcos: nat)
    requires Inv(t, marcos) && QuotaOk(marcos) && FindProc(t.procs, pid, 0) < |t.procs|
    ensures Inv(Almacenar(t, pid, n, a, marcos), marcos)
  {
    var i := FindProc(t.procs, pid, 0);
    assert ProcOk(t.frames, t.procs[i], marcos);
    LookupIs(t, marcos, i, n);
    var hit, f := TlbLookup(t.tlb, pid, n), Lookup(t.procs, pid, n);
    if hit > -1 {
      AccessKeeps(t, hit, marcos);
      AccessKeeps(Access(t, hit), hit, marcos);
      TouchKeeps(Modify(Access(t, hit), hit), pid, hit, marcos);
    } else if f == OVERFLOW {
      FinishKeeps(t, pid, marcos);
    } else if f > -1 {
      var t1 := if t.tlb == [] then t else TlbTouch(TlbLoad(t, pid, n, f), pid, f);
      if t.tlb != [] {
        LoadTlbKeeps(t, pid, n, f, marcos);
        TouchKeeps(TlbLoad(t, pid, n, f), pid, f, marcos);
      }
      AccessKeeps(t1, f, marcos);
      AccessKeeps(Access(t1, f), f, marcos);
    } else {
      LoadKeeps(t, i, n, a, marcos);
      AccessKeeps(Load(t, i, n, a, marcos).t, f, marcos);
    }
  }

  lemma ServeKeeps(t: Tables, r: Request, a: Algorithm, marcos: nat)
    requires Inv(t, marcos) && QuotaOk(marcos) && Allowed(t, r)
    ensures Inv(Serve(t, r, a, marcos), marcos)
  {
    match r
    case Iniciar(pid, n) => BeginKeeps(t, pid, n, marcos);
    case Leer(pid, n) => SolicitarKeeps(t, pid, n, a, marcos);
    case Escribir(pid, n) => AlmacenarKeeps(t, pid, n, a, marcos);
    case Terminar(pid) =>
      assert ProcOk(t.frames, t.procs[FindProc(t.procs, pid, 0)], marcos);
      FinishKeeps(t, pid, marcos);
    case Cambio(activo) =>
      KillKeeps(t.procs, t.tlb, TlbDropPid(t.tlb, activo), t.accesos);
      TlbKeeps(t, TlbDropPid(t.tlb, activo), marcos);
    case FlushTlb =>
      KillKeeps(t.procs, t.tlb, TlbFlush(t.tlb), t.accesos);
      TlbKeeps(t, TlbFlush(t.tlb), marcos);
    case FlushMemoria => BitsKeep(t, Serve(t, r, a, marcos).frames, t.accesos, marcos);
  }

  // ---------------------------------------------------------------- replacement is local

  /** Only the entry of position `i` may differ, and it is the same process. */
  ghost predicate OnlyAt(ps: seq<Proc>, rs: seq<Proc>, i: nat) {
    i < |ps| == |rs| && rs[i].pid == ps[i].pid && forall k :: 0 <= k < |ps| && k != i ==> rs[k] == ps[k]
  }

  lemma LookupElsewhere(ps: seq<Proc>, rs: seq<Proc>, i: nat, q: nat, m: nat)
    requires OnlyAt(ps, rs, i) && q != ps[i].pid
    ensures Lookup(rs, q, m) == Lookup(ps, q, m)
  {
    var a, b := FindProc(ps, q, 0), FindProc(rs, q, 0);
    assert forall k :: 0 <= k < |ps| ==> rs[k].pid == ps[k].pid;
    assert a < |ps| ==> rs[a].pid == q;
    assert b < |rs| ==> ps[b].pid == q;
  }

  /** Replacement changes the process's own entry, and only kills entries of the TLB. */
  lemma ReplaceShape(t: Tables, i: nat, n: nat, a: Algorithm)
    requires i < |t.procs| && t.procs[i].indice < |t.frames|
    ensures var r := Replace(t, i, n, a).0;
            OnlyAt(t.procs, r.procs, i) && (r.tlb == t.tlb || exists v :: r.tlb == TlbDropFrame(t.tlb, v))
  {
    var p := t.procs[i];
    var c := Victim(t.frames, p.pid, p.indice, a);
    var next := if c.victim < |c.frames| then NextOwned(c.frames, p.pid, c.victim) else 0;
    var t1 := t.(frames := c.frames, procs := t.procs[i := p.(indice := next)]);
    if c.victim < |t1.frames| {
      var g, k := EvictIs(t1, i, c.victim, n);
    }
  }

  lemma LoadLocal(t: Tables, i: nat, n: nat, a: Algorithm, marcos: nat)
    requires i < |t.procs|
    ensures var l := Load(t, i, n, a, marcos).t;
            OnlyAt(t.procs, l.procs, i) && (l.tlb == t.tlb || exists v :: l.tlb == TlbDropFrame(t.tlb, v))
  {
    if t.procs[i].cantFrames >= marcos && t.procs[i].indice < |t.frames| {
      ReplaceShape(t, i, n, a);
    }
  }

  /** Ending a program leaves every page, frame and TLB entry of every other process as it was. */
  lemma FinishLocal(t: Tables, pid: nat, q: nat, m: nat)
    requires FindProc(t.procs, pid, 0) < |t.procs| && q != pid
    ensures Lookup(Finish(t, pid).procs, q, m) == Lookup(t.procs, q, m)
    ensures OthersKept(t.frames, Finish(t, pid).frames, pid)
    ensures forall i :: 0 <= i < |t.tlb| && t.tlb[i].pid != pid ==> Finish(t, pid).tlb[i] == t.tlb[i]
  {
    var ps, i := t.procs, FindProc(t.procs, pid, 0);
    var qs := ps[..i] + ps[i + 1..];
    if FindProc(ps, q, 0) < |ps| {
      FindProcShorter(ps, i, q);
    } else {
      assert forall j :: 0 <= j < |qs| ==> qs[j] == ps[if j < i then j else j + 1];
    }
  }

  lemma SolicitarLocal(t: Tables, pid: nat, n: nat, a: Algorithm, marcos: nat, q: nat, m: nat)
    requires FindProc(t.procs, pid, 0) < |t.procs| && q != pid
    ensures Lookup(Solicitar(t, pid, n, a, marcos).procs, q, m) == Lookup(t.procs, q, m)
  {
    var i := FindProc(t.procs, pid, 0);
    LoadLocal(t, i, n, a, marcos);
    LookupElsewhere(t.procs, Load(t, i, n, a, marcos).t.procs, i, q, m);
    FinishLocal(t, pid, q, m);
  }

  lemma AlmacenarLocal(t: Tables, pid: nat, n: nat, a: Algorithm, marcos: nat, q: nat, m: nat)
    requires FindProc(t.procs, pid, 0) < |t.procs| && q != pid
    ensures Lookup(Almacenar(t, pid, n, a, marcos).procs, q, m) == Lookup(t.procs, q, m)
  {
    var i := FindProc(t.procs, pid, 0);
    LoadLocal(t, i, n, a, marcos);
    LookupElsewhere(t.procs, Load(t, i, n, a, marcos).t.procs, i, q, m);
    FinishLocal(t, pid, q, m);
  }

  /** A read or a write of one process, with whatever replacement it brings, leaves every page
      of every other process where it was. */
  lemma RequestsAreLocal(t: Tables, r: Request, a: Algorithm, marcos: nat, q: nat, m: nat)
    requires (r.Leer? || r.Escribir?) && Allowed(t, r) && q != r.pid
    ensures Lookup(Serve(t, r, a, marcos).procs, q, m) == Lookup(t.procs, q, m)
  {
    if r.Leer? {
      SolicitarLocal(t, r.pid, r.nro, a, marcos, q, m);
    } else {
      AlmacenarLocal(t, r.pid, r.nro, a, marcos, q, m);
    }
  }

  // ---------------------------------------------------------------- runs

  /** The tables as they are set up: all frames free, no process, no live TLB entry. */
  function Initial(frames: nat, entries: nat): Tables {
    Tables(seq(frames, _ => Frame(0, false, false)), [], seq(entries, _ => TlbEntry(0, 0, 0, 0)), 0)
  }

  function Exec(t: Tables, rs: seq<Request>, a: Algorithm, marcos: nat): Tables
    decreases |rs|
  {
    if rs == [] then t else Exec(if Allowed(t, rs[0]) then Serve(t, rs[0], a, marcos) else t, rs[1..], a, marcos)
  }

  lemma {:induction false} ExecKeeps(t: Tables, rs: seq<Request>, a: Algorithm, marcos: nat)
    requires Inv(t, marcos) && QuotaOk(marcos)
    ensures Inv(Exec(t, rs, a, marcos), marcos)
    decreases |rs|
  {
    if rs != [] {
      if Allowed(t, rs[0]) {
        ServeKeeps(t, rs[0], a, marcos);
        ExecKeeps(Serve(t, rs[0], a, marcos), rs[1..], a, marcos);
      } else {
        ExecKeeps(t, rs[1..], a, marcos);
      }
    }
  }

  /** In every state a run can reach: a TLB hit is the page table's answer and no key is live
      twice, the frame named is the process's own, and the process owns between one and `marcos`
      frames once charged, with its clock pointer on one of them. */
  lemma EveryRun(frames: nat, entries: nat, rs: seq<Request>, a: Algorithm, marcos: nat, pid: nat, n: nat)
    requires QuotaOk(marcos) && pid != 0
    ensures var t := Exec(Initial(frames, entries), rs, a, marcos);
            && (TlbLookup(t.tlb, pid, n) > -1 ==> Lookup(t.procs, pid, n) == TlbLookup(t.tlb, pid, n))
            && (Lookup(t.procs, pid, n) > -1 ==>
                  Lookup(t.procs, pid, n) < |t.frames| && t.frames[Lookup(t.procs, pid, n)].pid == pid)
            && (forall i, j :: 0 <= i < j < |t.tlb| ==> !SameKey(t.tlb[i], t.tlb[j]))
            && forall i :: 0 <= i < |t.procs| ==>
                 && Owned(t.frames, t.procs[i].pid) <= t.procs[i].cantFrames <= marcos
                 && (t.procs[i].cantFrames >= 1 ==>
                       Owned(t.frames, t.procs[i].pid) >= 1 && t.procs[i].indice < |t.frames|
                       && t.frames[t.procs[i].indice].pid == t.procs[i].pid)
  {
    var t := Exec(Initial(frames, entries), rs, a, marcos);
    assert Inv(Initial(frames, entries), marcos);
    ExecKeeps(Initial(frames, entries), rs, a, marcos);
    if TlbLookup(t.tlb, pid, n) > -1 {
      TlbAgrees(t, marcos, pid, n);
    }
    if Lookup(t.procs, pid, n) > -1 {
      LookupIsOwn(t, marcos, pid, n);
    }
    forall i | 0 <= i < |t.procs| ensures ProcOk(t.frames, t.procs[i], marcos) {
    }
  }
}
