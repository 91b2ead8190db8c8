/** Whether the TLB gives up its least recently used entry: the recorded stamps against the history
    of requests, over every run. */
module UmcLru {
  import opened UmcClock
  import opened UmcTables
  import opened UmcSafety
  import opened UmcSharing

  // ---------------------------------------------------------------- stamps and history

  /** By what the TLB records, entry `i` goes before entry `j`. */
  predicate Older(tlb: seq<TlbEntry>, i: nat, j: nat)
    requires i < |tlb| && j < |tlb|
  {
    tlb[i].ultimo < tlb[j].ultimo || (tlb[i].ultimo == tlb[j].ultimo && i < j)
  }

  predicate IsUse(r: Request) {
    r.Leer? || r.Escribir?
  }

  predicate Uses(r: Request, pid: nat, n: nat) {
    IsUse(r) && r.pid == pid && r.nro == n
  }

  /** Which request of the history was the last for that page, counting from one; 0 for none. */
  function LastUse(log: seq<Request>, pid: nat, n: nat): (k: nat)
    ensures k <= |log|
  {
    if log == [] then 0
    else if Uses(log[|log| - 1], pid, n) then |log|
    else LastUse(log[..|log| - 1], pid, n)
  }

  function Used(log: seq<Request>, e: TlbEntry): nat {
    LastUse(log, e.pid, e.nro)
  }

  lemma LastUseMore(log: seq<Request>, r: Request, pid: nat, n: nat)
    ensures LastUse(log + [r], pid, n) == if Uses(r, pid, n) then |log| + 1 else LastUse(log, pid, n)
  {
    assert (log + [r])[..|log|] == log;
  }

  lemma {:induction false} LastUseIsOne(log: seq<Request>, pid: nat, n: nat, pid': nat, n': nat)
    requires LastUse(log, pid, n) == LastUse(log, pid', n') > 0
    ensures pid == pid' && n == n'
  {
    if !Uses(log[|log| - 1], pid, n) {
      LastUseIsOne(log[..|log| - 1], pid, n, pid', n');
    }
  }

  predicate Live(tlb: seq<TlbEntry>, i: nat) {
    i < |tlb| && tlb[i].pid != 0
  }

  /** Every live entry is for a page some request was for. */
  ghost predicate Known(tlb: seq<TlbEntry>, log: seq<Request>) {
    forall i :: 0 <= i < |tlb| && Live(tlb, i) ==> Used(log, tlb[i]) > 0
  }

  /** The stamps are in the order of use. */
  ghost predicate InOrder(tlb: seq<TlbEntry>, log: seq<Request>) {
    forall i, j :: 0 <= i < |tlb| && 0 <= j < |tlb| && Live(tlb, i) && Live(tlb, j) ==>
      Used(log, tlb[i]) < Used(log, tlb[j]) ==> Older(tlb, i, j)
  }

  ghost predicate Distinct(tlb: seq<TlbEntry>) {
    forall i, j :: 0 <= i < |tlb| && 0 <= j < |tlb| && i != j ==> !SameKey(tlb[i], tlb[j])
  }

  /** In order, older by the stamps and used before are the same. */
  lemma OlderIsUsedBefore(tlb: seq<TlbEntry>, log: seq<Request>, i: nat, j: nat)
    requires Known(tlb, log) && InOrder(tlb, log) && Distinct(tlb) && Live(tlb, i) && Live(tlb, j) && i != j
    ensures Older(tlb, i, j) <==> Used(log, tlb[i]) < Used(log, tlb[j])
  {
    assert !SameKey(tlb[i], tlb[j]);
    if Used(log, tlb[i]) == Used(log, tlb[j]) {
      LastUseIsOne(log, tlb[i].pid, tlb[i].nro, tlb[j].pid, tlb[j].nro);
    }
  }

  // ---------------------------------------------------------------- what a request does to the TLB

  /** Entries are as they were, or dead. */
  ghost predicate Thinned(tlb: seq<TlbEntry>, after: seq<TlbEntry>) {
    |after| == |tlb| && forall i :: 0 <= i < |tlb| ==> after[i] == tlb[i] || after[i] == tlb[i].(pid := 0)
  }

  /** Entries other than `k` are for the pages they were for. */
  ghost predicate SameButFor(tlb: seq<TlbEntry>, after: seq<TlbEntry>, k: nat) {
    && k < |tlb| == |after|
    && forall i :: 0 <= i < |tlb| && i != k ==> after[i].pid == tlb[i].pid && after[i].nro == tlb[i].nro
  }

  function After(t: Tables, r: Request, a: Algorithm, marcos: nat): seq<TlbEntry> {
    Serve(t, r, a, marcos).tlb
  }

  /** The entry of the page a request was for. */
  function Place(t: Tables, r: Request, a: Algorithm, marcos: nat): nat
    requires IsUse(r)
  {
    FindTlb(After(t, r, a, marcos), r.pid, r.nro, 0)
  }

  lemma LoadThins(t: Tables, i: nat, n: nat, a: Algorithm, marcos: nat)
    requires i < |t.procs|
    ensures Thinned(t.tlb, Load(t, i, n, a, marcos).t.tlb)
  {
    LoadLocal(t, i, n, a, marcos);
  }

  /** Neither in the TLB nor to be entered there. */
  lemma MissEffect(t: Tables, r: Request, a: Algorithm, marcos: nat)
    requires IsUse(r) && Allowed(t, r) && TlbLookup(t.tlb, r.pid, r.nro) == -1
    requires Lookup(t.procs, r.pid, r.nro) <= -1 || t.tlb == []
    ensures Thinned(t.tlb, After(t, r, a, marcos))
  {
    LoadThins(t, FindProc(t.procs, r.pid, 0), r.nro, a, marcos);
  }

  /** A read or write thins the TLB out and leaves its page without an entry, or keeps the pages
      of all entries but its own. */
  lemma UseEffect(t: Tables, r: Request, a: Algorithm, marcos: nat)
    requires IsUse(r) && Allowed(t, r) && r.pid != 0
    ensures var after, k := After(t, r, a, marcos), Place(t, r, a, marcos);
            if k == |after| then Thinned(t.tlb, after) else SameButFor(t.tlb, after, k)
  {
    var hit := TlbLookup(t.tlb, r.pid, r.nro);
    if hit > -1 {
      HitEffect(t, r, a, marcos);
    } else if Lookup(t.procs, r.pid, r.nro) > -1 && t.tlb != [] {
      LoadEffect(t, r, a, marcos);
    } else {
      MissEffect(t, r, a, marcos);
      ThinnedStillOut(t.tlb, After(t, r, a, marcos), r.pid, r.nro);
    }
  }

  lemma ThinnedStillOut(tlb: seq<TlbEntry>, after: seq<TlbEntry>, pid: nat, n: nat)
    requires Thinned(tlb, after) && FindTlb(tlb, pid, n, 0) == |tlb| && pid != 0
    ensures FindTlb(after, pid, n, 0) == |after|
  {
    forall i | 0 <= i < |after| ensures !(after[i].pid == pid && after[i].nro == n) {
      assert after[i] == tlb[i] || after[i] == tlb[i].(pid := 0);
    }
  }

  /** The stamp a request leaves on a TLB hit. */
  function HitStamp(t: Tables): nat {
    (t.accesos + 1) % WORD
  }

  function Touched(tlb: seq<TlbEntry>, m: nat, stamp: nat): seq<TlbEntry>
    requires m < |tlb|
  {
    tlb[m := tlb[m].(ultimo := stamp)]
  }

  /** A hit stamps the first entry with the process and the frame found. */
  lemma HitEffect(t: Tables, r: Request, a: Algorithm, marcos: nat)
    requires IsUse(r) && TlbLookup(t.tlb, r.pid, r.nro) > -1
    ensures var k := FindTlb(t.tlb, r.pid, r.nro, 0);
            && k < |t.tlb| && Place(t, r, a, marcos) == k
            && var m := FindTouched(t.tlb, r.pid, t.tlb[k].frame, 0);
            && m <= k && After(t, r, a, marcos) == Touched(t.tlb, m, HitStamp(t))
  {
    var k := FindTlb(t.tlb, r.pid, r.nro, 0);
    var m := FindTouched(t.tlb, r.pid, t.tlb[k].frame, 0);
    assert m <= k;
    var after := Touched(t.tlb, m, HitStamp(t));
    assert After(t, r, a, marcos) == after;
    SamePlace(t.tlb, after, r.pid, r.nro);
  }

  lemma SamePlace(tlb: seq<TlbEntry>, after: seq<TlbEntry>, pid: nat, n: nat)
    requires |after| == |tlb| && forall i :: 0 <= i < |tlb| ==> after[i].pid == tlb[i].pid && after[i].nro == tlb[i].nro
    ensures FindTlb(after, pid, n, 0) == FindTlb(tlb, pid, n, 0)
  {
    var k, j := FindTlb(tlb, pid, n, 0), FindTlb(after, pid, n, 0);
    assert k < |tlb| ==> after[k].pid == pid && after[k].nro == n;
    assert j < |tlb| ==> tlb[j].pid == pid && tlb[j].nro == n;
  }

  /** The stamp of a page that is resident but not in the TLB: a read counts its access before the
      entry is made, a write after. */
  function LoadStamp(t: Tables, r: Request): nat {
    if r.Leer? then (t.accesos + 1) % WORD else t.accesos % WORD
  }

  function LoadPlace(t: Tables, r: Request): (k: nat)
    requires t.tlb != []
    ensures k < |t.tlb|
  {
    var e := FindEmpty(t.tlb, 0);
    if e < |t.tlb| then e else Oldest(t.tlb, 0, 0, if r.Leer? then t.accesos + 1 else t.accesos)
  }

  function WithEntry(t: Tables, r: Request, f: nat): seq<TlbEntry>
    requires t.tlb != [] && IsUse(r)
  {
    t.tlb[LoadPlace(t, r) := TlbEntry(r.nro, f, r.pid, LoadStamp(t, r))]
  }

  lemma LoadEffect(t: Tables, r: Request, a: Algorithm, marcos: nat)
    requires IsUse(r) && t.tlb != [] && TlbLookup(t.tlb, r.pid, r.nro) == -1 && Lookup(t.procs, r.pid, r.nro) > -1
    ensures var k, mid := LoadPlace(t, r), WithEntry(t, r, Lookup(t.procs, r.pid, r.nro));
            && Place(t, r, a, marcos) == k
            && var m := FindTouched(mid, r.pid, Lookup(t.procs, r.pid, r.nro), 0);
            && m <= k && After(t, r, a, marcos) == Touched(mid, m, LoadStamp(t, r))
  {
    var f := Lookup(t.procs, r.pid, r.nro);
    var k, mid := LoadPlace(t, r), WithEntry(t, r, f);
    var m := FindTouched(mid, r.pid, f, 0);
    assert mid[k].pid == r.pid && mid[k].frame == f;
    var after := Touched(mid, m, LoadStamp(t, r));
    assert After(t, r, a, marcos) == after;
    SamePlace(mid, after, r.pid, r.nro);
    assert forall j :: 0 <= j < k ==> mid[j] == t.tlb[j];
  }

  lemma OtherEffect(t: Tables, r: Request, a: Algorithm, marcos: nat)
    requires !IsUse(r)
    ensures Thinned(t.tlb, After(t, r, a, marcos))
  {
  }

  // ---------------------------------------------------------------- one request

  /** The entry of the request's page, if it has one afterwards, is then the newest by the stamps,
      and the others are among themselves in the order they were in. */
  ghost predicate Fair(t: Tables, r: Request, a: Algorithm, marcos: nat) {
    IsUse(r) ==>
      var after, k := After(t, r, a, marcos), Place(t, r, a, marcos);
      k < |after| == |t.tlb| ==> Newest(after, k) && OthersInOrder(t.tlb, after, k)
  }

  ghost predicate Newest(tlb: seq<TlbEntry>, k: nat)
    requires k < |tlb|
  {
    forall j :: 0 <= j < |tlb| && j != k && Live(tlb, j) ==> Older(tlb, j, k)
  }

  ghost predicate OthersInOrder(tlb: seq<TlbEntry>, after: seq<TlbEntry>, k: nat)
    requires |after| == |tlb|
  {
    forall i, j :: 0 <= i < |tlb| && 0 <= j < |tlb| && i != k && j != k && Live(after, i) && Live(after, j) ==>
      Older(tlb, i, j) ==> Older(after, i, j)
  }

  lemma ThinnedInOrder(tlb: seq<TlbEntry>, after: seq<TlbEntry>, log: seq<Request>)
    requires Thinned(tlb, after) && Known(tlb, log) && InOrder(tlb, log)
    ensures Known(after, log) && InOrder(after, log)
  {
    forall i | 0 <= i < |after| && Live(after, i) ensures after[i] == tlb[i] && Live(tlb, i) {
    }
  }

  /** Only the history of the request's page moves on. */
  lemma SameHistory(tlb: seq<TlbEntry>, log: seq<Request>, r: Request)
    requires IsUse(r) ==> FindTlb(tlb, r.pid, r.nro, 0) == |tlb|
    ensures forall i :: 0 <= i < |tlb| && Live(tlb, i) ==> Used(log + [r], tlb[i]) == Used(log, tlb[i])
  {
    forall i | 0 <= i < |tlb| && Live(tlb, i) ensures Used(log + [r], tlb[i]) == Used(log, tlb[i]) {
      LastUseMore(log, r, tlb[i].pid, tlb[i].nro);
    }
  }

  lemma UseHistory(tlb: seq<TlbEntry>, after: seq<TlbEntry>, log: seq<Request>, r: Request, k: nat)
    requires IsUse(r) && SameButFor(tlb, after, k) && Distinct(after) && r.pid != 0
    requires after[k].pid == r.pid && after[k].nro == r.nro
    ensures Used(log + [r], after[k]) == |log| + 1
    ensures forall i :: 0 <= i < |tlb| && i != k && Live(after, i) ==>
              Live(tlb, i) && Used(log + [r], after[i]) == Used(log, tlb[i]) <= |log|
  {
    LastUseMore(log, r, r.pid, r.nro);
    forall i | 0 <= i < |tlb| && i != k && Live(after, i)
      ensures Live(tlb, i) && Used(log + [r], after[i]) == Used(log, tlb[i])
    {
      assert !SameKey(after[i], after[k]);
      LastUseMore(log, r, after[i].pid, after[i].nro);
    }
  }

  /** With the histories as they are, order afterwards is what `Fair` asks for. */
  lemma FairMeansInOrder(tlb: seq<TlbEntry>, after: seq<TlbEntry>, log: seq<Request>, r: Request, k: nat)
    requires IsUse(r) && SameButFor(tlb, after, k) && Distinct(tlb) && Distinct(after) && r.pid != 0
    requires after[k].pid == r.pid && after[k].nro == r.nro && Known(tlb, log) && InOrder(tlb, log)
    requires Newest(after, k) && OthersInOrder(tlb, after, k)
    ensures InOrder(after, log + [r])
  {
    UseHistory(tlb, after, log, r, k);
    var now := log + [r];
    forall i, j | 0 <= i < |after| && 0 <= j < |after| && Live(after, i) && Live(after, j)
      && Used(now, after[i]) < Used(now, after[j])
      ensures Older(after, i, j)
    {
      if j != k {
        OlderIsUsedBefore(tlb, log, i, j);
      }
    }
  }

  lemma InOrderMeansFair(tlb: seq<TlbEntry>, after: seq<TlbEntry>, log: seq<Request>, r: Request, k: nat)
    requires IsUse(r) && SameButFor(tlb, after, k) && Distinct(tlb) && Distinct(after) && r.pid != 0
    requires after[k].pid == r.pid && after[k].nro == r.nro && Known(tlb, log) && InOrder(tlb, log)
    requires InOrder(after, log + [r])
    ensures Newest(after, k) && OthersInOrder(tlb, after, k)
  {
    UseHistory(tlb, after, log, r, k);
    forall j | 0 <= j < |after| && j != k && Live(after, j) ensures Older(after, j, k) {
      assert Live(after, k);
    }
    forall i, j | 0 <= i < |tlb| && 0 <= j < |tlb| && i != k && j != k && Live(after, i) && Live(after, j)
      && Older(tlb, i, j)
      ensures Older(after, i, j)
    {
      OlderIsUsedBefore(tlb, log, i, j);
    }
  }

  lemma InvDistinct(t: Tables, marcos: nat)
    requires Inv(t, marcos)
    ensures Distinct(t.tlb)
  {
    forall i, j | 0 <= i < |t.tlb| && 0 <= j < |t.tlb| && i != j ensures !SameKey(t.tlb[i], t.tlb[j]) {
      assert i < j ==> !SameKey(t.tlb[i], t.tlb[j]);
      assert j < i ==> !SameKey(t.tlb[j], t.tlb[i]);
    }
  }

  /** Stamps that are in the order of use stay in it exactly when the request is fair. */
  lemma FairIff(t: Tables, log: seq<Request>, r: Request, a: Algorithm, marcos: nat)
    requires Inv(t, marcos) && QuotaOk(marcos) && Allowed(t, r) && Known(t.tlb, log) && InOrder(t.tlb, log)
    ensures Known(After(t, r, a, marcos), log + [r])
    ensures InOrder(After(t, r, a, marcos), log + [r]) <==> Fair(t, r, a, marcos)
  {
    var after := After(t, r, a, marcos);
    ServeKeeps(t, r, a, marcos);
    InvDistinct(t, marcos);
    InvDistinct(Serve(t, r, a, marcos), marcos);
    if IsUse(r) {
      UserExists(t, r, marcos);
      UseEffect(t, r, a, marcos);
      FairIffUse(t.tlb, after, log, r);
    } else {
      OtherEffect(t, r, a, marcos);
      ThinnedInOrder(t.tlb, after, log);
      SameHistory(after, log, r);
    }
  }

  lemma UserExists(t: Tables, r: Request, marcos: nat)
    requires Inv(t, marcos) && IsUse(r) && Allowed(t, r)
    ensures r.pid != 0
  {
    assert ProcOk(t.frames, t.procs[FindProc(t.procs, r.pid, 0)], marcos);
  }

  lemma FairIffUse(tlb: seq<TlbEntry>, after: seq<TlbEntry>, log: seq<Request>, r: Request)
    requires IsUse(r) && r.pid != 0 && Distinct(tlb) && Distinct(after) && Known(tlb, log) && InOrder(tlb, log)
    requires var k := FindTlb(after, r.pid, r.nro, 0);
             if k == |after| then Thinned(tlb, after) else SameButFor(tlb, after, k)
    ensures |after| == |tlb| && Known(after, log + [r])
    ensures var k := FindTlb(after, r.pid, r.nro, 0);
            InOrder(after, log + [r]) <==> (k < |after| ==> Newest(after, k) && OthersInOrder(tlb, after, k))
  {
    var k := FindTlb(after, r.pid, r.nro, 0);
    if k == |after| {
      ThinnedInOrder(tlb, after, log);
      SameHistory(after, log, r);
    } else {
      UseHistory(tlb, after, log, r, k);
      if Newest(after, k) && OthersInOrder(tlb, after, k) {
        FairMeansInOrder(tlb, after, log, r, k);
      }
      if InOrder(after, log + [r]) {
        InOrderMeansFair(tlb, after, log, r, k);
      }
    }
  }

  // ---------------------------------------------------------------- when a request is fair

  /** Stamp `u` at place `k` is newer than every live entry's but those of `k` and `m`. */
  ghost predicate NewerThanAll(tlb: seq<TlbEntry>, k: nat, m: nat, u: nat) {
    forall j :: 0 <= j < |tlb| && j != k && j != m && Live(tlb, j) ==>
      tlb[j].ultimo < u || (tlb[j].ultimo == u && j < k)
  }

  /** Stamp `s` leaves entry `m` in its place among the live entries other than `k`. */
  ghost predicate InPlace(tlb: seq<TlbEntry>, k: nat, m: nat, s: nat)
    requires m < |tlb|
  {
    forall j :: 0 <= j < |tlb| && j != k && j != m && Live(tlb, j) ==>
      && (Older(tlb, j, m) ==> tlb[j].ultimo < s || (tlb[j].ultimo == s && j < m))
      && (Older(tlb, m, j) ==> s < tlb[j].ultimo || (tlb[j].ultimo == s && m < j))
  }

  /** The condition on the stamps of before: `m` is stamped `s`, and `k` ends with stamp `u`. */
  ghost predicate KeepsOrder(tlb: seq<TlbEntry>, k: nat, m: nat, s: nat, u: nat)
    requires m < |tlb|
  {
    NewerThanAll(tlb, k, m, u) && (m == k || (s <= u && InPlace(tlb, k, m, s)))
  }

  ghost predicate Stamped(tlb: seq<TlbEntry>, after: seq<TlbEntry>, k: nat, m: nat, s: nat, u: nat) {
    && |after| == |tlb| && m <= k < |tlb| && after[k].ultimo == u && (m == k ==> s == u)
    && (m != k ==> Live(tlb, m) && after[m] == tlb[m].(ultimo := s))
    && forall j :: 0 <= j < |tlb| && j != k && j != m ==> after[j] == tlb[j]
  }

  lemma StampedOnly(tlb: seq<TlbEntry>, after: seq<TlbEntry>, k: nat, m: nat, s: nat, u: nat)
    requires Stamped(tlb, after, k, m, s, u) && Newest(after, k) && OthersInOrder(tlb, after, k)
    ensures KeepsOrder(tlb, k, m, s, u)
  {
    if m != k {
      assert Live(after, m) && Older(after, m, k);
    }
    forall j | 0 <= j < |tlb| && j != k && j != m && Live(tlb, j)
      ensures tlb[j].ultimo < u || (tlb[j].ultimo == u && j < k)
      ensures m != k && Older(tlb, j, m) ==> Older(after, j, m)
      ensures m != k && Older(tlb, m, j) ==> Older(after, m, j)
    {
      assert Live(after, j) && Older(after, j, k);
    }
  }

  lemma StampedIf(tlb: seq<TlbEntry>, after: seq<TlbEntry>, k: nat, m: nat, s: nat, u: nat)
    requires Stamped(tlb, after, k, m, s, u) && KeepsOrder(tlb, k, m, s, u)
    ensures Newest(after, k) && OthersInOrder(tlb, after, k)
  {
    forall j | 0 <= j < |after| && j != k && Live(after, j) ensures Older(after, j, k) {
      assert j != m ==> Live(tlb, j);
    }
    forall i, j | 0 <= i < |tlb| && 0 <= j < |tlb| && i != k && j != k && Live(after, i) && Live(after, j)
      && Older(tlb, i, j)
      ensures Older(after, i, j)
    {
      assert Live(tlb, i) && Live(tlb, j);
    }
  }

  lemma StampedIff(tlb: seq<TlbEntry>, after: seq<TlbEntry>, k: nat, m: nat, s: nat, u: nat)
    requires Stamped(tlb, after, k, m, s, u)
    ensures Newest(after, k) && OthersInOrder(tlb, after, k) <==> KeepsOrder(tlb, k, m, s, u)
  {
    if Newest(after, k) && OthersInOrder(tlb, after, k) {
      StampedOnly(tlb, after, k, m, s, u);
    }
    if KeepsOrder(tlb, k, m, s, u) {
      StampedIf(tlb, after, k, m, s, u);
    }
  }

  /** What fairness is on a hit. */
  lemma HitFairIs(t: Tables, r: Request, a: Algorithm, marcos: nat)
    requires IsUse(r) && TlbLookup(t.tlb, r.pid, r.nro) > -1
    ensures var k := FindTlb(t.tlb, r.pid, r.nro, 0);
            var m := FindTouched(t.tlb, r.pid, t.tlb[k].frame, 0);
            && m <= k < |t.tlb|
            && After(t, r, a, marcos) == Touched(t.tlb, m, HitStamp(t))
            && (Fair(t, r, a, marcos)
                <==> Newest(After(t, r, a, marcos), k) && OthersInOrder(t.tlb, After(t, r, a, marcos), k))
  {
    HitEffect(t, r, a, marcos);
  }

  /** While the access count fits, a hit leaves a newer stamp than any there is. */
  lemma StampsBehind(t: Tables, k: nat, marcos: nat)
    requires Inv(t, marcos)
    ensures t.accesos + 1 < WORD ==> NewerThanAll(t.tlb, k, k, HitStamp(t))
    ensures t.accesos + 1 < WORD && k < |t.tlb| ==> t.tlb[k].ultimo < HitStamp(t)
  {
  }

  /** A TLB hit is fair exactly when the stamp left is newer than all others, if the entry is the
      first for its process and frame; if an earlier one is stamped in its stead, exactly when the
      entry was the newest already and the stamp leaves that earlier one in its place.  While the
      access count has not outgrown its 16-bit copies the former is always so, the latter never. */
  lemma HitFairIff(t: Tables, r: Request, a: Algorithm, marcos: nat)
    requires Inv(t, marcos) && IsUse(r) && Allowed(t, r) && TlbLookup(t.tlb, r.pid, r.nro) > -1
    ensures var k, s := FindTlb(t.tlb, r.pid, r.nro, 0), HitStamp(t);
            var m := FindTouched(t.tlb, r.pid, t.tlb[k].frame, 0);
            && m <= k
            && (Fair(t, r, a, marcos) <==> KeepsOrder(t.tlb, k, m, s, if m == k then s else t.tlb[k].ultimo))
            && (t.accesos + 1 < WORD ==> (Fair(t, r, a, marcos) <==> m == k))
  {
    var k, s := FindTlb(t.tlb, r.pid, r.nro, 0), HitStamp(t);
    var m := FindTouched(t.tlb, r.pid, t.tlb[k].frame, 0);
    HitFairIs(t, r, a, marcos);
    UserExists(t, r, marcos);
    StampsBehind(t, k, marcos);
    StampedIff(t.tlb, Touched(t.tlb, m, s), k, m, s, if m == k then s else t.tlb[k].ultimo);
  }

  /** When the access count wraps, a hit on the first entry of its frame leaves it older than every
      other live entry with a stamp, so the order is lost as soon as there is one. */
  lemma WrapIsUnfair(t: Tables, r: Request, a: Algorithm, marcos: nat, j: nat)
    requires Inv(t, marcos) && IsUse(r) && Allowed(t, r) && TlbLookup(t.tlb, r.pid, r.nro) > -1
    requires (t.accesos + 1) % WORD == 0 && Live(t.tlb, j) && j != FindTlb(t.tlb, r.pid, r.nro, 0)
    requires t.tlb[j].ultimo > 0
    requires var k := FindTlb(t.tlb, r.pid, r.nro, 0); FindTouched(t.tlb, r.pid, t.tlb[k].frame, 0) == k
    ensures !Fair(t, r, a, marcos)
    ensures var k, after := FindTlb(t.tlb, r.pid, r.nro, 0), After(t, r, a, marcos);
            k < |after| && j < |after| && Live(after, j) && Older(after, k, j)
  {
    HitFairIff(t, r, a, marcos);
    HitFairIs(t, r, a, marcos);
    assert HitStamp(t) == 0;
  }

  lemma LoadFairIs(t: Tables, r: Request, a: Algorithm, marcos: nat)
    requires IsUse(r) && t.tlb != [] && TlbLookup(t.tlb, r.pid, r.nro) == -1 && Lookup(t.procs, r.pid, r.nro) > -1
    ensures var k, f := LoadPlace(t, r), Lookup(t.procs, r.pid, r.nro);
            var m := FindTouched(WithEntry(t, r, f), r.pid, f, 0);
            && m <= k
            && var after := Touched(WithEntry(t, r, f), m, LoadStamp(t, r));
            (Fair(t, r, a, marcos) <==> Newest(after, k) && OthersInOrder(t.tlb, after, k))
  {
    LoadEffect(t, r, a, marcos);
  }

  lemma LoadFairTables(t: Tables, r: Request, f: nat)
    requires IsUse(r) && t.tlb != [] && r.pid != 0
    ensures var k, s, m := LoadPlace(t, r), LoadStamp(t, r), FindTouched(WithEntry(t, r, f), r.pid, f, 0);
            && m <= k
            && var after := Touched(WithEntry(t, r, f), m, s);
            (Newest(after, k) && OthersInOrder(t.tlb, after, k) <==> KeepsOrder(t.tlb, k, m, s, s))
  {
    var k, s, mid := LoadPlace(t, r), LoadStamp(t, r), WithEntry(t, r, f);
    assert mid[k] == TlbEntry(r.nro, f, r.pid, s);
    var m := FindTouched(mid, r.pid, f, 0);
    StampedIff(t.tlb, Touched(mid, m, s), k, m, s, s);
  }

  /** A request that makes a new entry is fair exactly when the entry's stamp is newer than all
      others, and leaves an earlier entry for the same process and frame, which gets the same stamp,
      in its place. */
  lemma LoadFairIff(t: Tables, r: Request, a: Algorithm, marcos: nat)
    requires Inv(t, marcos) && IsUse(r) && Allowed(t, r) && t.tlb != []
    requires TlbLookup(t.tlb, r.pid, r.nro) == -1 && Lookup(t.procs, r.pid, r.nro) > -1
    ensures var k, f, s := LoadPlace(t, r), Lookup(t.procs, r.pid, r.nro), LoadStamp(t, r);
            var m := FindTouched(WithEntry(t, r, f), r.pid, f, 0);
            m <= k && (Fair(t, r, a, marcos) <==> KeepsOrder(t.tlb, k, m, s, s))
  {
    UserExists(t, r, marcos);
    LoadFairIs(t, r, a, marcos);
    LoadFairTables(t, r, Lookup(t.procs, r.pid, r.nro));
  }

  // ---------------------------------------------------------------- over every run

  ghost predicate FairRun(t: Tables, rs: seq<Request>, a: Algorithm, marcos: nat)
    decreases |rs|
  {
    rs == []
    || if Allowed(t, rs[0]) then Fair(t, rs[0], a, marcos) && FairRun(Serve(t, rs[0], a, marcos), rs[1..], a, marcos)
       else FairRun(t, rs[1..], a, marcos)
  }

  /** A request for a process that is not there concerns no entry. */
  lemma RefusedChangesNothing(t: Tables, log: seq<Request>, r: Request, marcos: nat)
    requires Inv(t, marcos) && !Allowed(t, r) && Known(t.tlb, log) && InOrder(t.tlb, log)
    ensures Known(t.tlb, log + [r]) && InOrder(t.tlb, log + [r])
  {
    if IsUse(r) {
      var k := FindTlb(t.tlb, r.pid, r.nro, 0);
      if k < |t.tlb| {
        assert EntryOk(t.procs, t.tlb[k]);
        assert r.pid == 0;
      }
      forall i | 0 <= i < |t.tlb| && Live(t.tlb, i) ensures Used(log + [r], t.tlb[i]) == Used(log, t.tlb[i]) {
        assert EntryOk(t.procs, t.tlb[i]);
        LastUseMore(log, r, t.tlb[i].pid, t.tlb[i].nro);
      }
    } else {
      SameHistory(t.tlb, log, r);
    }
  }

  lemma {:induction false} RunInOrder(t: Tables, log: seq<Request>, rs: seq<Request>, a: Algorithm, marcos: nat)
    requires Inv(t, marcos) && QuotaOk(marcos) && FairRun(t, rs, a, marcos)
    requires Known(t.tlb, log) && InOrder(t.tlb, log)
    ensures Known(Exec(t, rs, a, marcos).tlb, log + rs) && InOrder(Exec(t, rs, a, marcos).tlb, log + rs)
    decreases |rs|
  {
    if rs == [] {
      assert log + [] == log;
    } else {
      var r := rs[0];
      assert log + [r] + rs[1..] == log + rs;
      if Allowed(t, r) {
        FairIff(t, log, r, a, marcos);
        ServeKeeps(t, r, a, marcos);
        RunInOrder(Serve(t, r, a, marcos), log + [r], rs[1..], a, marcos);
      } else {
        RefusedChangesNothing(t, log, r, marcos);
        RunInOrder(t, log + [r], rs[1..], a, marcos);
      }
    }
  }

  lemma InitialInv(frames: nat, entries: nat, marcos: nat)
    ensures Inv(Initial(frames, entries), marcos)
  {
  }

  /** After a run of fair requests a full TLB gives up the entry of the page used longest ago. */
  lemma VictimIsLru(frames: nat, entries: nat, rs: seq<Request>, a: Algorithm, marcos: nat)
    requires QuotaOk(marcos) && FairRun(Initial(frames, entries), rs, a, marcos)
    requires var t := Exec(Initial(frames, entries), rs, a, marcos); t.tlb != [] && FindEmpty(t.tlb, 0) == |t.tlb|
    ensures var t := Exec(Initial(frames, entries), rs, a, marcos);
            var v := Oldest(t.tlb, 0, 0, t.accesos);
            forall j :: 0 <= j < |t.tlb| && j != v ==> 0 < Used(rs, t.tlb[v]) < Used(rs, t.tlb[j])
  {
    var t0 := Initial(frames, entries);
    var t := Exec(t0, rs, a, marcos);
    InitialInv(frames, entries, marcos);
    ExecKeeps(t0, rs, a, marcos);
    RunInOrder(t0, [], rs, a, marcos);
    assert [] + rs == rs;
    InvDistinct(t, marcos);
    TlbVictimIsOldest(t, marcos);
    var v := Oldest(t.tlb, 0, 0, t.accesos);
    forall j | 0 <= j < |t.tlb| && j != v ensures 0 < Used(rs, t.tlb[v]) < Used(rs, t.tlb[j]) {
      assert Live(t.tlb, v) && Live(t.tlb, j) && Older(t.tlb, v, j);
      OlderIsUsedBefore(t.tlb, rs, v, j);
    }
  }

  // ---------------------------------------------------------------- a run whose victim was used last

  /** Reading a resident page of the process that holds the only frame. */
  lemma ResidentRead(pages: seq<PageEntry>, tlb: seq<TlbEntry>, n: nat, accesos: nat, a: Algorithm)
    requires Numbered(pages) && n < |pages| && pages[n] == PageEntry(0, n, M) && tlb != []
    requires TlbLookup(tlb, 1, n) == -1 || TlbLookup(tlb, 1, n) == 0
    ensures Lookup([Proc(1, 1, 0, pages)], 1, n) == 0
    ensures var t := OneFrame(pages, tlb, accesos);
            Serve(t, Leer(1, n), a, 1) == OneFrame(pages, After(t, Leer(1, n), a, 1), accesos + 1)
  {
    var t := OneFrame(pages, tlb, accesos);
    NumberedFinds(pages, n);
    assert Access(t, 0).frames == t.frames;
  }

  /** Two of the pages are read again, the second one twice. */
  lemma ReadOne(p: seq<PageEntry>, e: TlbEntry, accesos: nat, a: Algorithm)
    requires Numbered(p) && 1 < |p| && p[1] == PageEntry(0, 1, M) && accesos + 1 < WORD && e.pid == 0
    ensures Serve(OneFrame(p, [e, e], accesos), Leer(1, 1), a, 1)
            == OneFrame(p, [TlbEntry(1, 0, 1, accesos + 1), e], accesos + 1)
  {
    var t := OneFrame(p, [e, e], accesos);
    ResidentRead(p, t.tlb, 1, accesos, a);
    LoadEffect(t, Leer(1, 1), a, 1);
    assert WithEntry(t, Leer(1, 1), 0) == [TlbEntry(1, 0, 1, accesos + 1), e];
  }

  lemma ReadTwo(p: seq<PageEntry>, e: TlbEntry, accesos: nat, a: Algorithm)
    requires Numbered(p) && 2 < |p| && p[2] == PageEntry(0, 2, M) && accesos + 1 < WORD && e.pid == 0
    ensures Serve(OneFrame(p, [TlbEntry(1, 0, 1, accesos), e], accesos), Leer(1, 2), a, 1)
            == OneFrame(p, [TlbEntry(1, 0, 1, accesos + 1), TlbEntry(2, 0, 1, accesos + 1)], accesos + 1)
  {
    var t := OneFrame(p, [TlbEntry(1, 0, 1, accesos), e], accesos);
    ResidentRead(p, t.tlb, 2, accesos, a);
    LoadEffect(t, Leer(1, 2), a, 1);
    assert FindEmpty(t.tlb, 0) == FindEmpty(t.tlb, 1) == 1;
    var mid := [TlbEntry(1, 0, 1, accesos), TlbEntry(2, 0, 1, accesos + 1)];
    assert WithEntry(t, Leer(1, 2), 0) == mid;
    assert Touched(mid, 0, accesos + 1) == [TlbEntry(1, 0, 1, accesos + 1), TlbEntry(2, 0, 1, accesos + 1)];
  }

  lemma ReadTwoAgain(p: seq<PageEntry>, accesos: nat, a: Algorithm)
    requires Numbered(p) && 2 < |p| && p[2] == PageEntry(0, 2, M) && accesos + 1 < WORD
    ensures Serve(OneFrame(p, [TlbEntry(1, 0, 1, accesos), TlbEntry(2, 0, 1, accesos)], accesos), Leer(1, 2), a, 1)
            == OneFrame(p, [TlbEntry(1, 0, 1, accesos + 1), TlbEntry(2, 0, 1, accesos)], accesos + 1)
  {
    var tlb := [TlbEntry(1, 0, 1, accesos), TlbEntry(2, 0, 1, accesos)];
    var t := OneFrame(p, tlb, accesos);
    assert FindTlb(tlb, 1, 2, 0) == FindTlb(tlb, 1, 2, 1) == 1;
    ResidentRead(p, tlb, 2, accesos, a);
    HitEffect(t, Leer(1, 2), a, 1);
    assert Touched(tlb, 0, accesos + 1) == [TlbEntry(1, 0, 1, accesos + 1), TlbEntry(2, 0, 1, accesos)];
  }

  function Reading(): seq<Request> {
    [Leer(1, 1), Leer(1, 2), Leer(1, 2)]
  }

  lemma ReadingOnce(p: seq<PageEntry>, e: TlbEntry, x: nat, a: Algorithm)
    requires Numbered(p) && 2 < |p| && p[1] == PageEntry(0, 1, M) && p[2] == PageEntry(0, 2, M)
    requires x + 2 < WORD && e.pid == 0
    ensures Exec(OneFrame(p, [e, e], x), [Leer(1, 1), Leer(1, 2)], a, 1)
            == OneFrame(p, [TlbEntry(1, 0, 1, x + 2), TlbEntry(2, 0, 1, x + 2)], x + 2)
  {
    var tlb := [TlbEntry(1, 0, 1, x + 1), e];
    ReadOne(p, e, x, a);
    ReadTwo(p, e, x + 1, a);
    OneFrameAllows(p, [e, e], x, 1);
    OneFrameAllows(p, tlb, x + 1, 2);
    ExecOne(OneFrame(p, [e, e], x), Leer(1, 1), a, 1);
    ExecThen(OneFrame(p, [e, e], x), [Leer(1, 1)], OneFrame(p, tlb, x + 1), Leer(1, 2), a, 1);
    assert [Leer(1, 1)] + [Leer(1, 2)] == [Leer(1, 1), Leer(1, 2)];
  }

  lemma ThenReadTwo(t: Tables, rs: seq<Request>, p: seq<PageEntry>, x: nat, a: Algorithm)
    requires Exec(t, rs, a, 1) == OneFrame(p, [TlbEntry(1, 0, 1, x), TlbEntry(2, 0, 1, x)], x)
    requires Numbered(p) && 2 < |p| && p[2] == PageEntry(0, 2, M) && x + 1 < WORD
    ensures Exec(t, rs + [Leer(1, 2)], a, 1) == OneFrame(p, [TlbEntry(1, 0, 1, x + 1), TlbEntry(2, 0, 1, x)], x + 1)
  {
    ReadTwoAgain(p, x, a);
    OneFrameAllows(p, [TlbEntry(1, 0, 1, x), TlbEntry(2, 0, 1, x)], x, 2);
    ExecThen(t, rs, OneFrame(p, [TlbEntry(1, 0, 1, x), TlbEntry(2, 0, 1, x)], x), Leer(1, 2), a, 1);
  }

  lemma ReadingIs(p: seq<PageEntry>, e: TlbEntry, x: nat, a: Algorithm)
    requires Numbered(p) && 2 < |p| && p[1] == PageEntry(0, 1, M) && p[2] == PageEntry(0, 2, M)
    requires x + 3 < WORD && e.pid == 0
    ensures Exec(OneFrame(p, [e, e], x), Reading(), a, 1)
            == OneFrame(p, [TlbEntry(1, 0, 1, x + 3), TlbEntry(2, 0, 1, x + 2)], x + 3)
  {
    ReadingOnce(p, e, x, a);
    ThenReadTwo(OneFrame(p, [e, e], x), [Leer(1, 1), Leer(1, 2)], p, x + 2, a);
    assert [Leer(1, 1), Leer(1, 2)] + [Leer(1, 2)] == Reading();
  }

  /** The TLB is full, and gives up the page that the last two requests were for. */
  ghost predicate GivesUpLast(rs: seq<Request>, t: Tables) {
    && |t.tlb| == 2 && FindEmpty(t.tlb, 0) == 2 && Oldest(t.tlb, 0, 0, t.accesos) == 1
    && Used(rs, t.tlb[0]) < Used(rs, t.tlb[1]) == |rs|
  }

  lemma ReadingGivesUpLast(t: Tables, rs: seq<Request>, p: seq<PageEntry>, e: TlbEntry, x: nat, a: Algorithm)
    requires Exec(t, rs, a, 1) == OneFrame(p, [e, e], x) && x + 3 < WORD && e.pid == 0
    requires Numbered(p) && 2 < |p| && p[1] == PageEntry(0, 1, M) && p[2] == PageEntry(0, 2, M)
    ensures GivesUpLast(rs + Reading(), Exec(t, rs + Reading(), a, 1))
  {
    ReadingIs(p, e, x, a);
    ExecConcat(t, rs, Reading(), a, 1);
    OldestOfTwo(TlbEntry(1, 0, 1, x + 3), TlbEntry(2, 0, 1, x + 2), x + 3);
    UsedAtEnd(rs, Leer(1, 1), Leer(1, 2));
  }

  /** Three pages read for the first time and two read again, the second twice. */
  lemma VictimUsedLast(a: Algorithm)
    ensures var rs := Crowding(3, 3) + Reading(); GivesUpLast(rs, Exec(Initial(1, 2), rs, a, 1))
  {
    var e := TlbEntry(0, 0, 0, 0);
    SharedFrame(3, 3, 2, a);
    assert Initial(1, 2).tlb == [e, e];
    ReadingGivesUpLast(Initial(1, 2), Crowding(3, 3), Crowded(3, 3), e, 6, a);
  }

  lemma OldestOfTwo(e: TlbEntry, g: TlbEntry, accesos: nat)
    requires g.ultimo < e.ultimo <= accesos && e.pid != 0 && g.pid != 0
    ensures Oldest([e, g], 0, 0, accesos) == 1 && FindEmpty([e, g], 0) == 2
  {
    var limit := if e.ultimo < accesos then e.ultimo else accesos;
    assert Oldest([e, g], 0, 0, accesos) == Oldest([e, g], 1, 0, limit) == Oldest([e, g], 2, 1, g.ultimo);
    assert FindEmpty([e, g], 1) == FindEmpty([e, g], 2);
  }

  lemma UsedAtEnd(rs: seq<Request>, x: Request, y: Request)
    requires IsUse(x) && IsUse(y) && !Uses(y, x.pid, x.nro)
    ensures var qs := rs + [x, y, y]; LastUse(qs, x.pid, x.nro) < LastUse(qs, y.pid, y.nro) == |qs|
  {
    LastUseMore(rs, x, x.pid, x.nro);
    LastUseMore(rs + [x], y, x.pid, x.nro);
    LastUseMore(rs + [x] + [y], y, x.pid, x.nro);
    LastUseMore(rs + [x] + [y], y, y.pid, y.nro);
    assert rs + [x, y, y] == rs + [x] + [y] + [y];
  }
}
