/** The requests of the memory unit, answered by the slot table and, independently, by a plain
    map from process to pages; over every run of valid requests the answers are the same. */
module SwapRequests {
  import opened Bytes
  import opened SwapTable

  datatype Request =
    | Iniciar(pid: nat, n: nat)
    | Leer(pid: nat, page: nat)
    | Escribir(pid: nat, page: nat, content: Page)
    | Finalizar(pid: nat)

  datatype Reply = Exito | Error | Content(bytes: seq<byte>) | Silence

  // ---------------------------------------------------------------- strings in pages

  /** Length up to the first NUL, at most the page. */
  function StrLen(c: seq<byte>): (n: nat)
    ensures n <= |c| && (n < |c| ==> c[n] == 0) && forall i :: 0 <= i < n ==> c[i] != 0
  {
    if c == [] || c[0] == 0 then 0 else 1 + StrLen(c[1..])
  }

  function CString(c: seq<byte>): seq<byte> {
    c[..StrLen(c)]
  }

  /** What a write leaves in a page: the string without its NUL, then the old bytes. */
  function Overlay(old_page: Page, content: Page): (p: Page)
    ensures |old_page| == |content| ==> |p| == |content|
  {
    if StrLen(content) <= |old_page| then CString(content) + old_page[StrLen(content)..] else content
  }

  /** Byte by byte: those of the string, and behind it those there were. */
  lemma OverlayIs(old_page: Page, content: Page, p: Page)
    requires |old_page| == |content|
    ensures p == Overlay(old_page, content)
            <==> |p| == |content|
                 && forall i :: 0 <= i < |p| ==> p[i] == if i < StrLen(content) then content[i] else old_page[i]
  {
    var o := Overlay(old_page, content);
    forall i | 0 <= i < |o| ensures o[i] == if i < StrLen(content) then content[i] else old_page[i] {
    }
    if |p| == |o| && forall i :: 0 <= i < |p| ==> p[i] == o[i] {
      assert p == o;
    }
  }

  lemma StrLenIs(c: seq<byte>, n: nat)
    requires n <= |c| && (n < |c| ==> c[n] == 0) && forall i :: 0 <= i < n ==> c[i] != 0
    ensures StrLen(c) == n
  {
  }

  /** A page reads back as the string just written exactly when the string fills the page or
      the old content had a NUL where the string ends. */
  lemma ReadBackIff(old_page: Page, content: Page)
    requires |old_page| == |content|
    ensures CString(Overlay(old_page, content)) == CString(content)
            <==> StrLen(content) == |content| || old_page[StrLen(content)] == 0
  {
    var n, p := StrLen(content), Overlay(old_page, content);
    assert (forall i :: 0 <= i < n ==> p[i] == content[i]) && (n < |p| ==> p[n] == old_page[n]);
    if n == |content| || old_page[n] == 0 {
      StrLenIs(p, n);
    } else {
      assert p[n] != 0 && forall i :: 0 <= i <= n ==> p[i] != 0;
      assert StrLen(p) > n;
    }
  }

  // ---------------------------------------------------------------- the plain map

  /** Pages by process, and how many slots nobody has. */
  datatype Store = Store(mem: map<int, seq<Page>>, free: nat)

  function Fresh(n: nat, tam: nat): seq<Page> {
    seq(n, _ => Zeros(tam))
  }

  ghost predicate Valid(m: Store, req: Request, tam: nat) {
    match req
    case Iniciar(pid, n) => pid !in m.mem && n > 0
    case Leer(pid, page) => pid in m.mem && page < |m.mem[pid]|
    case Escribir(pid, page, content) => |content| == tam && (pid in m.mem ==> page < |m.mem[pid]|)
    case Finalizar(_) => true
  }

  function Plain(m: Store, req: Request, tam: nat): (Store, Reply) {
    match req
    case Iniciar(pid, n) =>
      if n <= m.free then (Store(m.mem[pid := Fresh(n, tam)], m.free - n), Exito) else (m, Error)
    case Leer(pid, page) =>
      (m, if pid in m.mem && page < |m.mem[pid]| then Content(CString(m.mem[pid][page])) else Silence)
    case Escribir(pid, page, content) =>
      if pid in m.mem && page < |m.mem[pid]| then
        (m.(mem := m.mem[pid := m.mem[pid][page := Overlay(m.mem[pid][page], content)]]), Silence)
      else (m, Silence)
    case Finalizar(pid) =>
      if pid in m.mem then (Store(m.mem - {pid}, m.free + |m.mem[pid]|), Exito) else (m, Exito)
  }

  // ---------------------------------------------------------------- the slot table

  /** Slot `i`, or the guard entry past the end, is free. */
  predicate FreeAt(s: Slots, i: nat) {
    i >= |s| || !s[i].used
  }

  /** `n` free slots from `a` on, the last of them followed by a free entry as well. */
  predicate RunAt(s: Slots, a: nat, n: nat) {
    a + n <= |s| && forall i :: a <= i <= a + n ==> FreeAt(s, i)
  }

  /** The first such run from `a` on, or -1. */
  function FirstRun(s: Slots, n: nat, a: nat): (r: int)
    ensures r == -1 || (a <= r && RunAt(s, r, n))
    ensures forall b :: a <= b && (r == -1 || b < r) ==> !RunAt(s, b, n)
    decreases |s| + 1 - a
  {
    if a + n > |s| || a > |s| then -1 else if RunAt(s, a, n) then a else FirstRun(s, n, a + 1)
  }

  function Assign(s: Slots, pid: nat, n: nat, a: int): Slots {
    seq(|s|, i requires 0 <= i < |s| => if a <= i < a + n then Slot(pid, true, s[i].page) else s[i])
  }

  function Clear(s: Slots, pid: nat, tam: nat): Slots {
    seq(|s|, i requires 0 <= i < |s| => if s[i].pid == pid then FreeSlot(tam) else s[i])
  }

  /** The page a read reaches: `page` slots after the first slot of `pid`, the search giving up
      at index `limit`. */
  function ReadPage(s: Slots, pid: nat, page: nat, limit: nat): Page {
    var i := Search(s, pid, limit) + page;
    if i < |s| then s[i].page else []
  }

  /** One request; reads search up to `limit`. */
  function Serve(s: Slots, req: Request, tam: nat, limit: nat): (Slots, Reply) {
    match req
    case Iniciar(pid, n) =>
      if FreeCount(s) < n then (s, Error)
      else if FirstRun(s, n, 0) != -1 then (Assign(s, pid, n, FirstRun(s, n, 0)), Exito)
      else (Assign(Compacted(s), pid, n, FirstRun(Compacted(s), n, 0)), Exito)
    case Leer(pid, page) => (s, Content(CString(ReadPage(s, pid, page, limit))))
    case Escribir(pid, page, content) =>
      var i := Search(s, pid, |s|);
      if i < |s| && i + page < |s| then
        (s[i + page := s[i + page].(page := Overlay(s[i + page].page, content))], Silence)
      else (s, Silence)
    case Finalizar(pid) => (Clear(s, pid, tam), Exito)
  }

  // ---------------------------------------------------------------- the abstraction

  /** The page lists of the processes that have any. */
  ghost function Mem(s: Slots): map<int, seq<Page>> {
    if s == [] then map[]
    else if s[0].pid < 0 then Mem(s[1..])
    else Mem(s[1..])[s[0].pid := PagesOf(s, s[0].pid)]
  }

  ghost function Abs(s: Slots): Store {
    Store(Mem(s), FreeCount(s))
  }

  lemma {:induction false} MemIs(s: Slots, p: int)
    ensures p in Mem(s) <==> 0 <= p && PagesOf(s, p) != []
    ensures p in Mem(s) ==> Mem(s)[p] == PagesOf(s, p)
  {
    if s != [] {
      MemIs(s[1..], p);
    }
  }

  /** Two tables with the same page lists and free counts are the same store. */
  lemma AbsIs(s: Slots, m: Store)
    requires m.free == FreeCount(s)
    requires forall p :: p in m.mem <==> 0 <= p && PagesOf(s, p) != []
    requires forall p :: p in m.mem ==> m.mem[p] == PagesOf(s, p)
    ensures Abs(s) == m
  {
    forall p ensures (p in Mem(s) <==> p in m.mem) && (p in m.mem ==> Mem(s)[p] == m.mem[p]) {
      MemIs(s, p);
    }
    assert Mem(s) == m.mem;
  }

  /** When `t` has the pages of `s` except that `pid` has the list `l`, so do the stores. */
  lemma AbsChange(s: Slots, t: Slots, pid: nat, l: seq<Page>)
    requires forall q: nat :: PagesOf(t, q) == if q == pid then l else PagesOf(s, q)
    ensures Abs(t) == Store(if l != [] then Mem(s)[pid := l] else Mem(s) - {pid}, FreeCount(t))
  {
    var m := Store(if l != [] then Mem(s)[pid := l] else Mem(s) - {pid}, FreeCount(t));
    forall p
      ensures p in m.mem <==> 0 <= p && PagesOf(t, p) != []
      ensures p in m.mem ==> m.mem[p] == PagesOf(t, p)
    {
      MemIs(s, p);
    }
    AbsIs(t, m);
  }

  // ---------------------------------------------------------------- starting a process

  lemma {:induction false} AllOwned(s: Slots, pid: nat, tam: nat)
    requires forall i :: 0 <= i < |s| ==> s[i].pid == pid && s[i].used && s[i].page == Zeros(tam)
    ensures PagesOf(s, pid) == Fresh(|s|, tam) && FreeCount(s) == 0
    ensures forall q: nat :: q != pid ==> PagesOf(s, q) == []
  {
    if s != [] {
      AllOwned(s[1..], pid, tam);
      assert Fresh(|s|, tam) == [Zeros(tam)] + Fresh(|s| - 1, tam);
    }
  }

  lemma AssignOk(s: Slots, pid: nat, n: nat, a: nat, tam: nat)
    requires Ok(s, tam) && n > 0 && RunAt(s, a, n) && PagesOf(s, pid) == []
    ensures Ok(Assign(s, pid, n, a), tam) && |Assign(s, pid, n, a)| == |s|
  {
    var t := Assign(s, pid, n, a);
    forall i | 0 <= i < |s| ensures SlotOk(t[i], tam) && (a <= i < a + n ==> s[i] == FreeSlot(tam)) {
      assert SlotOk(s[i], tam);
      assert a <= i < a + n ==> FreeAt(s, i);
    }
    forall i | 0 <= i < |s| ensures s[i].pid != pid {
      if s[i].pid == pid {
        PagesOfSome(s, pid, i);
      }
    }
    forall i, j, k | 0 <= i < j < k < |t| && t[i].used && t[i].pid == t[k].pid ensures t[j].pid == t[i].pid {
      assert SlotOk(s[i], tam) && SlotOk(s[j], tam);
    }
  }

  /** What a stretch of slots in the middle adds. */
  lemma Middle(x: Slots, m: Slots, y: Slots, q: nat)
    ensures PagesOf(x + (m + y), q) == PagesOf(x, q) + (PagesOf(m, q) + PagesOf(y, q))
    ensures FreeCount(x + (m + y)) == FreeCount(x) + (FreeCount(m) + FreeCount(y))
  {
    PagesOfConcat(x, m + y, q);
    PagesOfConcat(m, y, q);
    FreeCountConcat(x, m + y);
    FreeCountConcat(m, y);
  }

  lemma FreeMiddle(s: Slots, n: nat, a: nat, tam: nat, q: nat)
    requires Ok(s, tam) && RunAt(s, a, n)
    ensures PagesOf(s[a..a + n], q) == [] && FreeCount(s[a..a + n]) == n
    ensures forall i :: a <= i < a + n ==> s[i] == FreeSlot(tam)
  {
    forall i | a <= i < a + n ensures s[i] == FreeSlot(tam) {
      assert SlotOk(s[i], tam) && FreeAt(s, i);
    }
    PagesOfNone(s[a..a + n], q);
    AllFreeCount(s[a..a + n]);
  }

  /** Replacing an empty middle, in an empty list or by another empty middle. */
  lemma Surround<T>(x: seq<T>, m: seq<T>, m': seq<T>, y: seq<T>)
    requires m == []
    ensures m' == [] ==> x + (m' + y) == x + (m + y)
    ensures x + (m + y) == [] ==> x + (m' + y) == m'
  {
    if x + (m + y) == [] {
      assert |x| == 0 && |y| == 0;
    }
  }

  lemma CutInThree(s: Slots, a: nat, b: nat)
    requires a <= b <= |s|
    ensures s == s[..a] + (s[a..b] + s[b..])
  {
    assert s[a..] == s[a..b] + s[b..];
    assert s == s[..a] + s[a..];
  }

  lemma AssignElsewhere(s: Slots, pid: nat, n: nat, a: nat)
    requires a + n <= |s|
    ensures Assign(s, pid, n, a)[..a] == s[..a] && Assign(s, pid, n, a)[a + n..] == s[a + n..]
  {
  }

  lemma AssignHere(s: Slots, pid: nat, n: nat, a: nat, tam: nat)
    requires Ok(s, tam) && RunAt(s, a, n)
    ensures forall i :: a <= i < a + n ==> Assign(s, pid, n, a)[i] == Slot(pid, true, Zeros(tam))
  {
    forall i | a <= i < a + n ensures Assign(s, pid, n, a)[i] == Slot(pid, true, Zeros(tam)) {
      assert SlotOk(s[i], tam) && FreeAt(s, i);
    }
  }

  lemma AssignSplit(s: Slots, pid: nat, n: nat, a: nat)
    requires a + n <= |s|
    ensures s == s[..a] + (s[a..a + n] + s[a + n..])
    ensures Assign(s, pid, n, a) == s[..a] + (Assign(s, pid, n, a)[a..a + n] + s[a + n..])
  {
    CutInThree(s, a, a + n);
    CutInThree(Assign(s, pid, n, a), a, a + n);
    AssignElsewhere(s, pid, n, a);
  }

  lemma AssignPages(s: Slots, pid: nat, n: nat, a: nat, tam: nat, q: nat)
    requires Ok(s, tam) && n > 0 && RunAt(s, a, n) && PagesOf(s, pid) == []
    ensures PagesOf(Assign(s, pid, n, a), q) == if q == pid then Fresh(n, tam) else PagesOf(s, q)
    ensures FreeCount(Assign(s, pid, n, a)) + n == FreeCount(s)
  {
    var x, m, m', y := s[..a], s[a..a + n], Assign(s, pid, n, a)[a..a + n], s[a + n..];
    AssignSplit(s, pid, n, a);
    AssignHere(s, pid, n, a, tam);
    FreeMiddle(s, n, a, tam, q);
    AllOwned(m', pid, tam);
    Middle(x, m, y, q);
    Middle(x, m', y, q);
    Surround(PagesOf(x, q), PagesOf(m, q), PagesOf(m', q), PagesOf(y, q));
  }

  /** However fragmented the area is, after compaction a run is found whenever enough slots are
      free, because the free ones are the last ones and the guard follows them. */
  lemma CompactionMakesRoom(s: Slots, n: nat, tam: nat)
    requires Ok(s, tam) && n <= FreeCount(s)
    ensures FirstRun(Compacted(s), n, 0) != -1
  {
    CompactedOk(s, tam);
    var c, a := Compacted(s), |s| - FreeCount(s);
    forall i | a <= i <= a + n ensures FreeAt(c, i) {
    }
    assert RunAt(c, a, n);
  }

  /** The table a start assigns slots in: as it is when a run is free, compacted otherwise. */
  function Roomy(s: Slots, n: nat): Slots {
    if FirstRun(s, n, 0) != -1 then s else Compacted(s)
  }

  lemma RoomyOk(s: Slots, n: nat, tam: nat)
    requires Ok(s, tam) && n <= FreeCount(s)
    ensures var c := Roomy(s, n);
            && Ok(c, tam) && |c| == |s| && FreeCount(c) == FreeCount(s) && FirstRun(c, n, 0) != -1
            && forall q: nat :: PagesOf(c, q) == PagesOf(s, q)
  {
    CompactionMakesRoom(s, n, tam);
    CompactedOk(s, tam);
  }

  /** Slots assigned in a table with the pages of `s`, as the plain map sees it. */
  lemma AssignAbs(s: Slots, c: Slots, pid: nat, n: nat, a: nat, tam: nat)
    requires Ok(c, tam) && n > 0 && RunAt(c, a, n) && PagesOf(s, pid) == []
    requires FreeCount(c) == FreeCount(s) && forall q: nat :: PagesOf(c, q) == PagesOf(s, q)
    ensures n <= FreeCount(s)
    ensures Abs(Assign(c, pid, n, a)) == Store(Mem(s)[pid := Fresh(n, tam)], FreeCount(s) - n)
  {
    forall q: nat ensures PagesOf(Assign(c, pid, n, a), q) == if q == pid then Fresh(n, tam) else PagesOf(s, q) {
      AssignPages(c, pid, n, a, tam, q);
    }
    AssignPages(c, pid, n, a, tam, pid);
    AbsChange(s, Assign(c, pid, n, a), pid, Fresh(n, tam));
  }

  lemma SimIniciar(s: Slots, pid: nat, n: nat, tam: nat, limit: nat)
    requires Ok(s, tam) && Valid(Abs(s), Iniciar(pid, n), tam)
    ensures var (t, r) := Serve(s, Iniciar(pid, n), tam, limit);
            Ok(t, tam) && |t| == |s| && (Abs(t), r) == Plain(Abs(s), Iniciar(pid, n), tam)
  {
    MemIs(s, pid);
    if n <= FreeCount(s) {
      RoomyOk(s, n, tam);
      var c := Roomy(s, n);
      AssignOk(c, pid, n, FirstRun(c, n, 0), tam);
      AssignAbs(s, c, pid, n, FirstRun(c, n, 0), tam);
    }
  }

  function FreeSlots(s: Slots): (r: set<int>)
    ensures forall i :: i in r <==> 0 <= i < |s| && !s[i].used
  {
    set i | 0 <= i < |s| && !s[i].used
  }

  lemma {:induction false} FreeCountIs(s: Slots)
    ensures |FreeSlots(s)| == FreeCount(s)
  {
    if s != [] {
      var n := |s| - 1;
      FreeCountIs(s[..n]);
      FreeCountConcat(s[..n], s[n..]);
      assert s == s[..n] + s[n..] && s[n..] == [s[n]];
      assert FreeSlots(s) == FreeSlots(s[..n]) + if s[n].used then {} else {n};
    }
  }

  /** A start succeeds exactly when enough slots are free, wherever they are, and then takes that
      many; when it fails nothing changes. */
  lemma StartAnswersIff(s: Slots, pid: nat, n: nat, tam: nat, limit: nat)
    requires Ok(s, tam) && Valid(Abs(s), Iniciar(pid, n), tam)
    ensures var (t, r) := Serve(s, Iniciar(pid, n), tam, limit);
            && r == (if n <= |FreeSlots(s)| then Exito else Error)
            && (r == Error ==> t == s)
            && (r == Exito ==> PagesOf(t, pid) == Fresh(n, tam) && |FreeSlots(t)| == |FreeSlots(s)| - n
                               && forall q: nat :: q != pid ==> PagesOf(t, q) == PagesOf(s, q))
  {
    MemIs(s, pid);
    FreeCountIs(s);
    if n <= FreeCount(s) {
      RoomyOk(s, n, tam);
      var c := Roomy(s, n);
      var t := Assign(c, pid, n, FirstRun(c, n, 0));
      forall q: nat ensures PagesOf(t, q) == if q == pid then Fresh(n, tam) else PagesOf(s, q) {
        AssignPages(c, pid, n, FirstRun(c, n, 0), tam, q);
      }
      AssignPages(c, pid, n, FirstRun(c, n, 0), tam, pid);
      FreeCountIs(t);
    }
  }

  /** One of `n` slots from `a` on, or the entry behind them, is in use. */
  ghost predicate UsedWithin(s: Slots, a: nat, n: nat) {
    exists i :: a <= i <= a + n && i < |s| && s[i].used
  }

  lemma RunMeansFree(s: Slots, a: nat, n: nat)
    ensures RunAt(s, a, n) <==> a + n <= |s| && !UsedWithin(s, a, n)
  {
    if a + n <= |s| && !UsedWithin(s, a, n) {
      forall i | a <= i <= a + n ensures FreeAt(s, i) {
      }
    }
    if RunAt(s, a, n) {
      forall i | a <= i <= a + n && i < |s| ensures !s[i].used {
        assert FreeAt(s, i);
      }
    }
  }

  /** While some run of free slots is followed by a free entry, a start moves nothing: the slots in
      use keep their places and contents, and the process gets the first such run. */
  lemma StartInPlace(s: Slots, pid: nat, n: nat, a: nat, tam: nat, limit: nat) returns (b: nat)
    requires Ok(s, tam) && n > 0 && a + n <= |s| && n <= FreeCount(s) && PagesOf(s, pid) == []
    requires !UsedWithin(s, a, n)
    ensures b <= a && !UsedWithin(s, b, n) && forall c: nat :: c < b ==> UsedWithin(s, c, n)
    ensures var t := Serve(s, Iniciar(pid, n), tam, limit).0;
            |t| == |s| && forall i :: 0 <= i < |s| ==>
              if b <= i < b + n then t[i] == Slot(pid, true, Zeros(tam)) else t[i] == s[i] && t[i].pid != pid
  {
    RunMeansFree(s, a, n);
    b := FirstRun(s, n, 0);
    RunMeansFree(s, b, n);
    forall c: nat | c < b ensures UsedWithin(s, c, n) {
      RunMeansFree(s, c, n);
    }
    AssignHere(s, pid, n, b, tam);
    forall i | 0 <= i < |s| ensures s[i].pid != pid {
      if s[i].pid == pid {
        PagesOfSome(s, pid, i);
      }
    }
  }

  // ---------------------------------------------------------------- pages of a running process

  /** Where the process starts, the search finds it, and its pages follow. */
  lemma Located(s: Slots, pid: nat, page: nat, tam: nat)
    requires Ok(s, tam) && page < |PagesOf(s, pid)|
    ensures var a := Search(s, pid, |s|);
            && a + page < |s| && s[a].pid == pid && (forall i :: 0 <= i < a ==> s[i].pid != pid)
            && s[a + page].pid == pid && s[a + page].page == PagesOf(s, pid)[page]
  {
    var a := Search(s, pid, |s|);
    if a == |s| {
      PagesOfNone(s, pid);
    }
    forall i | 0 <= i < |s| && s[i].pid == pid ensures s[i].used {
      assert SlotOk(s[i], tam);
    }
    PageAt(s, pid, a, page);
  }

  /** A lower limit cuts the search short and changes nothing else. */
  lemma SearchLimited(s: Slots, pid: nat, limit: nat)
    requires Search(s, pid, |s|) < |s|
    ensures Search(s, pid, limit) == if Search(s, pid, |s|) <= limit then Search(s, pid, |s|) else limit
  {
    var a, r := Search(s, pid, |s|), Search(s, pid, limit);
    if a < limit {
      assert !(a < r);
    }
  }

  lemma ReadTarget(s: Slots, pid: nat, page: nat, tam: nat)
    requires Ok(s, tam) && Valid(Abs(s), Leer(pid, page), tam)
    ensures Search(s, pid, |s|) + page < |s| && s[Search(s, pid, |s|) + page].page == Mem(s)[pid][page]
  {
    MemIs(s, pid);
    Located(s, pid, page, tam);
  }

  lemma ReadPageIs(s: Slots, pid: nat, page: nat, limit: nat)
    requires Search(s, pid, |s|) + page < |s|
    ensures var a := Search(s, pid, |s|);
            ReadPage(s, pid, page, limit) == s[(if a <= limit then a else limit) + page].page
  {
    SearchLimited(s, pid, limit);
  }

  lemma AnswersAre(s: Slots, pid: nat, page: nat, tam: nat, limit: nat)
    requires pid in Mem(s) && page < |Mem(s)[pid]|
    ensures Serve(s, Leer(pid, page), tam, limit).1 == Content(CString(ReadPage(s, pid, page, limit)))
    ensures Plain(Abs(s), Leer(pid, page), tam).1 == Content(CString(Mem(s)[pid][page]))
  {
  }

  /** The string a read should answer with, and the one found where its search gives up. */
  ghost predicate Reaches(s: Slots, pid: nat, page: nat, limit: nat, due: seq<byte>) {
    Search(s, pid, |s|) <= limit || (limit + page < |s| && CString(s[limit + page].page) == due)
  }

  /** The same for a page known to be where the unlimited search leads. */
  lemma ReachesPage(s: Slots, pid: nat, page: nat, limit: nat, p: Page)
    requires Search(s, pid, |s|) + page < |s| && s[Search(s, pid, |s|) + page].page == p
    ensures CString(ReadPage(s, pid, page, limit)) == CString(p) <==> Reaches(s, pid, page, limit, CString(p))
  {
    ReadPageIs(s, pid, page, limit);
  }

  lemma ReachesIff(s: Slots, pid: nat, page: nat, tam: nat, limit: nat)
    requires Ok(s, tam) && Valid(Abs(s), Leer(pid, page), tam)
    ensures CString(ReadPage(s, pid, page, limit)) == CString(Mem(s)[pid][page])
            <==> Reaches(s, pid, page, limit, CString(Mem(s)[pid][page]))
  {
    ReadTarget(s, pid, page, tam);
    ReachesPage(s, pid, page, limit, Mem(s)[pid][page]);
  }

  /** A read answers with the process's page exactly when the process starts at or before the
      point where the search gives up, or the page it lands on holds the same string. */
  lemma ReadAnswerIff(s: Slots, pid: nat, page: nat, tam: nat, limit: nat)
    requires Ok(s, tam) && Valid(Abs(s), Leer(pid, page), tam)
    ensures Serve(s, Leer(pid, page), tam, limit).1 == Plain(Abs(s), Leer(pid, page), tam).1
            <==> Reaches(s, pid, page, limit, CString(Mem(s)[pid][page]))
  {
    AnswersAre(s, pid, page, tam, limit);
    ReachesIff(s, pid, page, tam, limit);
  }

  lemma RewriteOk(s: Slots, i: nat, p: Page, tam: nat)
    requires Ok(s, tam) && i < |s| && s[i].used && |p| == tam
    ensures Ok(s[i := s[i].(page := p)], tam)
  {
    var t := s[i := s[i].(page := p)];
    forall j | 0 <= j < |s| ensures SlotOk(t[j], tam) {
      assert SlotOk(s[j], tam);
    }
    assert forall j :: 0 <= j < |s| ==> t[j].pid == s[j].pid && t[j].used == s[j].used;
  }

  lemma OwnedIsUsed(s: Slots, pid: nat, tam: nat)
    requires Ok(s, tam)
    ensures forall i :: 0 <= i < |s| && s[i].pid == pid ==> s[i].used
  {
    forall i | 0 <= i < |s| && s[i].pid == pid ensures s[i].used {
      assert SlotOk(s[i], tam);
    }
  }

  lemma UpdateOk(s: Slots, pid: nat, page: nat, p: Page, tam: nat)
    requires Ok(s, tam) && page < |PagesOf(s, pid)| && |p| == tam
    ensures var i := Search(s, pid, |s|) + page;
            && i < |s| && var t := s[i := s[i].(page := p)];
            && Ok(t, tam) && FreeCount(t) == FreeCount(s)
            && forall q: nat :: PagesOf(t, q) == if q == pid then PagesOf(s, pid)[page := p] else PagesOf(s, q)
  {
    Located(s, pid, page, tam);
    OwnedIsUsed(s, pid, tam);
    var a := Search(s, pid, |s|);
    assert forall j :: a <= j <= a + page ==> s[j].pid == pid;
    RewriteOk(s, a + page, p, tam);
    forall q: nat {
      PagesOfUpdate(s, pid, a, page, p, q);
    }
    FreeCountUpdate(s, a + page, p);
  }

  lemma SimEscribir(s: Slots, pid: nat, page: nat, content: Page, tam: nat, limit: nat)
    requires Ok(s, tam) && Valid(Abs(s), Escribir(pid, page, content), tam)
    ensures var (t, r) := Serve(s, Escribir(pid, page, content), tam, limit);
            Ok(t, tam) && |t| == |s| && (Abs(t), r) == Plain(Abs(s), Escribir(pid, page, content), tam)
  {
    MemIs(s, pid);
    var a := Search(s, pid, |s|);
    if pid in Abs(s).mem {
      Located(s, pid, page, tam);
      assert SlotOk(s[a + page], tam);
      WriteStore(s, pid, page, Overlay(s[a + page].page, content), tam);
    } else if a < |s| {
      PagesOfSome(s, pid, a);
    }
  }

  /** Slot `a` is the first one of the process. */
  ghost predicate StartsAt(s: Slots, pid: nat, a: nat) {
    a < |s| && s[a].pid == pid && forall b :: 0 <= b < a ==> s[b].pid != pid
  }

  /** The bytes of the string, without its NUL, lie over the beginning of the page. */
  ghost predicate Laid(before: Page, content: Page, after: Page) {
    && |before| == |content| == |after|
    && forall i :: 0 <= i < |after| ==> after[i] == if i < StrLen(content) then content[i] else before[i]
  }

  lemma OverlayLaid(before: Page, content: Page)
    requires |before| == |content|
    ensures Laid(before, content, Overlay(before, content))
  {
    OverlayIs(before, content, Overlay(before, content));
  }

  /** A write replaces, in the page that many slots after the first of its process, as many bytes as
      the string has; no other byte and no entry changes, and nothing at all without that process. */
  lemma WriteIs(s: Slots, pid: nat, page: nat, content: Page, tam: nat, limit: nat) returns (a: nat)
    requires Ok(s, tam) && Valid(Abs(s), Escribir(pid, page, content), tam)
    ensures a < |s| ==> StartsAt(s, pid, a)
    ensures a >= |s| ==> forall i :: 0 <= i < |s| ==> s[i].pid != pid
    ensures var t := Serve(s, Escribir(pid, page, content), tam, limit).0;
            if a >= |s| then t == s
            else a + page < |s| && |t| == |s| && Laid(s[a + page].page, content, t[a + page].page)
                 && t == s[a + page := s[a + page].(page := t[a + page].page)]
  {
    MemIs(s, pid);
    a := Search(s, pid, |s|);
    if a < |s| {
      PagesOfSome(s, pid, a);
      Located(s, pid, page, tam);
      assert SlotOk(s[a + page], tam);
      OverlayLaid(s[a + page].page, content);
    }
  }

  /** A page rewritten, as the plain map sees it. */
  lemma RewriteAbs(s: Slots, t: Slots, pid: nat, page: nat, p: Page)
    requires pid in Mem(s) && page < |Mem(s)[pid]| && FreeCount(t) == FreeCount(s)
    requires page < |PagesOf(s, pid)|
    requires forall q: nat :: PagesOf(t, q) == if q == pid then PagesOf(s, pid)[page := p] else PagesOf(s, q)
    ensures Abs(t) == Store(Mem(s)[pid := Mem(s)[pid][page := p]], FreeCount(s))
  {
    MemIs(s, pid);
    AbsChange(s, t, pid, PagesOf(s, pid)[page := p]);
  }

  lemma WriteStore(s: Slots, pid: nat, page: nat, p: Page, tam: nat)
    requires Ok(s, tam) && pid in Mem(s) && page < |Mem(s)[pid]| && |p| == tam
    ensures var i := Search(s, pid, |s|) + page;
            && i < |s| && var t := s[i := s[i].(page := p)];
            && Ok(t, tam) && Abs(t) == Abs(s).(mem := Abs(s).mem[pid := Abs(s).mem[pid][page := p]])
  {
    MemIs(s, pid);
    UpdateOk(s, pid, page, p, tam);
    var i := Search(s, pid, |s|) + page;
    RewriteAbs(s, s[i := s[i].(page := p)], pid, page, p);
  }

  lemma {:induction false} FreeCountUpdate(s: Slots, i: nat, page: Page)
    requires i < |s|
    ensures FreeCount(s[i := s[i].(page := page)]) == FreeCount(s)
  {
    var t := s[i := s[i].(page := page)];
    if i == 0 {
      assert t[1..] == s[1..];
    } else {
      assert t[1..] == s[1..][i - 1 := s[1..][i - 1].(page := page)];
      FreeCountUpdate(s[1..], i - 1, page);
    }
  }

  // ---------------------------------------------------------------- ending a process

  /** Once a process's run has ended, none of its slots follows. */
  lemma RunEnds(s: Slots, pid: nat, a: nat, e: nat, tam: nat)
    requires Ok(s, tam) && a < e < |s| && s[a].pid == pid && s[e].pid != pid
    ensures forall k :: e <= k < |s| ==> s[k].pid != pid
  {
    assert SlotOk(s[a], tam);
  }

  lemma {:induction false} ClearPages(s: Slots, pid: nat, tam: nat)
    requires forall i :: 0 <= i < |s| ==> SlotOk(s[i], tam)
    ensures PagesOf(Clear(s, pid, tam), pid) == []
    ensures forall q: nat :: q != pid ==> PagesOf(Clear(s, pid, tam), q) == PagesOf(s, q)
    ensures FreeCount(Clear(s, pid, tam)) == FreeCount(s) + |PagesOf(s, pid)|
  {
    if s != [] {
      ClearPages(s[1..], pid, tam);
      assert Clear(s, pid, tam)[1..] == Clear(s[1..], pid, tam);
      assert SlotOk(s[0], tam);
    }
  }

  /** An end is always a success, and leaves the process no slot and the others theirs, in place. */
  lemma EndAnswers(s: Slots, pid: nat, tam: nat, limit: nat)
    requires Ok(s, tam)
    ensures var (t, r) := Serve(s, Finalizar(pid), tam, limit);
            && r == Exito && |t| == |s| && PagesOf(t, pid) == []
            && forall i :: 0 <= i < |s| ==> t[i] == if s[i].pid == pid then Slot(NO_PID, false, Zeros(tam)) else s[i]
  {
    ClearPages(s, pid, tam);
  }

  lemma SimFinalizar(s: Slots, pid: nat, tam: nat, limit: nat)
    requires Ok(s, tam)
    ensures var (t, r) := Serve(s, Finalizar(pid), tam, limit);
            Ok(t, tam) && |t| == |s| && (Abs(t), r) == Plain(Abs(s), Finalizar(pid), tam)
  {
    var t := Clear(s, pid, tam);
    ClearPages(s, pid, tam);
    forall i | 0 <= i < |t| ensures SlotOk(t[i], tam) {
      assert SlotOk(s[i], tam);
    }
    forall i, j, k | 0 <= i < j < k < |t| && t[i].used && t[i].pid == t[k].pid ensures t[j].pid == t[i].pid {
      assert SlotOk(s[i], tam) && SlotOk(s[k], tam);
    }
    MemIs(s, pid);
    forall q: nat ensures PagesOf(t, q) == if q == pid then [] else PagesOf(s, q) {
    }
    AbsChange(s, t, pid, []);
    if pid !in Mem(s) {
      assert Mem(s) - {pid} == Mem(s);
    }
  }

  // ---------------------------------------------------------------- every run

  /** One request on the table does to the abstraction what the plain map does, and answers the
      same, provided a read's search can reach every process. */
  lemma ServeRefinesPlain(s: Slots, req: Request, tam: nat, limit: nat)
    requires Ok(s, tam) && Valid(Abs(s), req, tam) && |s| <= limit + 1
    ensures var (t, r) := Serve(s, req, tam, limit);
            Ok(t, tam) && |t| == |s| && (Abs(t), r) == Plain(Abs(s), req, tam)
  {
    match req
    case Iniciar(pid, n) => SimIniciar(s, pid, n, tam, limit);
    case Leer(pid, page) =>
      MemIs(s, pid);
      Located(s, pid, page, tam);
      ReadAnswerIff(s, pid, page, tam, limit);
    case Escribir(pid, page, content) => SimEscribir(s, pid, page, content, tam, limit);
    case Finalizar(pid) => SimFinalizar(s, pid, tam, limit);
  }

  function Replies(s: Slots, reqs: seq<Request>, tam: nat, limit: nat): seq<Reply>
    decreases |reqs|
  {
    if reqs == [] then []
    else var (t, r) := Serve(s, reqs[0], tam, limit); [r] + Replies(t, reqs[1..], tam, limit)
  }

  function PlainReplies(m: Store, reqs: seq<Request>, tam: nat): seq<Reply>
    decreases |reqs|
  {
    if reqs == [] then []
    else var (n, r) := Plain(m, reqs[0], tam); [r] + PlainReplies(n, reqs[1..], tam)
  }

  /** Every request of the run is one the memory unit may send in the state it meets. */
  ghost predicate AllValid(m: Store, reqs: seq<Request>, tam: nat)
    decreases |reqs|
  {
    reqs != [] ==> Valid(m, reqs[0], tam) && AllValid(Plain(m, reqs[0], tam).0, reqs[1..], tam)
  }

  /** Over every run the swap answers as the plain map, whatever compactions happen. */
  lemma {:induction false} RunRefinesPlain(s: Slots, reqs: seq<Request>, tam: nat, limit: nat)
    requires Ok(s, tam) && |s| <= limit + 1 && AllValid(Abs(s), reqs, tam)
    ensures Replies(s, reqs, tam, limit) == PlainReplies(Abs(s), reqs, tam)
    decreases |reqs|
  {
    if reqs != [] {
      ServeRefinesPlain(s, reqs[0], tam, limit);
      RunRefinesPlain(Serve(s, reqs[0], tam, limit).0, reqs[1..], tam, limit);
    }
  }

  // ---------------------------------------------------------------- the bound of the read search

  function Empty(n: nat, tam: nat): Slots {
    seq(n, _ => FreeSlot(tam))
  }

  lemma EmptyOk(n: nat, tam: nat)
    ensures Ok(Empty(n, tam), tam) && FreeCount(Empty(n, tam)) == n && Mem(Empty(n, tam)) == map[]
  {
    AllFreeCount(Empty(n, tam));
    forall p ensures p !in Mem(Empty(n, tam)) {
      MemIs(Empty(n, tam), p);
      if 0 <= p {
        PagesOfNone(Empty(n, tam), p);
      }
    }
  }

  function Letter(tam: nat): Page
    requires tam > 0
  {
    Zeros(tam)[0 := 1]
  }

  /** Two processes, the second starting one slot past the reach of the read search. */
  function Witness(tam: nat): seq<Request>
    requires tam > 0
  {
    [Iniciar(1, tam + 1), Iniciar(2, 1), Escribir(2, 0, Letter(tam)), Leer(2, 0)]
  }

  lemma RunIs(s: Slots, n: nat, a: nat)
    requires RunAt(s, a, n) && forall b :: 0 <= b < a ==> !FreeAt(s, b)
    ensures FirstRun(s, n, 0) == a
  {
    forall b | 0 <= b < a ensures !RunAt(s, b, n) {
      assert !FreeAt(s, b);
    }
  }

  lemma WitnessFirst(n: nat, tam: nat) returns (s1: Slots)
    requires 0 < tam && tam + 2 <= n
    ensures s1 == Serve(Empty(n, tam), Iniciar(1, tam + 1), tam, tam).0
    ensures s1 == seq(n, i => if i <= tam then Slot(1, true, Zeros(tam)) else FreeSlot(tam))
    ensures Valid(Abs(Empty(n, tam)), Iniciar(1, tam + 1), tam)
    ensures Ok(s1, tam) && Abs(s1) == Plain(Abs(Empty(n, tam)), Iniciar(1, tam + 1), tam).0
    ensures Mem(s1) == map[1 := Fresh(tam + 1, tam)] && FreeCount(s1) == n - tam - 1
  {
    var s0 := Empty(n, tam);
    EmptyOk(n, tam);
    RunIs(s0, tam + 1, 0);
    s1 := Assign(s0, 1, tam + 1, 0);
    SimIniciar(s0, 1, tam + 1, tam, tam);
  }

  /** The table after the first two requests of the witness. */
  lemma WitnessStarts(n: nat, tam: nat) returns (s1: Slots, s2: Slots)
    requires 0 < tam && tam + 2 <= n
    ensures s1 == Serve(Empty(n, tam), Iniciar(1, tam + 1), tam, tam).0
    ensures s2 == Serve(s1, Iniciar(2, 1), tam, tam).0
    ensures |s2| == n && s2[tam].page == Zeros(tam) && s2[tam + 1].pid == 2
    ensures forall i :: 0 <= i <= tam ==> s2[i].pid == 1
    ensures Ok(s2, tam) && Valid(Abs(Empty(n, tam)), Iniciar(1, tam + 1), tam) && Valid(Abs(s1), Iniciar(2, 1), tam)
    ensures Abs(s1) == Plain(Abs(Empty(n, tam)), Iniciar(1, tam + 1), tam).0
    ensures Abs(s2) == Plain(Abs(s1), Iniciar(2, 1), tam).0
    ensures 2 in Mem(s2) && Mem(s2)[2] == Fresh(1, tam)
  {
    s1 := WitnessFirst(n, tam);
    assert forall b :: 0 <= b <= tam ==> s1[b].used;
    RunIs(s1, 1, tam + 1);
    SimIniciar(s1, 2, 1, tam, tam);
    s2 := Assign(s1, 2, 1, tam + 1);
    assert s2[tam] == s1[tam] && s2[tam + 1] == Slot(2, true, s1[tam + 1].page);
    assert forall i :: 0 <= i <= tam ==> s2[i] == s1[i];
  }

  /** The letter is written; a read of the same page would see the other process's last page. */
  lemma WitnessWrites(s2: Slots, tam: nat) returns (s3: Slots)
    requires 0 < tam && tam + 2 <= |s2| && Ok(s2, tam) && s2[tam].page == Zeros(tam) && s2[tam + 1].pid == 2
    requires (forall i :: 0 <= i <= tam ==> s2[i].pid == 1) && 2 in Mem(s2) && Mem(s2)[2] == Fresh(1, tam)
    ensures Valid(Abs(s2), Escribir(2, 0, Letter(tam)), tam) && s3 == Serve(s2, Escribir(2, 0, Letter(tam)), tam, tam).0
    ensures Ok(s3, tam) && Abs(s3) == Plain(Abs(s2), Escribir(2, 0, Letter(tam)), tam).0
    ensures Valid(Abs(s3), Leer(2, 0), tam)
    ensures Serve(s3, Leer(2, 0), tam, tam).1 != Plain(Abs(s3), Leer(2, 0), tam).1
  {
    var c := Letter(tam);
    s3 := Serve(s2, Escribir(2, 0, c), tam, tam).0;
    SimEscribir(s2, 2, 0, c, tam, tam);
    assert Search(s2, 2, |s2|) == tam + 1;
    var p := Overlay(s2[tam + 1].page, c);
    assert s3 == s2[tam + 1 := s2[tam + 1].(page := p)];
    assert s3[tam + 1].pid == 2 && forall i :: 0 <= i <= tam ==> s3[i].pid == 1;
    assert Search(s3, 2, |s3|) == tam + 1;
    LetterReads(tam);
    assert Mem(s3)[2][0] == Overlay(Zeros(tam), c);
    ReadAnswerIff(s3, 2, 0, tam, tam);
  }

  lemma LetterReads(tam: nat)
    requires tam > 0
    ensures CString(Overlay(Zeros(tam), Letter(tam))) != CString(Zeros(tam))
  {
    var p := Overlay(Zeros(tam), Letter(tam));
    assert StrLen(Letter(tam)) >= 1;
    assert p[0] == Letter(tam)[0] == 1;
    assert StrLen(p) >= 1 && StrLen(Zeros(tam)) == 0;
  }

  lemma WitnessFails(n: nat, tam: nat)
    requires 0 < tam && tam + 2 <= n
    ensures AllValid(Abs(Empty(n, tam)), Witness(tam), tam)
    ensures Replies(Empty(n, tam), Witness(tam), tam, tam) != PlainReplies(Abs(Empty(n, tam)), Witness(tam), tam)
  {
    var w, s0 := Witness(tam), Empty(n, tam);
    var s1, s2 := WitnessStarts(n, tam);
    var s3 := WitnessWrites(s2, tam);
    WitnessValid(Abs(s0), w, tam);
    LastReply(s0, Abs(s0), w, tam);
  }

  lemma WitnessValid(m: Store, w: seq<Request>, tam: nat)
    requires |w| == 4 && Valid(m, w[0], tam) && Valid(Plain(m, w[0], tam).0, w[1], tam)
    requires Valid(Plain(Plain(m, w[0], tam).0, w[1], tam).0, w[2], tam)
    requires Valid(Plain(Plain(Plain(m, w[0], tam).0, w[1], tam).0, w[2], tam).0, w[3], tam)
    ensures AllValid(m, w, tam)
  {
    var b := w[1..];
    var c := b[1..];
    var d := c[1..];
    assert b[0] == w[1] && c[0] == w[2] && d[0] == w[3] && d[1..] == [];
    var n := Plain(m, w[0], tam).0;
    var n2 := Plain(n, w[1], tam).0;
    assert AllValid(n2, c, tam);
    assert AllValid(n, b, tam);
  }

  /** Unrolling a run of four requests. */
  lemma LastReply(s: Slots, m: Store, w: seq<Request>, tam: nat)
    requires |w| == 4
    ensures |Replies(s, w, tam, tam)| == 4 && |PlainReplies(m, w, tam)| == 4
    ensures Replies(s, w, tam, tam)[3]
         == Serve(Serve(Serve(Serve(s, w[0], tam, tam).0, w[1], tam, tam).0, w[2], tam, tam).0, w[3], tam, tam).1
    ensures PlainReplies(m, w, tam)[3]
         == Plain(Plain(Plain(Plain(m, w[0], tam).0, w[1], tam).0, w[2], tam).0, w[3], tam).1
  {
    var a, b, c := Serve(s, w[0], tam, tam).0, w[1..], w[1..][1..];
    var d := c[1..];
    assert b[0] == w[1] && c[0] == w[2] && d[0] == w[3] && d[1..] == [];
    var a2 := Serve(a, w[1], tam, tam).0;
    var a3 := Serve(a2, w[2], tam, tam).0;
    assert Replies(a3, d, tam, tam) == [Serve(a3, w[3], tam, tam).1];
    assert Replies(a2, c, tam, tam)[1] == Replies(a3, d, tam, tam)[0];
    var n := Plain(m, w[0], tam).0;
    var n2 := Plain(n, w[1], tam).0;
    var n3 := Plain(n2, w[2], tam).0;
    assert PlainReplies(n3, d, tam) == [Plain(n3, w[3], tam).1];
    assert PlainReplies(n2, c, tam)[1] == PlainReplies(n3, d, tam)[0];
  }

  /** The server bounds the read search by the page size.  With that bound every valid run from
      an empty area is answered as the plain map answers exactly when the area has at most one
      slot more than a page has bytes. */
  lemma PageSizeBoundIff(n: nat, tam: nat)
    requires tam > 0
    ensures (forall reqs :: AllValid(Abs(Empty(n, tam)), reqs, tam) ==>
               Replies(Empty(n, tam), reqs, tam, tam) == PlainReplies(Abs(Empty(n, tam)), reqs, tam))
            <==> n <= tam + 1
  {
    EmptyOk(n, tam);
    if n <= tam + 1 {
      forall reqs | AllValid(Abs(Empty(n, tam)), reqs, tam)
        ensures Replies(Empty(n, tam), reqs, tam, tam) == PlainReplies(Abs(Empty(n, tam)), reqs, tam)
      {
        RunRefinesPlain(Empty(n, tam), reqs, tam, tam);
      }
    } else {
      WitnessFails(n, tam);
    }
  }
}
