/** The tables of the memory unit as a value: frames, processes with their page tables, and the
    TLB; every operation of the unit as a function on them. */
module UmcTables {
  import opened UmcClock

  datatype Status = M | S

  datatype PageEntry = PageEntry(frame: nat, nro: nat, status: Status)

  datatype Proc = Proc(pid: nat, cantFrames: nat, indice: nat, pages: seq<PageEntry>)

  datatype TlbEntry = TlbEntry(nro: nat, frame: nat, pid: nat, ultimo: nat)

  datatype Tables = Tables(frames: Frames, procs: seq<Proc>, tlb: seq<TlbEntry>, accesos: nat)

  datatype Algorithm = CLOCK | CLOCK_M

  const NO_EN_MEMORIA: int := -1
  const OVERFLOW: int := -2

  // ---------------------------------------------------------------- searches

  function FindProc(ps: seq<Proc>, pid: nat, i: nat): (r: nat)
    requires i <= |ps|
    ensures i <= r <= |ps| && (r < |ps| ==> ps[r].pid == pid) && forall j :: i <= j < r ==> ps[j].pid != pid
    decreases |ps| - i
  {
    if i == |ps| || ps[i].pid == pid then i else FindProc(ps, pid, i + 1)
  }

  function FindPage(pages: seq<PageEntry>, n: nat, i: nat): (r: nat)
    requires i <= |pages|
    ensures i <= r <= |pages| && (r < |pages| ==> pages[r].nro == n) && forall j :: i <= j < r ==> pages[j].nro != n
    decreases |pages| - i
  {
    if i == |pages| || pages[i].nro == n then i else FindPage(pages, n, i + 1)
  }

  function FindFrame(pages: seq<PageEntry>, f: nat, i: nat): (r: nat)
    requires i <= |pages|
    ensures i <= r <= |pages| && (r < |pages| ==> pages[r].frame == f) && forall j :: i <= j < r ==> pages[j].frame != f
    decreases |pages| - i
  {
    if i == |pages| || pages[i].frame == f then i else FindFrame(pages, f, i + 1)
  }

  function FindTlb(tlb: seq<TlbEntry>, pid: nat, n: nat, i: nat): (r: nat)
    requires i <= |tlb|
    ensures i <= r <= |tlb| && (r < |tlb| ==> tlb[r].pid == pid && tlb[r].nro == n)
    ensures forall j :: i <= j < r ==> !(tlb[j].pid == pid && tlb[j].nro == n)
    decreases |tlb| - i
  {
    if i == |tlb| || (tlb[i].pid == pid && tlb[i].nro == n) then i else FindTlb(tlb, pid, n, i + 1)
  }

  function FindEmpty(tlb: seq<TlbEntry>, i: nat): (r: nat)
    requires i <= |tlb|
    ensures i <= r <= |tlb| && (r < |tlb| ==> tlb[r].pid == 0) && forall j :: i <= j < r ==> tlb[j].pid != 0
    decreases |tlb| - i
  {
    if i == |tlb| || tlb[i].pid == 0 then i else FindEmpty(tlb, i + 1)
  }

  function FindTouched(tlb: seq<TlbEntry>, pid: nat, f: nat, i: nat): (r: nat)
    requires i <= |tlb|
    ensures i <= r <= |tlb| && (r < |tlb| ==> tlb[r].pid == pid && tlb[r].frame == f)
    ensures forall j :: i <= j < r ==> !(tlb[j].pid == pid && tlb[j].frame == f)
    decreases |tlb| - i
  {
    if i == |tlb| || (tlb[i].pid == pid && tlb[i].frame == f) then i else FindTouched(tlb, pid, f, i + 1)
  }

  function FindFree(f: Frames, i: nat): (r: nat)
    requires i <= |f|
    ensures i <= r <= |f| && (r < |f| ==> f[r].pid == 0) && forall j :: i <= j < r ==> f[j].pid != 0
    decreases |f| - i
  {
    if i == |f| || f[i].pid == 0 then i else FindFree(f, i + 1)
  }

  /** The page table's answer: a frame, or that the page is out, or that there is no such page. */
  function PageLookup(p: Proc, n: nat): int {
    var j := FindPage(p.pages, n, 0);
    if j == |p.pages| then OVERFLOW
    else if p.pages[j].status.M? then p.pages[j].frame else NO_EN_MEMORIA
  }

  function Lookup(ps: seq<Proc>, pid: nat, n: nat): int {
    var i := FindProc(ps, pid, 0);
    if i == |ps| then OVERFLOW else PageLookup(ps[i], n)
  }

  function TlbLookup(tlb: seq<TlbEntry>, pid: nat, n: nat): int {
    var i := FindTlb(tlb, pid, n, 0);
    if i == |tlb| then NO_EN_MEMORIA else tlb[i].frame
  }

  // ---------------------------------------------------------------- the TLB

  const WORD: nat := 0x1_0000

  /** The replacement candidate: scanning from `i`, the entry strictly older than all before
      it and than `limit`, or `best`. */
  function Oldest(tlb: seq<TlbEntry>, i: nat, best: nat, limit: nat): (r: nat)
    requires i <= |tlb| && best < |tlb|
    ensures r < |tlb|
    decreases |tlb| - i
  {
    if i == |tlb| then best
    else if tlb[i].ultimo < limit then Oldest(tlb, i + 1, i, tlb[i].ultimo)
    else Oldest(tlb, i + 1, best, limit)
  }

  function TlbLoad(t: Tables, pid: nat, n: nat, f: nat): Tables
    requires t.tlb != []
  {
    var e := FindEmpty(t.tlb, 0);
    var i := if e < |t.tlb| then e else Oldest(t.tlb, 0, 0, t.accesos);
    t.(tlb := t.tlb[i := TlbEntry(n, f, pid, t.accesos % WORD)])
  }

  function TlbTouch(t: Tables, pid: nat, f: nat): Tables {
    var i := FindTouched(t.tlb, pid, f, 0);
    if i == |t.tlb| then t else t.(tlb := t.tlb[i := t.tlb[i].(ultimo := t.accesos % WORD)])
  }

  function TlbDropFrame(tlb: seq<TlbEntry>, f: nat): seq<TlbEntry> {
    seq(|tlb|, i requires 0 <= i < |tlb| => if tlb[i].frame == f then tlb[i].(pid := 0) else tlb[i])
  }

  function TlbDropPid(tlb: seq<TlbEntry>, pid: nat): seq<TlbEntry> {
    seq(|tlb|, i requires 0 <= i < |tlb| => if tlb[i].pid == pid then tlb[i].(pid := 0) else tlb[i])
  }

  function TlbFlush(tlb: seq<TlbEntry>): seq<TlbEntry> {
    seq(|tlb|, i requires 0 <= i < |tlb| => tlb[i].(pid := 0))
  }

  // ---------------------------------------------------------------- memory accesses

  function SetRef(f: Frames, i: int): Frames {
    if 0 <= i < |f| then f[i := f[i].(ref := true)] else f
  }

  function SetMod(f: Frames, i: int): Frames {
    if 0 <= i < |f| then f[i := f[i].(mod := true)] else f
  }

  /** Reading or writing a frame: one more access, and its reference bit. */
  function Access(t: Tables, f: int): Tables {
    t.(accesos := t.accesos + 1, frames := SetRef(t.frames, f))
  }

  function Modify(t: Tables, f: int): Tables {
    t.(frames := SetMod(t.frames, f))
  }

  // ---------------------------------------------------------------- loading and replacing

  function SetPages(t: Tables, i: nat, pages: seq<PageEntry>): Tables
    requires i < |t.procs|
  {
    t.(procs := t.procs[i := t.procs[i].(pages := pages)])
  }

  /** The page found for frame `f` is marked as swapped out. */
  function OldPage(pages: seq<PageEntry>, f: nat): seq<PageEntry> {
    var j := FindFrame(pages, f, 0);
    if j == |pages| then pages else pages[j := pages[j].(status := S)]
  }

  /** Page `n` is in frame `f`. */
  function NewPage(pages: seq<PageEntry>, n: nat, f: nat): seq<PageEntry> {
    var j := FindPage(pages, n, 0);
    if j == |pages| then pages else pages[j := pages[j].(frame := f, status := M)]
  }

  function Victim(f: Frames, pid: nat, start: nat, a: Algorithm): Choice
    requires start < |f|
  {
    if a.CLOCK? then UmcClock.Clock(f, pid, start) else Enhanced(f, pid, start)
  }

  /** What replacement does once the victim is chosen: write back, evict, install, write. */
  function Evict(t: Tables, i: nat, v: nat, n: nat): Tables
    requires i < |t.procs| && v < |t.frames|
  {
    var p := t.procs[i].pages;
    var t1 := if t.frames[v].mod
              then
                var w := Access(SetPages(t, i, OldPage(p, v)), v);
                w.(frames := w.frames[v := w.frames[v].(mod := false)])
              else t;
    var t2 := SetPages(t1, i, OldPage(t1.procs[i].pages, v));
    var t3 := t2.(tlb := TlbDropFrame(t2.tlb, v));
    Access(SetPages(t3, i, NewPage(t3.procs[i].pages, n, v)), v)
  }

  /** The replacement algorithm, on the process at position `i`. */
  function Replace(t: Tables, i: nat, n: nat, a: Algorithm): (Tables, nat)
    requires i < |t.procs| && t.procs[i].indice < |t.frames|
  {
    var p := t.procs[i];
    var c := Victim(t.frames, p.pid, p.indice, a);
    var next := if c.victim < |c.frames| then NextOwned(c.frames, p.pid, c.victim) else 0;
    var t1 := t.(frames := c.frames, procs := t.procs[i := p.(indice := next)]);
    (if c.victim < |t1.frames| then Evict(t1, i, c.victim, n) else t1, c.victim)
  }

  datatype Loaded = Loaded(t: Tables, ok: bool, frame: int)

  /** The frame count of a process is one byte wide. */
  const BYTE: nat := 0x100

  /** A quota that fits it. */
  predicate QuotaOk(marcos: nat) {
    1 <= marcos < BYTE
  }

  /** Bringing page `n` of the process at position `i` into memory: a free frame while the quota
      allows, otherwise replacement.  When the quota allows and no frame is free the process is
      charged all the same, the page goes nowhere, and the last frame of the list is written. */
  function Load(t: Tables, i: nat, n: nat, a: Algorithm, marcos: nat): Loaded
    requires i < |t.procs|
  {
    var p := t.procs[i];
    var j := FindFree(t.frames, 0);
    if p.cantFrames == 0 && j == |t.frames| then Loaded(t, false, -1)
    else if p.cantFrames < marcos then
      var p' := p.(cantFrames := (p.cantFrames + 1) % BYTE, indice := if p.cantFrames == 0 then j else p.indice);
      if j < |t.frames| then
        var t1 := t.(frames := t.frames[j := Frame(p.pid, true, false)],
                     procs := t.procs[i := p'.(pages := NewPage(p.pages, n, j))]);
        Loaded(Access(t1, j), true, j)
      else
        Loaded(Access(t.(procs := t.procs[i := p']), |t.frames| - 1), true, -1)
    else if p.indice < |t.frames| then
      var (t1, v) := Replace(t, i, n, a);
      Loaded(t1, true, v)
    else Loaded(t, true, -1)
  }

  // ---------------------------------------------------------------- requests

  function Release(f: Frames, pid: nat): Frames {
    seq(|f|, i requires 0 <= i < |f| => if f[i].pid == pid then f[i].(pid := 0) else f[i])
  }

  function Finish(t: Tables, pid: nat): Tables {
    var i := FindProc(t.procs, pid, 0);
    if i == |t.procs| then t
    else t.(frames := Release(t.frames, pid), procs := t.procs[..i] + t.procs[i + 1..], tlb := TlbDropPid(t.tlb, pid))
  }

  function NewPages(n: nat, frame: nat): seq<PageEntry> {
    seq(n, k requires 0 <= k => PageEntry(frame, k, S))
  }

  function Begin(t: Tables, pid: nat, n: nat): Tables {
    t.(procs := t.procs + [Proc(pid, 0, 0, NewPages(n, |t.frames| + 1))])
  }

  /** A read of page `n`. */
  function Solicitar(t: Tables, pid: nat, n: nat, a: Algorithm, marcos: nat): Tables {
    var hit := TlbLookup(t.tlb, pid, n);
    if hit > -1 then TlbTouch(Access(t, hit), pid, hit)
    else
      var f := Lookup(t.procs, pid, n);
      var i := FindProc(t.procs, pid, 0);
      if f == OVERFLOW then Finish(t, pid)
      else if f > -1 then
        var t1 := Access(t, f);
        if t.tlb == [] then t1 else TlbTouch(TlbLoad(t1, pid, n, f), pid, f)
      else if i == |t.procs| then t
      else
        var l := Load(t, i, n, a, marcos);
        if l.ok then Access(l.t, l.frame) else l.t
  }

  /** A write to page `n`. */
  function Almacenar(t: Tables, pid: nat, n: nat, a: Algorithm, marcos: nat): Tables {
    var hit := TlbLookup(t.tlb, pid, n);
    if hit > -1 then TlbTouch(Modify(Access(t, hit), hit), pid, hit)
    else
      var f := Lookup(t.procs, pid, n);
      var i := FindProc(t.procs, pid, 0);
      if f == OVERFLOW then Finish(t, pid)
      else if f > -1 then
        var t1 := if t.tlb == [] then t else TlbTouch(TlbLoad(t, pid, n, f), pid, f);
        Modify(Access(t1, f), f)
      else if i == |t.procs| then t
      else
        var l := Load(t, i, n, a, marcos);
        if l.ok then l.t else Access(l.t, f)
  }

  datatype Request =
    | Iniciar(pid: nat, paginas: nat)
    | Leer(pid: nat, nro: nat)
    | Escribir(pid: nat, nro: nat)
    | Terminar(pid: nat)
    | Cambio(activo: nat)
    | FlushTlb
    | FlushMemoria

  /** What the nucleus and the CPUs may send: new pids are fresh and not zero, and the others
      name a running process. */
  predicate Allowed(t: Tables, r: Request) {
    match r
    case Iniciar(pid, _) => pid != 0 && FindProc(t.procs, pid, 0) == |t.procs|
    case Leer(pid, _) => FindProc(t.procs, pid, 0) < |t.procs|
    case Escribir(pid, _) => FindProc(t.procs, pid, 0) < |t.procs|
    case Terminar(pid) => FindProc(t.procs, pid, 0) < |t.procs|
    case _ => true
  }

  function Serve(t: Tables, r: Request, a: Algorithm, marcos: nat): Tables {
    match r
    case Iniciar(pid, n) => Begin(t, pid, n)
    case Leer(pid, n) => Solicitar(t, pid, n, a, marcos)
    case Escribir(pid, n) => Almacenar(t, pid, n, a, marcos)
    case Terminar(pid) => Finish(t, pid)
    case Cambio(activo) => t.(tlb := TlbDropPid(t.tlb, activo))
    case FlushTlb => t.(tlb := TlbFlush(t.tlb))
    case FlushMemoria => t.(frames := seq(|t.frames|, i requires 0 <= i < |t.frames| => t.frames[i].(mod := true)))
  }
}
