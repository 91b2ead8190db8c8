/** A client thread of the server, step by step.  It holds the write lock of one file for the
    whole of its operation; each critical section of the global `m_lock` is one step, and so is
    every pointer it follows outside of one.  Any thread may run between two steps. */
module OsadaThreads {
  import opened Bytes
  import opened OsadaDisk
  import opened OsadaChains
  import opened OsadaContent

  datatype Op = Writing(offset: nat, buf: seq<byte>) | Truncating(size: nat) | Unlinking

  datatype Answer = SEXE | ENOSPC

  /** Where a thread is.  Cells are the pointer variables of the original's loops. */
  datatype Pc =
    | Start
    | WFirst
    | WWalk(at: Cell, movs: nat)
    | WScan(tail: Cell, need: int)
    | TWalk(at: Cell, current: nat)
    | TScan(tail: Cell, n: nat)
    | TSeek(at: Cell, left: nat)
    | Undo(at: Cell, left: nat)
    | Seek(at: Cell, left: nat)
    | Copy(at: Cell, o: nat, left: nat, pos: nat)
    | UMark
    | Finished(r: Answer)
    | Fault

  /** `size0` is the size the operation found; `start` is a history variable no step reads. */
  datatype Thread = Thread(f: nat, op: Op, now: int, size0: nat, pc: Pc, start: FileView)

  // ---------------------------------------------------------------- one thread, one step

  function End(op: Op): nat
    requires op.Writing?
  {
    op.offset + |op.buf|
  }

  function SetSize(d: Disk, f: nat, size: nat): Disk
    requires f < |d.inodes|
  {
    SetNode(d, f, size, d.inodes[f].lastmod)
  }

  function FirstFree(u: seq<bool>, j: nat): (p: nat)
    requires j <= |u|
    ensures j <= p <= |u| && (p < |u| ==> !u[p])
    decreases |u| - j
  {
    if j == |u| || !u[j] then j else FirstFree(u, j + 1)
  }

  function ReleaseAll(d: Disk, c: Cell): Disk {
    if |d.used| == |d.next| then ReleaseFrom(d, c, |d.next|) else d
  }

  /** Entering the operation: stamp, size, and which loop comes first. */
  function Enter(d: Disk, th: Thread): (Disk, Pc)
    requires th.f < |d.inodes|
  {
    var size := d.inodes[th.f].size;
    match th.op
    case Writing(offset, buf) =>
      var e := SetNode(d, th.f, size, th.now);
      if offset + |buf| > size then
        (SetSize(e, th.f, offset + |buf|),
         if d.inodes[th.f].first == END_OF_FILE then WFirst else WWalk(Link(d.inodes[th.f].first), 0))
      else (e, Seek(Head(th.f), offset / BLOCK_SIZE))
    case Truncating(n) =>
      (SetSize(d, th.f, n), if n != size then TWalk(Head(th.f), 0) else Finished(SEXE))
    case Unlinking =>
      (ReleaseAll(d, Head(th.f)), UMark)
  }

  /** The first-block critical section. */
  function First(d: Disk, th: Thread): (Disk, Pc)
    requires th.f < |d.inodes| && |d.used| == |d.next|
  {
    var p := FirstFree(d.used, 0);
    if p == |d.used| then (SetSize(d, th.f, th.size0), Finished(ENOSPC))
    else (Take(d, Head(th.f), p), WWalk(Link(p), 0))
  }

  /** The allocation critical section and the test that follows it. */
  function Allocate(d: Disk, th: Thread, tail: Cell, need: int, unit: nat, next: Pc): (Disk, Pc)
    requires th.f < |d.inodes| && |d.used| == |d.next| && CellOk(d, tail)
  {
    var g := Grow(d, tail, need, unit, 0);
    if g.stop < |d.used| then (g.disk, next)
    else
      (if th.f < |g.disk.inodes| then SetSize(g.disk, th.f, th.size0) else g.disk, Undo(Head(th.f), Blocks(th.size0)))
  }

  /** One iteration of the copy loop: a chunk into its block, then the next pointer. */
  function CopyOne(d: Disk, th: Thread, at: Cell, o: nat, left: nat, pos: nat): (Disk, Pc)
    requires left > 0
  {
    if !CellOk(d, at) || Get(d, at) >= |d.data| || !th.op.Writing? || o >= BLOCK_SIZE || pos + left > |th.op.buf| then
      (d, Fault)
    else
      var w := if left >= BLOCK_SIZE - o then BLOCK_SIZE - o else left;
      var e := WriteBlock(d, Get(d, at), o, th.op.buf[pos..pos + w]);
      var at' := Link(Get(d, at));
      if !CellOk(d, at') then (e, Fault)
      else if Get(d, at') == END_OF_FILE then (e, Finished(SEXE))
      else (e, Copy(at', 0, left - w, pos + w))
  }

  /** One link towards the tail; at the tail, what the scan has to find. */
  function WalkStep(d: Disk, th: Thread, at: Cell, movs: nat): Pc {
    if !CellOk(d, at) || !th.op.Writing? then Fault
    else if Get(d, at) == END_OF_FILE then
      WScan(at, End(th.op) - th.size0 - (BLOCK_SIZE - (th.size0 - movs * BLOCK_SIZE)))
    else WWalk(Link(Get(d, at)), movs + 1)
  }

  /** One link of the count; at its end, which branch of truncate follows. */
  function CountStep(d: Disk, th: Thread, at: Cell, current: nat): Pc {
    if !CellOk(d, at) || !th.op.Truncating? then Fault
    else if Get(d, at) != END_OF_FILE then TWalk(Link(Get(d, at)), current + 1)
    else
      var n := Blocks(th.op.size);
      if th.op.size > th.size0 && n > current then TScan(at, n - current)
      else if th.op.size < th.size0 && n < current then TSeek(Head(th.f), n)
      else Finished(SEXE)
  }

  function WriteScan(d: Disk, th: Thread, tail: Cell, need: int): (Disk, Pc)
    requires |d.used| == |d.next| && th.f < |d.inodes|
  {
    if !CellOk(d, tail) || !th.op.Writing? then (d, Fault)
    else Allocate(d, th, tail, need, BLOCK_SIZE, Seek(Head(th.f), th.op.offset / BLOCK_SIZE))
  }

  function TruncateScan(d: Disk, th: Thread, tail: Cell, n: nat): (Disk, Pc)
    requires |d.used| == |d.next| && th.f < |d.inodes|
  {
    if !CellOk(d, tail) then (d, Fault) else Allocate(d, th, tail, n, 1, Finished(SEXE))
  }

  /** A shrinking truncate: on to the first block to release, then the release. */
  function CutStep(d: Disk, at: Cell, left: nat): (Disk, Pc) {
    if !CellOk(d, at) then (d, Fault)
    else if left > 0 then (d, TSeek(Link(Get(d, at)), left - 1))
    else (ReleaseAll(d, at), Finished(SEXE))
  }

  function UndoStep(d: Disk, at: Cell, left: nat): (Disk, Pc) {
    if !CellOk(d, at) then (d, Fault)
    else if left > 0 then (d, Undo(Link(Get(d, at)), left - 1))
    else (ReleaseAll(d, at), Finished(ENOSPC))
  }

  function SeekStep(d: Disk, th: Thread, at: Cell, left: nat): Pc {
    if !CellOk(d, at) || !th.op.Writing? then Fault
    else if left > 0 then Seek(Link(Get(d, at)), left - 1)
    else Copy(at, th.op.offset % BLOCK_SIZE, |th.op.buf|, 0)
  }

  function Step(d: Disk, th: Thread): (Disk, Pc)
    requires |d.used| == |d.next| && th.f < |d.inodes|
  {
    match th.pc
    case Start => Enter(d, th)
    case WFirst => First(d, th)
    case WWalk(at, movs) => (d, WalkStep(d, th, at, movs))
    case WScan(tail, need) => WriteScan(d, th, tail, need)
    case TWalk(at, current) => (d, CountStep(d, th, at, current))
    case TScan(tail, n) => TruncateScan(d, th, tail, n)
    case TSeek(at, left) => CutStep(d, at, left)
    case Undo(at, left) => UndoStep(d, at, left)
    case Seek(at, left) => (d, SeekStep(d, th, at, left))
    case Copy(at, o, left, pos) =>
      if left == 0 then (d, Finished(SEXE)) else CopyOne(d, th, at, o, left, pos)
    case UMark => (d.(inodes := d.inodes[th.f := d.inodes[th.f].(state := DELETED)]), Finished(SEXE))
    case Finished(_) => (d, th.pc)
    case Fault => (d, Fault)
  }

  // ---------------------------------------------------------------- what each point guarantees

  /** The time stamp an operation leaves: its own for a write, whatever it answers. */
  function Stamp(th: Thread): int {
    if th.op.Writing? then th.now else th.start.node.lastmod
  }

  /** The finished operation, seen on its file: success is the write, truncate or unlink of
      the sequential server; ENOSPC leaves chain, size and bytes as they were.  A write stamps the
      file either way, the others never do. */
  ghost predicate Done(th: Thread, v: FileView, r: Answer) {
    var start := th.start;
    && v.node.lastmod == Stamp(th)
    && if r.ENOSPC? then
         v == start.(node := start.node.(lastmod := Stamp(th)))
       else match th.op
         case Writing(offset, buf) =>
           && Fitted(v) && Holds(start.blocks, start.node.size)
           && Written(Content(start.blocks, start.node.size), offset, buf, Content(v.blocks, v.node.size))
         case Truncating(size) =>
           && Fitted(v) && Holds(start.blocks, start.node.size) && v.node.size == size
           && Resized(Content(start.blocks, start.node.size), size, Content(v.blocks, v.node.size))
         case Unlinking => v.node.state == DELETED && v.chain == []
  }

  /** The file is regular and its chain has the length its size asks for. */
  ghost predicate Fitted(v: FileView) {
    && v.node.state.REGULAR? && v.node.first == At(v.chain, 0)
    && |v.chain| == |v.blocks| == Blocks(v.node.size) && Holds(v.blocks, v.node.size)
  }

  ghost predicate Extends(v: FileView, start: FileView) {
    |v.blocks| == |v.chain| && start.chain <= v.chain && start.blocks <= v.blocks
  }

  function Max(a: nat, b: nat): nat { if a < b then b else a }

  /** The copy loop's variables agree: the cell and the offset in its block are those of the
      byte to write next. */
  ghost predicate CopyAt(op: Op, f: nat, c: seq<nat>, at: Cell, o: nat, left: nat, pos: nat)
    requires op.Writing?
  {
    && pos + left == |op.buf| && o == (op.offset + pos) % BLOCK_SIZE
    && (op.offset + pos) / BLOCK_SIZE < |c| && at == CellAt(f, c, (op.offset + pos) / BLOCK_SIZE)
  }

  ghost predicate CopyPoint(v: FileView, s: FileView, f: nat, op: Op, at: Cell, o: nat, left: nat, pos: nat) {
    && op.Writing? && v.node.size == Max(s.node.size, End(op)) && |v.chain| == |v.blocks| == Blocks(v.node.size)
    && left <= |op.buf| && Overlaid(s.blocks, v.blocks, op.offset, op.buf, |op.buf| - left)
    && (left > 0 ==> CopyAt(op, f, v.chain, at, o, left, pos))
  }

  /** A write that grows its file: the size is the new one, the chain still the old one or, for an
      empty file, its first block. */
  ghost predicate Growing(v: FileView, th: Thread) {
    && th.op.Writing? && v.node.size == End(th.op) > th.size0 && Extends(v, th.start)
    && |v.chain| == Max(1, |th.start.chain|)
  }

  ghost predicate FirstPoint(v: FileView, th: Thread) {
    && th.op.Writing? && v.node.size == End(th.op) > th.size0
    && v.chain == [] && th.start.chain == [] && v.blocks == th.start.blocks
  }

  ghost predicate WalkPoint(v: FileView, th: Thread, at: Cell, movs: nat) {
    Growing(v, th) && movs < |v.chain| && at == CellAt(th.f, v.chain, movs + 1)
  }

  ghost predicate ScanPoint(v: FileView, th: Thread, tail: Cell, need: int) {
    && Growing(v, th) && tail == CellAt(th.f, v.chain, |v.chain|)
    && need == End(th.op) - BLOCK_SIZE * |v.chain|
  }

  /** A truncate that has set the size and not yet touched the chain. */
  ghost predicate Resizing(v: FileView, th: Thread) {
    && th.op.Truncating? && v.node.size == th.op.size
    && v.chain == th.start.chain && v.blocks == th.start.blocks
  }

  ghost predicate CountPoint(v: FileView, th: Thread, at: Cell, current: nat) {
    Resizing(v, th) && current <= |v.chain| && at == CellAt(th.f, v.chain, current)
  }

  ghost predicate AddPoint(v: FileView, th: Thread, tail: Cell, n: nat) {
    && Resizing(v, th) && v.node.size > th.size0 && tail == CellAt(th.f, v.chain, |v.chain|)
    && n > 0 && |v.chain| + n == Blocks(v.node.size)
  }

  ghost predicate CutPoint(v: FileView, th: Thread, at: Cell, left: nat) {
    && Resizing(v, th) && v.node.size < th.size0 && left <= Blocks(v.node.size) <= |v.chain|
    && at == CellAt(th.f, v.chain, Blocks(v.node.size) - left)
  }

  ghost predicate UndoPoint(v: FileView, th: Thread, at: Cell, left: nat) {
    && v.node.size == th.size0 && Extends(v, th.start) && left <= |th.start.chain|
    && at == CellAt(th.f, v.chain, |th.start.chain| - left)
  }

  ghost predicate SeekPoint(v: FileView, th: Thread, at: Cell, left: nat) {
    && th.op.Writing? && v.node.size == Max(th.size0, End(th.op)) && Extends(v, th.start)
    && |v.chain| == Blocks(v.node.size) && left <= th.op.offset / BLOCK_SIZE < |v.chain|
    && at == CellAt(th.f, v.chain, th.op.offset / BLOCK_SIZE - left)
  }

  /** The file is the one that was locked, but for size and chain, and the stamp once begun. */
  ghost predicate SameFile(v: FileView, th: Thread) {
    && v.node.state.REGULAR?
    && v.node == th.start.node.(size := v.node.size, first := v.node.first, lastmod := v.node.lastmod)
    && (!th.pc.Start? ==> v.node.lastmod == Stamp(th))
  }

  /** What holds of a thread's own file at each point of its operation. */
  ghost predicate AtPoint(v: FileView, th: Thread) {
    match th.pc
    case Start => v == th.start
    case WFirst => FirstPoint(v, th)
    case WWalk(at, movs) => WalkPoint(v, th, at, movs)
    case WScan(tail, need) => ScanPoint(v, th, tail, need)
    case TWalk(at, current) => CountPoint(v, th, at, current)
    case TScan(tail, n) => AddPoint(v, th, tail, n)
    case TSeek(at, left) => CutPoint(v, th, at, left)
    case Undo(at, left) => UndoPoint(v, th, at, left)
    case Seek(at, left) => SeekPoint(v, th, at, left)
    case Copy(at, o, left, pos) => CopyPoint(v, th.start, th.f, th.op, at, o, left, pos)
    case UMark => th.op.Unlinking? && v.chain == []
    case Finished(r) => Done(th, v, r)
    case Fault => false
  }

  ghost predicate Local(v: FileView, th: Thread) {
    && Fitted(th.start) && th.start.node.size == th.size0
    && (th.op.Writing? ==> th.op.buf != [])
    && (!th.pc.Finished? ==> SameFile(v, th))
    && AtPoint(v, th)
  }

  // ---------------------------------------------------------------- each step keeps it

  /** The result of a step, judged on the whole volume: other files untouched, own point reached. */
  ghost predicate StepOk(d: Disk, k: Book, th: Thread, e: Disk, k': Book, pc: Pc)
    requires Wf(d, k) && th.f < |k.ch|
  {
    OnlyFile(d, k, th.f, e, k') && Local(FileOf(e, k', th.f), th.(pc := pc))
  }

  lemma SetSizeOnly(d: Disk, k: Book, f: nat, size: nat, lm: int)
    requires Wf(d, k) && f < |k.ch|
    ensures OnlyFile(d, k, f, SetNode(d, f, size, lm), k)
    ensures FileOf(SetNode(d, f, size, lm), k, f) == FileOf(d, k, f).(node := d.inodes[f].(size := size, lastmod := lm))
  {
    SetNodeWf(d, k, f, size, lm);
  }

  lemma StayOnly(d: Disk, k: Book, f: nat)
    requires Wf(d, k) && f < |k.ch|
    ensures OnlyFile(d, k, f, d, k)
  {
  }

  lemma EnterOk(d: Disk, k: Book, th: Thread) returns (k': Book)
    requires Wf(d, k) && th.f < |k.ch| && th.pc.Start? && Local(FileOf(d, k, th.f), th)
    ensures StepOk(d, k, th, Step(d, th).0, k', Step(d, th).1)
  {
    var f, s := th.f, th.start;
    k' := k;
    ChainCell(d, k, f, 0);
    match th.op
    case Writing(offset, buf) =>
      SetSizeOnly(d, k, f, th.size0, th.now);
      var e := SetNode(d, f, th.size0, th.now);
      if offset + |buf| > th.size0 {
        SetSizeOnly(e, k, f, offset + |buf|, th.now);
        OnlyFileTrans(d, k, f, e, k, SetSize(e, f, offset + |buf|), k);
      }
    case Truncating(n) =>
      SetSizeOnly(d, k, f, n, d.inodes[f].lastmod);
      if n == th.size0 {
        ContentPrefix(s.blocks, n, s.blocks, n);
      }
    case Unlinking =>
      ReleaseFromSpec(d, k, f, 0);
      CutOnly(d, k, f, 0);
      k' := Cut(k, f, 0);
      ReleasedSpec(d, k, f, 0);
  }

  lemma FirstOk(d: Disk, k: Book, th: Thread) returns (k': Book)
    requires Wf(d, k) && th.f < |k.ch| && th.pc.WFirst? && Local(FileOf(d, k, th.f), th)
    ensures StepOk(d, k, th, Step(d, th).0, k', Step(d, th).1)
  {
    var f, p := th.f, FirstFree(d.used, 0);
    ChainCell(d, k, f, 0);
    if p == |d.used| {
      k' := k;
      SetSizeOnly(d, k, f, th.size0, d.inodes[f].lastmod);
    } else {
      TakeGrown(d, k, f, p);
      k' := Append1(k, f, p);
      assert Append(k, f, [p]) == k' by { assert [p][1..] == []; }
      GrownOnly(d, k, f, [p], Take(d, Head(f), p));
    }
  }

  /** Hops along the own chain stay on it, and end where the loops expect. */
  lemma WalkOk(d: Disk, k: Book, th: Thread)
    requires Wf(d, k) && th.f < |k.ch| && th.pc.WWalk? && Local(FileOf(d, k, th.f), th)
    ensures StepOk(d, k, th, Step(d, th).0, k, Step(d, th).1)
  {
    StayOnly(d, k, th.f);
    ChainCell(d, k, th.f, th.pc.movs + 1);
  }

  lemma CountOk(d: Disk, k: Book, th: Thread)
    requires Wf(d, k) && th.f < |k.ch| && th.pc.TWalk? && Local(FileOf(d, k, th.f), th)
    ensures StepOk(d, k, th, Step(d, th).0, k, Step(d, th).1)
  {
    StayOnly(d, k, th.f);
    ChainCell(d, k, th.f, 0);
    ChainCell(d, k, th.f, th.pc.current);
    if th.pc.current == |k.ch[th.f]| && Blocks(th.op.size) == |k.ch[th.f]| {
      ContentPrefix(th.start.blocks, th.size0, th.start.blocks, th.op.size);
    }
  }

  lemma ShrinkSeekOk(d: Disk, k: Book, th: Thread)
    requires Wf(d, k) && th.f < |k.ch| && th.pc.TSeek? && th.pc.left > 0 && Local(FileOf(d, k, th.f), th)
    ensures StepOk(d, k, th, Step(d, th).0, k, Step(d, th).1)
  {
    StayOnly(d, k, th.f);
    ChainCell(d, k, th.f, Blocks(th.op.size) - th.pc.left);
  }

  lemma UndoSeekOk(d: Disk, k: Book, th: Thread)
    requires Wf(d, k) && th.f < |k.ch| && th.pc.Undo? && th.pc.left > 0 && Local(FileOf(d, k, th.f), th)
    ensures StepOk(d, k, th, Step(d, th).0, k, Step(d, th).1)
  {
    StayOnly(d, k, th.f);
    ChainCell(d, k, th.f, |th.start.chain| - th.pc.left);
  }

  lemma WriteSeekOk(d: Disk, k: Book, th: Thread)
    requires Wf(d, k) && th.f < |k.ch| && th.pc.Seek? && Local(FileOf(d, k, th.f), th)
    ensures StepOk(d, k, th, Step(d, th).0, k, Step(d, th).1)
  {
    StayOnly(d, k, th.f);
    ChainCell(d, k, th.f, th.op.offset / BLOCK_SIZE - th.pc.left);
  }

  /** The allocation section, up to its end-of-scan test. */
  lemma ScanOk(d: Disk, k: Book, th: Thread, need: int, unit: nat) returns (k': Book)
    requires Wf(d, k) && th.f < |k.ch| && d.inodes[th.f].state.REGULAR? && unit > 0
    ensures CellOk(d, Tail(k, th.f))
    ensures var g := Grow(d, Tail(k, th.f), need, unit, 0);
            && OnlyFile(d, k, th.f, g.disk, k')
            && Extends(FileOf(g.disk, k', th.f), FileOf(d, k, th.f))
            && g.disk.inodes[th.f] == d.inodes[th.f].(first := At(k'.ch[th.f], 0))
            && (g.stop < |d.used| ==> |k'.ch[th.f]| == |k.ch[th.f]| + Wanted(need, unit))
  {
    var f := th.f;
    ChainCell(d, k, f, |k.ch[f]|);
    var taken := GrowSpec(d, k, f, need, unit, 0);
    k' := Append(k, f, taken);
    GrownOnly(d, k, f, taken, Grow(d, Tail(k, f), need, unit, 0).disk);
  }

  /** Running out: the size is put back and the rollback starts at the inode. */
  lemma ScanFailed(d: Disk, k: Book, th: Thread, e: Disk, k': Book)
    requires Wf(d, k) && th.f < |k.ch| && Local(FileOf(d, k, th.f), th) && (th.pc.WScan? || th.pc.TScan?)
    requires OnlyFile(d, k, th.f, e, k') && Extends(FileOf(e, k', th.f), FileOf(d, k, th.f))
    requires e.inodes[th.f] == d.inodes[th.f].(first := At(k'.ch[th.f], 0))
    ensures StepOk(d, k, th, SetSize(e, th.f, th.size0), k', Undo(Head(th.f), Blocks(th.size0)))
  {
    SetSizeOnly(e, k', th.f, th.size0, e.inodes[th.f].lastmod);
    OnlyFileTrans(d, k, th.f, e, k', SetSize(e, th.f, th.size0), k');
  }

  /** A write's scan brings the chain to the length of the new size. */
  lemma WriteLength(size0: nat, end: nat, len: nat)
    requires size0 < end && len == Max(1, Blocks(size0))
    ensures len + Wanted(end - BLOCK_SIZE * len, BLOCK_SIZE) == Blocks(end)
  {
    WantedBlocks(end - BLOCK_SIZE * len);
  }

  lemma WScanOk(d: Disk, k: Book, th: Thread) returns (k': Book)
    requires Wf(d, k) && th.f < |k.ch| && th.pc.WScan? && Local(FileOf(d, k, th.f), th)
    ensures StepOk(d, k, th, Step(d, th).0, k', Step(d, th).1)
  {
    k' := ScanOk(d, k, th, th.pc.need, BLOCK_SIZE);
    var g := Grow(d, Tail(k, th.f), th.pc.need, BLOCK_SIZE, 0);
    if g.stop == |d.used| {
      ScanFailed(d, k, th, g.disk, k');
    } else {
      WriteLength(th.size0, End(th.op), |k.ch[th.f]|);
    }
  }

  lemma TScanOk(d: Disk, k: Book, th: Thread) returns (k': Book)
    requires Wf(d, k) && th.f < |k.ch| && th.pc.TScan? && Local(FileOf(d, k, th.f), th)
    ensures StepOk(d, k, th, Step(d, th).0, k', Step(d, th).1)
  {
    k' := ScanOk(d, k, th, th.pc.n, 1);
    var g := Grow(d, Tail(k, th.f), th.pc.n, 1, 0);
    WantedOnes(th.pc.n);
    if g.stop == |d.used| {
      ScanFailed(d, k, th, g.disk, k');
    } else {
      ContentPrefix(th.start.blocks, th.size0, FileOf(g.disk, k', th.f).blocks, th.op.size);
    }
  }

  /** A releasing section: the chain from position `keep` on is given back. */
  lemma CutAt(d: Disk, k: Book, th: Thread, keep: nat) returns (e: Disk, k': Book)
    requires Wf(d, k) && th.f < |k.ch| && d.inodes[th.f].state.REGULAR? && keep <= |k.ch[th.f]|
    ensures CellOk(d, CellAt(th.f, k.ch[th.f], keep)) && e == ReleaseAll(d, CellAt(th.f, k.ch[th.f], keep))
    ensures OnlyFile(d, k, th.f, e, k') && e.inodes[th.f] == d.inodes[th.f].(first := At(k.ch[th.f][..keep], 0))
    ensures FileOf(e, k', th.f).chain == k.ch[th.f][..keep]
    ensures FileOf(e, k', th.f).blocks == FileOf(d, k, th.f).blocks[..keep]
  {
    ReleaseFromSpec(d, k, th.f, keep);
    CutOnly(d, k, th.f, keep);
    e, k' := Released(d, k, th.f, keep), Cut(k, th.f, keep);
  }

  lemma ShrinkOk(d: Disk, k: Book, th: Thread) returns (k': Book)
    requires Wf(d, k) && th.f < |k.ch| && Local(FileOf(d, k, th.f), th) && th.pc.TSeek? && th.pc.left == 0
    ensures StepOk(d, k, th, Step(d, th).0, k', Step(d, th).1)
  {
    var e: Disk;
    e, k' := CutAt(d, k, th, Blocks(th.op.size));
    ContentPrefix(th.start.blocks, th.size0, FileOf(e, k', th.f).blocks, th.op.size);
  }

  lemma RollbackOk(d: Disk, k: Book, th: Thread) returns (k': Book)
    requires Wf(d, k) && th.f < |k.ch| && Local(FileOf(d, k, th.f), th) && th.pc.Undo? && th.pc.left == 0
    ensures StepOk(d, k, th, Step(d, th).0, k', Step(d, th).1)
  {
    var e: Disk;
    e, k' := CutAt(d, k, th, |th.start.chain|);
    assert FileOf(e, k', th.f).chain == th.start.chain && FileOf(e, k', th.f).blocks == th.start.blocks;
  }

  lemma CopyAtNext(op: Op, f: nat, c: seq<nat>, at: Cell, o: nat, left: nat, pos: nat, size: nat)
    requires op.Writing? && CopyAt(op, f, c, at, o, left, pos) && left > BLOCK_SIZE - o
    requires End(op) <= size && |c| == Blocks(size)
    ensures var w := BLOCK_SIZE - o; var i := (op.offset + pos) / BLOCK_SIZE;
            i + 1 < |c| && CopyAt(op, f, c, Link(c[i]), 0, left - w, pos + w)
  {
    var x, w := op.offset + pos, BLOCK_SIZE - o;
    assert (x + w) / BLOCK_SIZE == x / BLOCK_SIZE + 1 && (x + w) % BLOCK_SIZE == 0;
    assert x + w < size;
  }

  /** One iteration of the copy loop on the disk. */
  lemma ChunkOk(d: Disk, k: Book, f: nat, from: seq<Block>, off: nat, buf: seq<byte>, pos: nat, o: nat, w: nat)
    returns (e: Disk)
    requires Wf(d, k) && f < |k.ch| && d.inodes[f].state.REGULAR? && pos + w <= |buf| && o + w <= BLOCK_SIZE
    requires Overlaid(from, FileOf(d, k, f).blocks, off, buf, pos)
    requires o == (off + pos) % BLOCK_SIZE && (off + pos) / BLOCK_SIZE < |k.ch[f]|
    ensures k.ch[f][(off + pos) / BLOCK_SIZE] < |d.data|
    ensures e == WriteBlock(d, k.ch[f][(off + pos) / BLOCK_SIZE], o, buf[pos..pos + w])
    ensures OnlyFile(d, k, f, e, k) && |FileOf(e, k, f).blocks| == |FileOf(d, k, f).blocks|
    ensures Overlaid(from, FileOf(e, k, f).blocks, off, buf, pos + w)
  {
    var i := (off + pos) / BLOCK_SIZE;
    WriteBlockWf(d, k, f, i, o, buf[pos..pos + w]);
    OverlayStep(from, FileOf(d, k, f).blocks, off, buf, pos, i, o, w);
    e := WriteBlock(d, k.ch[f][i], o, buf[pos..pos + w]);
  }

  lemma CopyDoneOk(d: Disk, k: Book, th: Thread)
    requires Wf(d, k) && th.f < |k.ch| && th.pc.Copy? && th.pc.left == 0 && Local(FileOf(d, k, th.f), th)
    ensures Done(th, FileOf(d, k, th.f), SEXE)
  {
    ChainCell(d, k, th.f, 0);
    var v := FileOf(d, k, th.f);
    OverlayContent(th.start.blocks, th.size0, v.blocks, th.op.offset, th.op.buf, v.node.size);
  }

  /** What an iteration of the copy loop does, by its position in the chain. */
  lemma CopyOneIs(d: Disk, k: Book, th: Thread, i: nat, w: nat)
    requires Wf(d, k) && th.f < |k.ch| && d.inodes[th.f].state.REGULAR? && th.pc.Copy? && th.pc.left > 0
    requires th.op.Writing? && th.pc.o < BLOCK_SIZE && th.pc.pos + th.pc.left <= |th.op.buf|
    requires i < |k.ch[th.f]| && th.pc.at == CellAt(th.f, k.ch[th.f], i)
    requires w == if th.pc.left >= BLOCK_SIZE - th.pc.o then BLOCK_SIZE - th.pc.o else th.pc.left
    ensures k.ch[th.f][i] < |d.data|
    ensures Step(d, th) == (WriteBlock(d, k.ch[th.f][i], th.pc.o, th.op.buf[th.pc.pos..th.pc.pos + w]),
                            if i + 1 == |k.ch[th.f]| then Finished(SEXE)
                            else Copy(Link(k.ch[th.f][i]), 0, th.pc.left - w, th.pc.pos + w))
  {
    NextCell(d, k, th.f, i);
    ChainCell(d, k, th.f, i);
  }

  /** How many bytes an iteration copies. */
  function ChunkSize(pc: Pc): (w: nat)
    requires pc.Copy? && pc.o <= BLOCK_SIZE
    ensures w <= pc.left && pc.o + w <= BLOCK_SIZE
  {
    if pc.left >= BLOCK_SIZE - pc.o then BLOCK_SIZE - pc.o else pc.left
  }

  /** The next point of the loop, from the bytes now in place. */
  lemma NextPoint(v: FileView, v': FileView, s: FileView, th: Thread, i: nat, w: nat)
    requires th.pc.Copy? && th.pc.left > 0 && th.pc.o < BLOCK_SIZE && w == ChunkSize(th.pc)
    requires CopyPoint(v, s, th.f, th.op, th.pc.at, th.pc.o, th.pc.left, th.pc.pos)
    requires i == (th.op.offset + th.pc.pos) / BLOCK_SIZE
    requires v'.node == v.node && v'.chain == v.chain && |v'.blocks| == |v.blocks|
    requires Overlaid(s.blocks, v'.blocks, th.op.offset, th.op.buf, th.pc.pos + w)
    ensures CopyPoint(v', s, th.f, th.op, Link(v.chain[i]), 0, th.pc.left - w, th.pc.pos + w)
    ensures i + 1 == |v.chain| ==> th.pc.left == w
  {
    if th.pc.left > w {
      CopyAtNext(th.op, th.f, v.chain, th.pc.at, th.pc.o, th.pc.left, th.pc.pos, v.node.size);
    }
  }

  /** The disk after an iteration, and what the iteration returns. */
  lemma CopyChunk(d: Disk, k: Book, th: Thread, i: nat, w: nat) returns (e: Disk)
    requires Wf(d, k) && th.f < |k.ch| && d.inodes[th.f].state.REGULAR? && th.pc.Copy? && th.pc.left > 0
    requires CopyPoint(FileOf(d, k, th.f), th.start, th.f, th.op, th.pc.at, th.pc.o, th.pc.left, th.pc.pos)
    requires th.op.Writing? && i == (th.op.offset + th.pc.pos) / BLOCK_SIZE
    requires th.pc.o < BLOCK_SIZE && w == ChunkSize(th.pc)
    ensures i < |k.ch[th.f]| && OnlyFile(d, k, th.f, e, k) && e.inodes == d.inodes
    ensures var v, v' := FileOf(d, k, th.f), FileOf(e, k, th.f);
            v'.node == v.node && v'.chain == v.chain == k.ch[th.f] && |v'.blocks| == |v.blocks|
    ensures th.pc.pos + w <= |th.op.buf|
    ensures Overlaid(th.start.blocks, FileOf(e, k, th.f).blocks, th.op.offset, th.op.buf, th.pc.pos + w)
    ensures Step(d, th) == (e, if i + 1 == |k.ch[th.f]| then Finished(SEXE)
                               else Copy(Link(k.ch[th.f][i]), 0, th.pc.left - w, th.pc.pos + w))
  {
    CopyOneIs(d, k, th, i, w);
    e := ChunkOk(d, k, th.f, th.start.blocks, th.op.offset, th.op.buf, th.pc.pos, th.pc.o, w);
  }

  /** One iteration of the copy loop: on to the next point, or out of the loop with all done. */
  lemma CopyMore(d: Disk, k: Book, th: Thread) returns (e: Disk, pc: Pc)
    requires Wf(d, k) && th.f < |k.ch| && d.inodes[th.f].state.REGULAR? && th.pc.Copy? && th.pc.left > 0
    requires CopyPoint(FileOf(d, k, th.f), th.start, th.f, th.op, th.pc.at, th.pc.o, th.pc.left, th.pc.pos)
    ensures OnlyFile(d, k, th.f, e, k) && pc.Copy? && e.inodes == d.inodes
    ensures CopyPoint(FileOf(e, k, th.f), th.start, th.f, th.op, pc.at, pc.o, pc.left, pc.pos)
    ensures Step(d, th) == (e, pc) || (Step(d, th) == (e, Finished(SEXE)) && pc.left == 0)
  {
    var i, w := (th.op.offset + th.pc.pos) / BLOCK_SIZE, ChunkSize(th.pc);
    e := CopyChunk(d, k, th, i, w);
    pc := Copy(Link(k.ch[th.f][i]), 0, th.pc.left - w, th.pc.pos + w);
    NextPoint(FileOf(d, k, th.f), FileOf(e, k, th.f), th.start, th, i, w);
  }

  lemma CopyOk(d: Disk, k: Book, th: Thread)
    requires Wf(d, k) && th.f < |k.ch| && th.pc.Copy? && Local(FileOf(d, k, th.f), th)
    ensures StepOk(d, k, th, Step(d, th).0, k, Step(d, th).1)
  {
    if th.pc.left == 0 {
      StayOnly(d, k, th.f);
      CopyDoneOk(d, k, th);
    } else {
      var e, pc := CopyMore(d, k, th);
      if Step(d, th).1.Finished? {
        CopyDoneOk(e, k, th.(pc := pc));
      }
    }
  }

  lemma MarkOk(d: Disk, k: Book, th: Thread)
    requires Wf(d, k) && th.f < |k.ch| && th.pc.UMark? && Local(FileOf(d, k, th.f), th)
    ensures StepOk(d, k, th, Step(d, th).0, k, Step(d, th).1)
  {
    StateWf(d, k, th.f, d.inodes[th.f].(state := DELETED));
  }

  /** Every step of a thread keeps the volume well formed, changes its own file only, never
      follows a pointer out of the mapping table, and reaches its next point as described. */
  lemma StepKeepsLocal(d: Disk, k: Book, th: Thread) returns (k': Book)
    requires Wf(d, k) && th.f < |k.ch| && Local(FileOf(d, k, th.f), th)
    ensures StepOk(d, k, th, Step(d, th).0, k', Step(d, th).1)
  {
    k' := k;
    match th.pc
    case Start => k' := EnterOk(d, k, th);
    case WFirst => k' := FirstOk(d, k, th);
    case WWalk(_, _) => WalkOk(d, k, th);
    case TWalk(_, _) => CountOk(d, k, th);
    case WScan(_, _) => k' := WScanOk(d, k, th);
    case TScan(_, _) => k' := TScanOk(d, k, th);
    case TSeek(_, left) => if left > 0 { ShrinkSeekOk(d, k, th); } else { k' := ShrinkOk(d, k, th); }
    case Undo(_, left) => if left > 0 { UndoSeekOk(d, k, th); } else { k' := RollbackOk(d, k, th); }
    case Seek(_, _) => WriteSeekOk(d, k, th);
    case Copy(_, _, _, _) => CopyOk(d, k, th);
    case UMark => MarkOk(d, k, th);
    case Finished(_) => StayOnly(d, k, th.f);
  }

  // ---------------------------------------------------------------- progress

  /** How far a thread is from its end: the phase, and the hops or bytes left in it. */
  function Phase(pc: Pc): nat {
    match pc
    case Start => 6
    case WFirst => 5
    case WWalk(_, _) => 4
    case TWalk(_, _) => 4
    case WScan(_, _) => 3
    case TScan(_, _) => 3
    case Seek(_, _) => 2
    case Copy(_, _, _, _) => 1
    case TSeek(_, _) => 1
    case Undo(_, _) => 1
    case UMark => 1
    case Finished(_) => 0
    case Fault => 0
  }

  function Remaining(pc: Pc, len: nat): int {
    match pc
    case WWalk(_, movs) => len - movs
    case TWalk(_, current) => len - current
    case Seek(_, left) => left
    case Copy(_, _, left, _) => left
    case TSeek(_, left) => left
    case Undo(_, left) => left
    case _ => 0
  }

  ghost predicate Closer(d: Disk, th: Thread, len: nat)
    requires |d.used| == |d.next| && th.f < |d.inodes|
  {
    var pc := Step(d, th).1;
    Phase(pc) < Phase(th.pc) || (Phase(pc) == Phase(th.pc) && 0 <= Remaining(pc, len) < Remaining(th.pc, len))
  }

  lemma WalkProgresses(d: Disk, k: Book, th: Thread)
    requires Wf(d, k) && th.f < |k.ch| && Local(FileOf(d, k, th.f), th) && (th.pc.WWalk? || th.pc.TWalk?)
    ensures Closer(d, th, |k.ch[th.f]|)
  {
    ChainCell(d, k, th.f, if th.pc.WWalk? then th.pc.movs + 1 else th.pc.current);
  }

  lemma CopyProgresses(d: Disk, th: Thread, len: nat)
    requires |d.used| == |d.next| && th.f < |d.inodes| && th.pc.Copy?
    ensures Closer(d, th, len)
  {
  }

  lemma ScanProgresses(d: Disk, k: Book, th: Thread)
    requires Wf(d, k) && th.f < |k.ch| && Local(FileOf(d, k, th.f), th) && (th.pc.WScan? || th.pc.TScan?)
    ensures Closer(d, th, |k.ch[th.f]|)
  {
    ChainCell(d, k, th.f, |k.ch[th.f]|);
  }

  lemma EntryProgresses(d: Disk, k: Book, th: Thread)
    requires Wf(d, k) && th.f < |k.ch| && (th.pc.Start? || th.pc.WFirst? || th.pc.UMark?)
    ensures Closer(d, th, |k.ch[th.f]|)
  {
  }

  lemma HopProgresses(d: Disk, k: Book, th: Thread)
    requires Wf(d, k) && th.f < |k.ch| && (th.pc.TSeek? || th.pc.Undo? || th.pc.Seek?)
    ensures Closer(d, th, |k.ch[th.f]|)
  {
  }

  /** No walk goes round in circles: every step enters a later phase, or has less left to do in
      the same one, so each operation ends after finitely many steps of its own thread. */
  lemma StepProgresses(d: Disk, k: Book, th: Thread)
    requires Wf(d, k) && th.f < |k.ch| && Local(FileOf(d, k, th.f), th) && !th.pc.Finished?
    ensures Closer(d, th, |k.ch[th.f]|)
  {
    if th.pc.WWalk? || th.pc.TWalk? {
      WalkProgresses(d, k, th);
    } else if th.pc.Copy? {
      CopyProgresses(d, th, |k.ch[th.f]|);
    } else if th.pc.WScan? || th.pc.TScan? {
      ScanProgresses(d, k, th);
    } else if th.pc.Start? || th.pc.WFirst? || th.pc.UMark? {
      EntryProgresses(d, k, th);
    } else {
      HopProgresses(d, k, th);
    }
  }

  // ---------------------------------------------------------------- reading a file off the disk alone

  function ChainFrom(d: Disk, c: Cell, fuel: nat): seq<nat>
    requires |d.used| == |d.next|
    decreases fuel
  {
    if fuel == 0 || !CellOk(d, c) || Get(d, c) >= |d.next| then []
    else [Get(d, c)] + ChainFrom(d, Link(Get(d, c)), fuel - 1)
  }

  lemma {:induction false} ChainFromIs(d: Disk, k: Book, f: nat, i: nat, fuel: nat)
    requires Wf(d, k) && f < |k.ch| && d.inodes[f].state.REGULAR? && i <= |k.ch[f]| <= i + fuel
    ensures ChainFrom(d, CellAt(f, k.ch[f], i), fuel) == k.ch[f][i..]
    decreases fuel
  {
    ChainCell(d, k, f, i);
    if i < |k.ch[f]| {
      ChainFromIs(d, k, f, i + 1, fuel - 1);
      assert k.ch[f][i..] == [k.ch[f][i]] + k.ch[f][i + 1..];
    }
  }

  /** A file as the mapping table alone shows it. */
  function ViewOf(d: Disk, f: nat): FileView
    requires f < |d.inodes| && |d.used| == |d.next| == |d.data|
  {
    var chain := if d.inodes[f].state.REGULAR? then ChainFrom(d, Head(f), |d.next|) else [];
    FileView(d.inodes[f], chain, seq(|chain|, i requires 0 <= i < |chain| => BlockAt(d, chain[i])))
  }

  function BlockAt(d: Disk, b: nat): Block {
    if b < |d.data| then d.data[b] else Zeros(BLOCK_SIZE)
  }

  lemma ViewIsFile(d: Disk, k: Book, f: nat)
    requires Wf(d, k) && f < |k.ch|
    ensures ViewOf(d, f) == FileOf(d, k, f)
  {
    ViewChain(d, k, f);
    var v, w := ViewOf(d, f), FileOf(d, k, f);
    assert Linked(d, k, f);
    forall i | 0 <= i < |v.chain| ensures v.blocks[i] == w.blocks[i] {
      assert v.blocks[i] == BlockAt(d, k.ch[f][i]);
    }
    assert v.blocks == w.blocks;
  }

  lemma ViewChain(d: Disk, k: Book, f: nat)
    requires Wf(d, k) && f < |k.ch|
    ensures ViewOf(d, f).chain == k.ch[f]
  {
    assert Linked(d, k, f);
    if d.inodes[f].state.REGULAR? {
      PathFrom(d, k, f, 0);
      assert k.ch[f][0..] == k.ch[f];
      PathLength(d, Head(f), k.ch[f]);
      ChainFromIs(d, k, f, 0, |d.next|);
    }
  }

  // ---------------------------------------------------------------- how many steps are left

  /** More than the hops and bytes of any one phase of the operation. */
  function PhaseBound(th: Thread, blocks: nat): (m: nat)
    ensures m > blocks + Blocks(th.size0)
  {
    var own := match th.op
      case Writing(offset, buf) => offset / BLOCK_SIZE + |buf|
      case Truncating(size) => Blocks(size)
      case Unlinking => 0;
    1 + blocks + Blocks(th.size0) + own
  }

  function Left(d: Disk, th: Thread): int
    requires th.f < |d.inodes| && |d.used| == |d.next| == |d.data|
  {
    Remaining(th.pc, |ViewOf(d, th.f).chain|)
  }

  /** Steps the thread may still take, counted from above. */
  function Budget(d: Disk, th: Thread): int
    requires th.f < |d.inodes| && |d.used| == |d.next| == |d.data|
  {
    Phase(th.pc) * PhaseBound(th, |d.used|) + Left(d, th)
  }

  lemma LeftBounded(d: Disk, k: Book, th: Thread)
    requires Wf(d, k) && th.f < |k.ch| && Local(FileOf(d, k, th.f), th)
    ensures 0 <= Left(d, th) < PhaseBound(th, |d.used|)
  {
    ViewIsFile(d, k, th.f);
    ChainFits(d, k, th.f);
  }

  lemma ChainFits(d: Disk, k: Book, f: nat)
    requires Wf(d, k) && f < |k.ch|
    ensures |k.ch[f]| <= |d.used|
  {
    assert Linked(d, k, f);
    if d.inodes[f].state.REGULAR? {
      PathFrom(d, k, f, 0);
      assert k.ch[f][0..] == k.ch[f];
      PathLength(d, Head(f), k.ch[f]);
    }
  }

  lemma PhasesMultiply(a: nat, b: nat, m: nat, x: int)
    requires a < b && x < m
    ensures a * m + x < b * m
  {
    assert (a + 1) * m <= b * m;
  }

  /** A step that stays in its phase leaves less to do in it; the walks, whose length is that of
      the chain, leave the disk alone. */
  lemma LeftDrops(d: Disk, k: Book, th: Thread)
    requires Wf(d, k) && th.f < |k.ch| && Local(FileOf(d, k, th.f), th) && !th.pc.Finished?
    requires Phase(Step(d, th).1) == Phase(th.pc)
    requires var e := Step(d, th).0; th.f < |e.inodes| && |e.used| == |e.next| == |e.data|
    ensures Left(Step(d, th).0, th.(pc := Step(d, th).1)) < Left(d, th)
  {
    ViewIsFile(d, k, th.f);
    StepProgresses(d, k, th);
  }

  lemma PhaseDrops(d: Disk, k: Book, th: Thread)
    requires Wf(d, k) && th.f < |k.ch| && Local(FileOf(d, k, th.f), th) && !th.pc.Finished?
    ensures Phase(Step(d, th).1) <= Phase(th.pc)
  {
    StepProgresses(d, k, th);
  }

  lemma BudgetDrops(d: Disk, k: Book, th: Thread)
    requires Wf(d, k) && th.f < |k.ch| && Local(FileOf(d, k, th.f), th) && !th.pc.Finished?
    ensures var (e, pc) := Step(d, th);
            && th.f < |e.inodes| && |e.used| == |e.next| == |e.data| && |e.used| == |d.used|
            && Budget(e, th.(pc := pc)) < Budget(d, th)
  {
    var e, pc := Step(d, th).0, Step(d, th).1;
    var k' := StepKeepsLocal(d, k, th);
    PhaseDrops(d, k, th);
    LeftBounded(d, k, th);
    LeftBounded(e, k', th.(pc := pc));
    if Phase(pc) < Phase(th.pc) {
      PhasesMultiply(Phase(pc), Phase(th.pc), PhaseBound(th, |d.used|), Left(e, th.(pc := pc)));
    } else {
      LeftDrops(d, k, th);
    }
  }

  // ---------------------------------------------------------------- when there is no space

  lemma FirstFreeNone(u: seq<bool>)
    ensures FirstFree(u, 0) == |u| <==> FreeIn(u, 0, |u|) == 0
  {
    var p := FirstFree(u, 0);
    if p == |u| {
      AllTaken(u, 0);
    } else {
      FreeInTake(u, p, 0, |u|);
    }
  }

  lemma {:induction false} AllTaken(u: seq<bool>, j: nat)
    requires j <= |u| && FirstFree(u, j) == |u|
    ensures FreeIn(u, j, |u|) == 0
    decreases |u| - j
  {
    if j < |u| {
      AllTaken(u, j + 1);
    }
  }

  /** A step turns to ENOSPC exactly when its section finds too little: no free bit at all for a
      first block, or fewer free bits before the last one than the new size still needs. */
  lemma EnospcIff(d: Disk, k: Book, th: Thread)
    requires Wf(d, k) && th.f < |k.ch| && Local(FileOf(d, k, th.f), th) && !th.pc.Undo? && !th.pc.Finished?
    ensures var pc := Step(d, th).1;
            pc.Undo? || pc == Finished(ENOSPC)
            <==> (th.pc.WFirst? && FreeIn(d.used, 0, |d.used|) == 0)
                 || ((th.pc.WScan? || th.pc.TScan?)
                     && Blocks(d.inodes[th.f].size) - |k.ch[th.f]| > FreeIn(d.used, 0, |d.used| - 1))
  {
    if th.pc.WFirst? {
      FirstFreeNone(d.used);
    } else if th.pc.WScan? || th.pc.TScan? {
      ScanEnds(d, k, th);
    }
  }

  lemma ScanEnds(d: Disk, k: Book, th: Thread)
    requires Wf(d, k) && th.f < |k.ch| && Local(FileOf(d, k, th.f), th) && (th.pc.WScan? || th.pc.TScan?)
    ensures Step(d, th).1.Undo?
            <==> Blocks(d.inodes[th.f].size) - |k.ch[th.f]| > FreeIn(d.used, 0, |d.used| - 1)
    ensures !(Step(d, th).1 == Finished(ENOSPC))
  {
    ChainCell(d, k, th.f, |k.ch[th.f]|);
    if th.pc.WScan? {
      WantedBlocks(th.pc.need);
      GrowStop(d, th.pc.tail, th.pc.need, BLOCK_SIZE, 0);
    } else {
      WantedOnes(th.pc.n);
      GrowStop(d, th.pc.tail, th.pc.n, 1, 0);
    }
  }
}
