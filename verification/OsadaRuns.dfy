/** All client threads of the server together: lookups, operations, creations and removals in any
    order, and what holds of the volume over every such run. */
module OsadaRuns {
  import opened OsadaDisk
  import opened OsadaChains
  import opened OsadaContent
  import opened OsadaThreads

  datatype Name = Name(fname: string, parent: nat)

  /** What a thread means to do to the file of that name. */
  datatype Intent = Intent(name: Name, op: Op, now: int)

  /** `looking` are the threads between the search that found no directory of their name and the
      one that locks the file; `names` are the names in the file table. */
  datatype State = State(disk: Disk, names: seq<Name>, looking: map<nat, Intent>, threads: map<nat, Thread>)

  /** What can happen next.  `Look`: a search for a directory has ended without one.  `Begin`: the
      second search locks slot `f`, of whatever kind, and the operation starts.  `GiveUp`: it finds
      nothing.  `Run`: a step of a running thread.  The others are mknod, mkdir and rmdir. */
  datatype Event =
    | Look(t: nat, what: Intent)
    | Begin(t: nat, f: nat)
    | GiveUp(t: nat)
    | Run(t: nat)
    | Create(f: nat, name: Name, now: int)
    | Mkdir(f: nat, name: Name, now: int)
    | Rmdir(f: nat)

  predicate Locked(s: State, f: nat) {
    exists t :: t in s.threads && s.threads[t].f == f
  }

  predicate Shaped(d: Disk) {
    |d.used| == |d.next| == |d.data|
  }

  predicate Enabled(s: State, e: Event) {
    && Shaped(s.disk) && |s.names| == |s.disk.inodes|
    && match e
       case Look(t, what) => t !in s.threads && t !in s.looking && (what.op.Writing? ==> what.op.buf != [])
       case Begin(t, f) =>
         && t in s.looking && t !in s.threads && f < |s.names| && !Locked(s, f)
         && !s.disk.inodes[f].state.DELETED? && s.names[f] == s.looking[t].name
       case GiveUp(t) => t in s.looking
       case Run(t) => t in s.threads && s.threads[t].f < |s.names|
       case Create(f, _, _) => f < |s.names| && s.disk.inodes[f].state.DELETED? && !Locked(s, f)
       case Mkdir(f, _, _) => f < |s.names| && s.disk.inodes[f].state.DELETED? && !Locked(s, f)
       case Rmdir(f) => f < |s.names| && s.disk.inodes[f].state.DIRECTORY? && !Locked(s, f)
  }

  function SetInode(s: State, f: nat, node: Inode): State
    requires f < |s.disk.inodes|
  {
    s.(disk := s.disk.(inodes := s.disk.inodes[f := node]))
  }

  /** Thread `t` has made a step. */
  function Moved(s: State, t: nat, d: Disk, pc: Pc): State
    requires t in s.threads
  {
    s.(disk := d, threads := s.threads[t := s.threads[t].(pc := pc)])
  }

  function Apply(s: State, e: Event): State
    requires Enabled(s, e)
  {
    match e
    case Look(t, what) => s.(looking := s.looking[t := what])
    case Begin(t, f) =>
      var x := s.looking[t];
      var th := Thread(f, x.op, x.now, s.disk.inodes[f].size, Start, ViewOf(s.disk, f));
      s.(looking := s.looking - {t}, threads := s.threads[t := th])
    case GiveUp(t) => s.(looking := s.looking - {t})
    case Run(t) =>
      var th := s.threads[t];
      if th.pc.Finished? then s.(threads := s.threads - {t})
      else Moved(s, t, Step(s.disk, th).0, Step(s.disk, th).1)
    case Create(f, name, now) => SetInode(s, f, Inode(REGULAR, 0, now, END_OF_FILE)).(names := s.names[f := name])
    case Mkdir(f, name, now) => SetInode(s, f, Inode(DIRECTORY, 0, now, 0)).(names := s.names[f := name])
    case Rmdir(f) => SetInode(s, f, s.disk.inodes[f].(state := DELETED))
  }

  function Next(s: State, e: Event): State {
    if Enabled(s, e) then Apply(s, e) else s
  }

  /** A run: the events in order; one that is not enabled does not happen. */
  function Exec(s: State, es: seq<Event>): State
    decreases |es|
  {
    if es == [] then s else Exec(Next(s, es[0]), es[1..])
  }

  /** The event does not start an operation on a directory. */
  predicate OnFile(s: State, e: Event) {
    e.Begin? && Enabled(s, e) ==> s.disk.inodes[e.f].state.REGULAR?
  }

  /** No write, truncate or unlink of the run starts on a directory. */
  predicate FilesOnly(s: State, es: seq<Event>)
    decreases |es|
  {
    es == [] || (OnFile(s, es[0]) && FilesOnly(Next(s, es[0]), es[1..]))
  }

  /** The server started on an image, with no client yet. */
  function Boot(d: Disk, names: seq<Name>): State {
    State(d, names, map[], map[])
  }

  // ---------------------------------------------------------------- the invariant

  /** Every thread is where its own file allows it to be. */
  ghost predicate PointsOk(d: Disk, k: Book, threads: map<nat, Thread>)
    requires Wf(d, k)
  {
    forall t :: t in threads ==> threads[t].f < |k.ch| && Local(FileOf(d, k, threads[t].f), threads[t])
  }

  ghost predicate OwnFiles(threads: map<nat, Thread>) {
    forall t, u :: t in threads && u in threads && t != u ==> threads[t].f != threads[u].f
  }

  /** Files nobody holds have the chains their sizes ask for. */
  ghost predicate SizesOk(s: State, k: Book)
    requires Wf(s.disk, k)
  {
    forall f :: 0 <= f < |k.ch| && !Locked(s, f) ==> SizedAt(s.disk, k, f)
  }

  ghost predicate IntentsOk(looking: map<nat, Intent>) {
    forall t :: t in looking && looking[t].op.Writing? ==> looking[t].op.buf != []
  }

  ghost predicate Inv(s: State, k: Book) {
    && Wf(s.disk, k) && PointsOk(s.disk, k, s.threads) && OwnFiles(s.threads)
    && SizesOk(s, k) && IntentsOk(s.looking)
  }

  lemma FittedIsSized(d: Disk, k: Book, f: nat)
    requires Wf(d, k) && f < |k.ch| && d.inodes[f].state.REGULAR? && SizedAt(d, k, f)
    ensures Fitted(FileOf(d, k, f))
  {
    ChainCell(d, k, f, 0);
  }

  /** A file nobody holds now was held before by nobody, or by a thread `t` that let go. */
  lemma UnlockedBefore(s: State, s': State, t: nat, f: nat)
    requires forall u :: u in s.threads && u != t ==> u in s'.threads && s'.threads[u].f == s.threads[u].f
    requires !Locked(s', f)
    ensures !Locked(s, f) || (t in s.threads && s.threads[t].f == f)
  {
  }

  lemma BeginKeeps(s: State, k: Book, e: Event)
    requires Inv(s, k) && e.Begin? && Enabled(s, e) && OnFile(s, e)
    ensures Inv(Apply(s, e), k)
  {
    ViewIsFile(s.disk, k, e.f);
    FittedIsSized(s.disk, k, e.f);
    var s' := Apply(s, e);
    forall f | 0 <= f < |k.ch| && !Locked(s', f) ensures SizedAt(s'.disk, k, f) {
      UnlockedBefore(s, s', e.t, f);
    }
  }

  /** Looking for a file changes nothing. */
  lemma LookKeeps(s: State, k: Book, e: Event)
    requires Inv(s, k) && (e.Look? || e.GiveUp?) && Enabled(s, e)
    ensures Inv(Apply(s, e), k)
  {
    var s' := Apply(s, e);
    forall f | 0 <= f < |k.ch| && !Locked(s', f) ensures SizedAt(s'.disk, k, f) {
      assert !Locked(s, f);
    }
  }

  lemma UnlockSizes(s: State, s': State, k: Book, t: nat)
    requires Wf(s.disk, k) && SizesOk(s, k) && t in s.threads && s'.disk == s.disk && s'.threads == s.threads - {t}
    requires s.threads[t].f < |k.ch| ==> SizedAt(s.disk, k, s.threads[t].f)
    ensures SizesOk(s', k)
  {
    forall f | 0 <= f < |k.ch| && !Locked(s', f) ensures SizedAt(s'.disk, k, f) {
      UnlockedBefore(s, s', t, f);
    }
  }

  lemma FinishedIsSized(d: Disk, k: Book, th: Thread)
    requires Wf(d, k) && th.f < |k.ch| && Local(FileOf(d, k, th.f), th) && th.pc.Finished?
    ensures SizedAt(d, k, th.f)
  {
  }

  lemma UnlockKeeps(s: State, k: Book, t: nat)
    requires Inv(s, k) && Enabled(s, Run(t)) && s.threads[t].pc.Finished?
    ensures Inv(Apply(s, Run(t)), k)
  {
    FinishedIsSized(s.disk, k, s.threads[t]);
    UnlockSizes(s, Apply(s, Run(t)), k, t);
  }

  /** What a thread's step leaves of the others: their files, and so their points. */
  lemma OthersStay(d: Disk, k: Book, f: nat, e: Disk, k': Book, th: Thread)
    requires Wf(d, k) && f < |k.ch| && OnlyFile(d, k, f, e, k') && th.f < |k.ch| && th.f != f
    requires Local(FileOf(d, k, th.f), th)
    ensures Local(FileOf(e, k', th.f), th)
  {
    assert FileOf(e, k', th.f) == FileOf(d, k, th.f);
  }

  lemma SizesStay(d: Disk, k: Book, f: nat, e: Disk, k': Book, g: nat)
    requires Wf(d, k) && f < |k.ch| && OnlyFile(d, k, f, e, k') && g < |k.ch| && g != f && SizedAt(d, k, g)
    ensures SizedAt(e, k', g)
  {
    assert FileOf(e, k', g) == FileOf(d, k, g);
  }

  /** The threads' points after a step of `t`. */
  lemma StepPoints(d: Disk, k: Book, threads: map<nat, Thread>, t: nat, e: Disk, k': Book, pc: Pc)
    requires Wf(d, k) && PointsOk(d, k, threads) && OwnFiles(threads) && t in threads
    requires threads[t].f < |k.ch| && StepOk(d, k, threads[t], e, k', pc)
    ensures Wf(e, k') && PointsOk(e, k', threads[t := threads[t].(pc := pc)])
  {
    forall u | u in threads && u != t
      ensures threads[u].f < |k'.ch| && Local(FileOf(e, k', threads[u].f), threads[u])
    {
      OthersStay(d, k, threads[t].f, e, k', threads[u]);
    }
  }

  lemma StepSizes(s: State, k: Book, t: nat, s': State, k': Book)
    requires Wf(s.disk, k) && SizesOk(s, k) && t in s.threads && t in s'.threads
    requires s.threads[t].f < |k.ch| && OnlyFile(s.disk, k, s.threads[t].f, s'.disk, k')
    requires forall u :: u in s.threads ==> u in s'.threads && s'.threads[u].f == s.threads[u].f
    ensures SizesOk(s', k')
  {
    forall f | 0 <= f < |k'.ch| && !Locked(s', f) ensures SizedAt(s'.disk, k', f) {
      assert !Locked(s, f) && s'.threads[t].f == s.threads[t].f;
      SizesStay(s.disk, k, s.threads[t].f, s'.disk, k', f);
    }
  }

  lemma MovedKeeps(s: State, k: Book, t: nat, e: Disk, k': Book, pc: Pc)
    requires Inv(s, k) && t in s.threads && s.threads[t].f < |k.ch| && StepOk(s.disk, k, s.threads[t], e, k', pc)
    ensures Inv(Moved(s, t, e, pc), k')
  {
    StepPoints(s.disk, k, s.threads, t, e, k', pc);
    StepSizes(s, k, t, Moved(s, t, e, pc), k');
  }

  lemma RunKeeps(s: State, k: Book, t: nat) returns (k': Book)
    requires Inv(s, k) && Enabled(s, Run(t)) && !s.threads[t].pc.Finished?
    ensures Inv(Apply(s, Run(t)), k') && OnlyFile(s.disk, k, s.threads[t].f, Apply(s, Run(t)).disk, k')
  {
    var th := s.threads[t];
    k' := StepKeepsLocal(s.disk, k, th);
    MovedKeeps(s, k, t, Step(s.disk, th).0, k', Step(s.disk, th).1);
  }

  /** Creating or removing an entry of the file table nobody holds and that owns no blocks. */
  lemma NodeKeeps(s: State, k: Book, f: nat, node: Inode, names: seq<Name>)
    requires Inv(s, k) && f < |k.ch| && !s.disk.inodes[f].state.REGULAR? && !Locked(s, f)
    requires node.state.REGULAR? ==> node.first == END_OF_FILE && node.size == 0
    ensures Inv(SetInode(s, f, node).(names := names), k)
    ensures OnlyFile(s.disk, k, f, SetInode(s, f, node).disk, k)
  {
    assert Linked(s.disk, k, f);
    StateWf(s.disk, k, f, node);
    var s' := SetInode(s, f, node).(names := names);
    forall t | t in s'.threads ensures Local(FileOf(s'.disk, k, s'.threads[t].f), s'.threads[t]) {
      OthersStay(s.disk, k, f, s'.disk, k, s.threads[t]);
    }
    forall g | 0 <= g < |k.ch| && !Locked(s', g) ensures SizedAt(s'.disk, k, g) {
      if g != f {
        assert !Locked(s, g);
        SizesStay(s.disk, k, f, s'.disk, k, g);
      }
    }
  }

  lemma EntryKeeps(s: State, k: Book, e: Event)
    requires Inv(s, k) && (e.Create? || e.Mkdir? || e.Rmdir?) && Enabled(s, e)
    ensures Inv(Apply(s, e), k) && OnlyFile(s.disk, k, e.f, Apply(s, e).disk, k)
  {
    match e
    case Create(f, name, now) => NodeKeeps(s, k, f, Inode(REGULAR, 0, now, END_OF_FILE), s.names[f := name]);
    case Mkdir(f, name, now) => NodeKeeps(s, k, f, Inode(DIRECTORY, 0, now, 0), s.names[f := name]);
    case Rmdir(f) => NodeKeeps(s, k, f, s.disk.inodes[f].(state := DELETED), s.names);
  }

  /** Everything but entry `f` of the file table is as it was. */
  ghost predicate EntryOnly(s: State, s': State, f: nat) {
    && f < |s.disk.inodes| == |s'.disk.inodes| == |s.names| == |s'.names|
    && s'.looking == s.looking && s'.threads == s.threads
    && s'.disk.next == s.disk.next && s'.disk.used == s.disk.used && s'.disk.data == s.disk.data
    && forall g :: 0 <= g < |s.names| && g != f ==> s'.disk.inodes[g] == s.disk.inodes[g] && s'.names[g] == s.names[g]
  }

  /** After a mknod there is an empty regular file of that name, after a mkdir a directory, after an
      rmdir none any more; no other entry has changed. */
  lemma EntriesChange(s: State, k: Book, e: Event)
    requires Wf(s.disk, k) && Enabled(s, e) && (e.Create? || e.Mkdir? || e.Rmdir?)
    ensures EntryOnly(s, Apply(s, e), e.f)
    ensures var node, v := Apply(s, e).disk.inodes[e.f], ViewOf(Apply(s, e).disk, e.f);
            && (e.Create? ==> v.node.state == REGULAR && v.node.size == 0 && v.chain == [] && node.lastmod == e.now)
            && (e.Mkdir? ==> node.state == DIRECTORY && node.size == 0 && node.lastmod == e.now)
            && (e.Rmdir? ==> node.state == DELETED && s.disk.inodes[e.f].state == DIRECTORY)
            && Apply(s, e).names[e.f] == if e.Rmdir? then s.names[e.f] else e.name
  {
  }

  /** A thread that has found its file does to it what it meant to, from the file as it found it. */
  lemma BeginsAsMeant(s: State, t: nat, f: nat)
    requires Enabled(s, Begin(t, f))
    ensures var s' := Apply(s, Begin(t, f));
            && s'.disk == s.disk && s'.names == s.names && t !in s'.looking && t in s'.threads
            && var x, th := s.looking[t], s'.threads[t];
            && th.f == f && s.names[f] == x.name && th.op == x.op && th.now == x.now && th.pc == Start
            && th.size0 == s.disk.inodes[f].size && th.start == ViewOf(s.disk, f)
    ensures var s' := Apply(s, Begin(t, f));
            && (forall u :: u != t ==> (u in s'.threads <==> u in s.threads) && (u in s'.looking <==> u in s.looking))
            && (forall u :: u != t && u in s.threads ==> s'.threads[u] == s.threads[u])
            && forall u :: u != t && u in s.looking ==> s'.looking[u] == s.looking[u]
  {
  }

  lemma EventKeeps(s: State, k: Book, e: Event) returns (k': Book)
    requires Inv(s, k) && Enabled(s, e) && OnFile(s, e)
    ensures Inv(Apply(s, e), k') && ReservedSet(k') == ReservedSet(k)
    ensures |Apply(s, e).disk.used| == |s.disk.used|
  {
    k' := k;
    if e.Begin? {
      BeginKeeps(s, k, e);
    } else if e.Look? || e.GiveUp? {
      LookKeeps(s, k, e);
    } else if !e.Run? {
      EntryKeeps(s, k, e);
    } else if s.threads[e.t].pc.Finished? {
      UnlockKeeps(s, k, e.t);
    } else {
      k' := RunKeeps(s, k, e.t);
    }
  }

  lemma NextKeeps(s: State, k: Book, e: Event) returns (k': Book)
    requires Inv(s, k) && OnFile(s, e)
    ensures Inv(Next(s, e), k') && ReservedSet(k') == ReservedSet(k)
    ensures |Next(s, e).disk.used| == |s.disk.used|
  {
    k' := k;
    if Enabled(s, e) {
      k' := EventKeeps(s, k, e);
    }
  }

  // ---------------------------------------------------------------- over every run

  /** Safety under every interleaving, from any consistent image, in which no write, truncate or
      unlink starts on a directory: the chains stay in range, terminated, acyclic and disjoint,
      the bitmap exact, and no thread leaves the tables. */
  lemma {:induction false} EveryInterleaving(s: State, k: Book, es: seq<Event>) returns (k': Book)
    requires Inv(s, k) && FilesOnly(s, es)
    ensures Inv(Exec(s, es), k') && ReservedSet(k') == ReservedSet(k) && |Exec(s, es).disk.used| == |s.disk.used|
    ensures forall t :: t in Exec(s, es).threads ==> !Exec(s, es).threads[t].pc.Fault?
    decreases |es|
  {
    k' := k;
    if es != [] {
      k' := NextKeeps(s, k, es[0]);
      k' := EveryInterleaving(Next(s, es[0]), k', es[1..]);
    }
  }

  lemma BootInv(d: Disk, k: Book, names: seq<Name>)
    requires Wf(d, k) && Sized(d, k)
    ensures Inv(Boot(d, names), k)
  {
    forall f | 0 <= f < |k.ch| ensures SizedAt(d, k, f) {
    }
  }

  /** Whenever no operation is under way every size agrees with its chain again, so blocks are
      conserved between quiet moments whatever ran in between. */
  lemma QuietConservation(d: Disk, k: Book, names: seq<Name>, es: seq<Event>)
    requires Wf(d, k) && Sized(d, k) && FilesOnly(Boot(d, names), es)
    requires Exec(Boot(d, names), es).threads == map[]
    ensures var e := Exec(Boot(d, names), es).disk;
            FreeIn(e.used, 0, |e.used|) + SumBlocks(e, |e.inodes|)
            == FreeIn(d.used, 0, |d.used|) + SumBlocks(d, |d.inodes|)
  {
    var s' := Exec(Boot(d, names), es);
    BootInv(d, k, names);
    var k' := EveryInterleaving(Boot(d, names), k, es);
    forall f | 0 <= f < |k'.ch| ensures SizedAt(s'.disk, k', f) {
      assert !Locked(s', f);
    }
    Conservation(d, k);
    Conservation(s'.disk, k');
  }

  /** A step of one thread leaves every other file exactly as it was. */
  lemma Isolation(s: State, k: Book, t: nat, g: nat)
    requires Inv(s, k) && Enabled(s, Run(t)) && g < |s.disk.inodes| && g != s.threads[t].f
    ensures Shaped(Apply(s, Run(t)).disk) && |Apply(s, Run(t)).disk.inodes| == |s.disk.inodes|
    ensures ViewOf(Apply(s, Run(t)).disk, g) == ViewOf(s.disk, g)
  {
    if !s.threads[t].pc.Finished? {
      var k' := RunKeeps(s, k, t);
      ViewIsFile(s.disk, k, g);
      ViewIsFile(Apply(s, Run(t)).disk, k', g);
      assert FileOf(Apply(s, Run(t)).disk, k', g) == FileOf(s.disk, k, g);
    }
  }

  lemma FinishedPoint(d: Disk, k: Book, th: Thread)
    requires Wf(d, k) && th.f < |k.ch| && Local(FileOf(d, k, th.f), th) && th.pc.Finished?
    ensures Done(th, ViewOf(d, th.f), th.pc.r)
  {
    ViewIsFile(d, k, th.f);
  }

  /** Whatever the other threads did meanwhile, a finished operation has had, on its file as it
      was when the lock was taken, the effect of the operation run alone. */
  lemma FinishedAsIfAlone(d: Disk, k: Book, names: seq<Name>, es: seq<Event>, t: nat)
    requires Wf(d, k) && Sized(d, k) && FilesOnly(Boot(d, names), es)
    requires var s := Exec(Boot(d, names), es); t in s.threads && s.threads[t].pc.Finished?
    ensures var s := Exec(Boot(d, names), es); var th := s.threads[t];
            && Shaped(s.disk) && th.f < |s.disk.inodes|
            && Done(th, ViewOf(s.disk, th.f), th.pc.r)
            && s.disk.inodes[th.f].lastmod == if th.op.Writing? then th.now else th.start.node.lastmod
  {
    BootInv(d, k, names);
    var k' := EveryInterleaving(Boot(d, names), k, es);
    var s := Exec(Boot(d, names), es);
    FinishedPoint(s.disk, k', s.threads[t]);
  }

  // ---------------------------------------------------------------- every operation ends

  /** How often thread `t` has its turn in a run. */
  function Turns(es: seq<Event>, t: nat): nat {
    if es == [] then 0 else (if es[0] == Run(t) then 1 else 0) + Turns(es[1..], t)
  }

  /** An event leaves a file, and the size of the volume, alone. */
  ghost predicate Leaves(s: State, s': State, f: nat) {
    && Shaped(s.disk) && Shaped(s'.disk) && |s'.disk.inodes| == |s.disk.inodes| && f < |s.disk.inodes|
    && |s'.disk.used| == |s.disk.used| && ViewOf(s'.disk, f) == ViewOf(s.disk, f)
  }

  lemma EntryLeaves(s: State, k: Book, e: Event, f: nat)
    requires Inv(s, k) && Enabled(s, e) && (e.Create? || e.Mkdir? || e.Rmdir?) && f < |k.ch| && f != e.f
    ensures Leaves(s, Apply(s, e), f)
  {
    EntryKeeps(s, k, e);
    ViewIsFile(s.disk, k, f);
    ViewIsFile(Apply(s, e).disk, k, f);
    assert FileOf(Apply(s, e).disk, k, f) == FileOf(s.disk, k, f);
  }

  lemma RunLeaves(s: State, k: Book, t: nat, f: nat)
    requires Inv(s, k) && Enabled(s, Run(t)) && f < |k.ch| && f != s.threads[t].f
    ensures Leaves(s, Apply(s, Run(t)), f)
  {
    if !s.threads[t].pc.Finished? {
      var k' := RunKeeps(s, k, t);
      Isolation(s, k, t, f);
    }
  }

  /** Nothing another thread does changes how many steps `t` has left. */
  lemma OthersKeepBudget(s: State, k: Book, e: Event, t: nat)
    requires Inv(s, k) && Enabled(s, e) && t in s.threads && e != Run(t)
    ensures t in Apply(s, e).threads && Apply(s, e).threads[t] == s.threads[t]
    ensures Leaves(s, Apply(s, e), s.threads[t].f)
    ensures Budget(Apply(s, e).disk, s.threads[t]) == Budget(s.disk, s.threads[t])
  {
    var f := s.threads[t].f;
    if e.Run? {
      RunLeaves(s, k, e.t, f);
    } else if e.Create? || e.Mkdir? || e.Rmdir? {
      EntryLeaves(s, k, e, f);
    }
  }

  /** Each turn of the thread uses up some of it. */
  lemma TurnUsesBudget(s: State, k: Book, t: nat)
    requires Inv(s, k) && Enabled(s, Run(t)) && !s.threads[t].pc.Finished?
    ensures t in Apply(s, Run(t)).threads
    ensures var d, th := Apply(s, Run(t)).disk, Apply(s, Run(t)).threads[t];
            && Shaped(d) && th.f < |d.inodes| == |s.disk.inodes|
            && Budget(d, th) < Budget(s.disk, s.threads[t])
  {
    var k' := RunKeeps(s, k, t);
    BudgetDrops(s.disk, k, s.threads[t]);
  }

  ghost predicate Running(s: State, t: nat) {
    Shaped(s.disk) && |s.names| == |s.disk.inodes| && t in s.threads && s.threads[t].f < |s.disk.inodes|
  }

  /** One event of a run, seen from thread `t`. */
  lemma EventSeenFrom(s: State, k: Book, e: Event, t: nat)
    requires Inv(s, k) && OnFile(s, e) && Running(s, t) && !s.threads[t].pc.Finished?
    ensures var s' := Next(s, e);
            && Running(s', t)
            && Budget(s'.disk, s'.threads[t]) + (if e == Run(t) then 1 else 0) <= Budget(s.disk, s.threads[t])
  {
    if e == Run(t) {
      TurnUsesBudget(s, k, t);
    } else if Enabled(s, e) {
      OthersKeepBudget(s, k, e, t);
    }
  }

  lemma RunningIs(s: State, k: Book, t: nat)
    requires Inv(s, k) && t in s.threads && |s.names| == |s.disk.inodes|
    ensures Running(s, t)
  {
  }

  /** Once a thread has had its turn often enough it has finished, whatever the others do. */
  lemma {:induction false} FinishesInTime(s: State, k: Book, es: seq<Event>, t: nat) returns (i: nat)
    requires Inv(s, k) && FilesOnly(s, es) && Running(s, t) && Turns(es, t) >= Budget(s.disk, s.threads[t])
    ensures i <= |es| && t in Exec(s, es[..i]).threads && Exec(s, es[..i]).threads[t].pc.Finished?
    decreases |es|
  {
    if s.threads[t].pc.Finished? {
      return 0;
    }
    BudgetLeft(s, k, t);
    EventSeenFrom(s, k, es[0], t);
    var k' := NextKeeps(s, k, es[0]);
    var j := FinishesInTime(Next(s, es[0]), k', es[1..], t);
    i := j + 1;
    assert es[..i][0] == es[0] && es[..i][1..] == es[1..][..j];
  }

  lemma BudgetLeft(s: State, k: Book, t: nat)
    requires Inv(s, k) && Running(s, t) && !s.threads[t].pc.Finished?
    ensures Budget(s.disk, s.threads[t]) > 0
  {
    LeftBounded(s.disk, k, s.threads[t]);
    var th := s.threads[t];
    PhasesMultiply(0, Phase(th.pc), PhaseBound(th, |s.disk.used|), 0);
  }

  /** The same with a bound that depends on the request and the volume alone. */
  lemma EveryOperationEnds(s: State, k: Book, es: seq<Event>, t: nat) returns (i: nat)
    requires Inv(s, k) && FilesOnly(s, es) && t in s.threads && |s.names| == |s.disk.inodes|
    requires Turns(es, t) >= 7 * PhaseBound(s.threads[t], |s.disk.used|)
    ensures i <= |es| && t in Exec(s, es[..i]).threads && Exec(s, es[..i]).threads[t].pc.Finished?
  {
    var th := s.threads[t];
    RunningIs(s, k, t);
    LeftBounded(s.disk, k, th);
    PhasesMultiply(Phase(th.pc), 7, PhaseBound(th, |s.disk.used|), Left(s.disk, th));
    i := FinishesInTime(s, k, es, t);
  }
}
