/** Small runs on which the file system does not do what it is for, one for each condition proved
    elsewhere to be the exact one. */
module OsadaWitnesses {
  import opened Bytes
  import opened OsadaDisk
  import opened OsadaChains
  import opened OsadaContent
  import opened OsadaServer
  import opened OsadaThreads
  import opened OsadaRuns

  /** A volume of two data blocks and two file slots, all free. */
  function Blank(): Disk {
    var none := Inode(DELETED, 0, 0, END_OF_FILE);
    Disk([none, none], [END_OF_FILE, END_OF_FILE], [false, false], [Zeros(BLOCK_SIZE), Zeros(BLOCK_SIZE)])
  }

  lemma BlankOk()
    ensures Wf(Blank(), Book([[], []], [Free, Free])) && Sized(Blank(), Book([[], []], [Free, Free]))
  {
    var d, k := Blank(), Book([[], []], [Free, Free]);
    forall f | 0 <= f < 2 ensures Linked(d, k, f) && SizedAt(d, k, f) {
    }
    forall b | 0 <= b < 2 ensures Accounted(d, k, b) {
    }
  }

  lemma TwoFree(u: seq<bool>)
    requires u == [false, false]
    ensures FreeIn(u, 0, 2) == 2 && !Fits(u, true, 2) && Fits(u, true, 1)
  {
    assert FreeIn(u, 2, 2) == 0 && FreeIn(u, 1, 2) == 1 && FreeIn(u, 1, 1) == 0;
  }

  const ROOT_DIRECTORY: nat := 0xffff

  /** The blank volume mounted, and one empty file made on it. */
  method Prepared() returns (server: Osada, f: nat)
    ensures fresh(server) && fresh(server.files) && fresh(server.next) && fresh(server.used) && fresh(server.data)
    ensures server.Valid() && f < server.files.Length && server.files[f].state.REGULAR? && server.files[f].size == 0
    ensures server.used[..] == [false, false] && f in server.Volume()
  {
    BlankOk();
    server := new Osada.Mount(Blank(), Book([[], []], [Free, Free]));
    assert server.View() == Blank() && server.files[..][0].state == DELETED;
    var made: Reply;
    made, f := server.Mknod(ROOT_DIRECTORY, 0);
    assert f in server.Volume() && server.Volume()[f] == [];
    AbsAt(server.View(), server.book, f);
  }

  /** Two blocks are free and two are needed, but the second is the last one of the volume. */
  method LastBlockRefused() returns (r: Reply, free: nat)
    ensures r == Reply.ENOSPC && free == Blocks(BLOCK_SIZE + 1)
  {
    var server, f := Prepared();
    TwoFree(server.used[..]);
    assert Blocks(BLOCK_SIZE + 1) == 2 && Blocks(0) == 0;
    free := 2;
    r := server.Write(f, 0, Zeros(BLOCK_SIZE + 1), 0);
  }

  /** A file of one byte, read from its start. */
  method LastByteUnread() returns (written: seq<byte>, r: ReadReply, ghost content: seq<byte>)
    ensures |written| == 1 && content == written && r == Sent([])
  {
    var server, f := Prepared();
    TwoFree(server.used[..]);
    written := [7];
    var w := server.Write(f, 0, written, 0);
    content := server.Volume()[f];
    AbsAt(server.View(), server.book, f);
    r := server.Read(f, 0, 1);
  }

  // ---------------------------------------------------------------- a directory taken for a file

  /** One file of one block, block 0, and a free slot. */
  function OneFile(): Disk {
    Disk([Inode(REGULAR, BLOCK_SIZE, 0, 0), Inode(DELETED, 0, 0, END_OF_FILE)],
         [END_OF_FILE, END_OF_FILE], [true, false], [Zeros(BLOCK_SIZE), Zeros(BLOCK_SIZE)])
  }

  function OneFileBook(): Book {
    Book([[0], []], [In(0, 0), Free])
  }

  lemma OneFileOk()
    ensures Wf(OneFile(), OneFileBook()) && Sized(OneFile(), OneFileBook())
  {
    var d, k := OneFile(), OneFileBook();
    forall f | 0 <= f < 2 ensures Linked(d, k, f) && SizedAt(d, k, f) {
    }
    forall b | 0 <= b < 2 ensures Accounted(d, k, b) {
    }
  }

  const KEPT := Name("kept", ROOT_DIRECTORY)
  const DOOMED := Name("doomed", ROOT_DIRECTORY)

  /** A client unlinks a name that is not there; between its two searches another makes a
      directory of that name. */
  function MkdirMeetsUnlink(): seq<Event> {
    [Look(1, Intent(DOOMED, Unlinking, 0)), Mkdir(1, DOOMED, 0), Begin(1, 1), Run(1)]
  }

  lemma UpToBegin()
    ensures var s := Boot(OneFile(), [KEPT, KEPT]);
            && Exec(s, MkdirMeetsUnlink()[..2]).disk
               == OneFile().(inodes := OneFile().inodes[1 := Inode(DIRECTORY, 0, 0, 0)])
            && Exec(s, MkdirMeetsUnlink()) == Next(Next(Exec(s, MkdirMeetsUnlink()[..2]), Begin(1, 1)), Run(1))
            && Exec(s, MkdirMeetsUnlink()[..2]).names == [KEPT, DOOMED]
            && Exec(s, MkdirMeetsUnlink()[..2]).threads == map[]
            && Exec(s, MkdirMeetsUnlink()[..2]).looking == map[1 := Intent(DOOMED, Unlinking, 0)]
  {
    var s, es := Boot(OneFile(), [KEPT, KEPT]), MkdirMeetsUnlink();
    var s1 := Next(s, es[0]);
    var s2 := Next(s1, es[1]);
    assert !Locked(s1, 1);
    ExecTwo(s, es[..2]);
    ExecFour(s, es);
  }

  lemma ExecTwo(s: State, es: seq<Event>)
    requires |es| == 2
    ensures Exec(s, es) == Next(Next(s, es[0]), es[1])
  {
    assert es[1..][0] == es[1] && es[1..][1..] == [];
    assert Exec(Next(s, es[0]), es[1..]) == Exec(Next(Next(s, es[0]), es[1]), []);
  }

  lemma ExecFour(s: State, es: seq<Event>)
    requires |es| == 4
    ensures Exec(s, es) == Next(Next(Exec(s, es[..2]), es[2]), es[3])
  {
    var rest := es[1..][1..];
    assert rest[0] == es[2] && rest[1] == es[3] && es[1..][0] == es[1];
    ExecTwo(s, es[..2]);
    ExecTwo(Next(Next(s, es[0]), es[1]), rest);
    assert Exec(Next(s, es[0]), es[1..]) == Exec(Next(Next(s, es[0]), es[1]), rest);
  }

  /** The run starts from a sound image; afterwards the block of the other client's file is free, and
      no book fits the volume. */
  lemma MkdirMeetsUnlinkBreaks()
    ensures Wf(OneFile(), OneFileBook()) && Sized(OneFile(), OneFileBook())
    ensures Inv(Boot(OneFile(), [KEPT, KEPT]), OneFileBook())
    ensures var e := Exec(Boot(OneFile(), [KEPT, KEPT]), MkdirMeetsUnlink()).disk;
            && e.used == [false, false] && |e.inodes| == 2 && e.inodes[0] == OneFile().inodes[0]
            && forall k :: !Wf(e, k)
  {
    OneFileOk();
    BootInv(OneFile(), OneFileBook(), [KEPT, KEPT]);
    UpToBegin();
    var s2 := Exec(Boot(OneFile(), [KEPT, KEPT]), MkdirMeetsUnlink()[..2]);
    assert !Locked(s2, 1);
    var s3 := Next(s2, Begin(1, 1));
    assert s3.disk == s2.disk && s3.threads[1].pc.Start?;
    UnlinksZero();
    var e := Next(s3, Run(1)).disk;
    assert e == ReleaseAll(s2.disk, Head(1));
    forall k ensures !Wf(e, k) {
      if Wf(e, k) {
        HeadIsUsed(e, k, 0);
      }
    }
  }

  lemma HeadIsUsed(d: Disk, k: Book, f: nat)
    requires Wf(d, k) && f < |k.ch| && d.inodes[f].state.REGULAR? && d.inodes[f].first < |d.used|
    ensures d.used[d.inodes[f].first]
  {
    assert Linked(d, k, f) && Accounted(d, k, d.inodes[f].first);
  }

  lemma UnlinksZero()
    ensures var d := OneFile().(inodes := OneFile().inodes[1 := Inode(DIRECTORY, 0, 0, 0)]);
            var e := ReleaseAll(d, Head(1));
            e.used == [false, false] && |e.inodes| == 2 && e.inodes[0] == OneFile().inodes[0]
  {
    var d := OneFile().(inodes := OneFile().inodes[1 := Inode(DIRECTORY, 0, 0, 0)]);
    var d1 := DropOne(d, Head(1), 0);
    assert Get(d1, Link(0)) == END_OF_FILE;
    assert ReleaseFrom(d1, Link(0), 1) == d1;
    assert ReleaseFrom(d, Head(1), 2) == d1;
  }
}
