/** The server's operations on a mounted volume, in the form of the original: pointers walked
    through cells, bits set and cleared, blocks copied, all in place. */
module OsadaServer {
  import opened Bytes
  import opened OsadaDisk
  import opened OsadaChains
  import opened OsadaContent

  const INT_MAX: nat := 0x7fff_ffff
  const UINT32: nat := 0x1_0000_0000

  datatype Reply = NoReply | SEXE | ENOSPC | ISREG

  /** The outcome of a read: the bytes sent, or a pointer followed outside the mapping table. */
  datatype ReadReply = Sent(bytes: seq<byte>) | OutOfBounds

  /** What a read answers, by the file's bytes. */
  ghost function ReadOutcome(content: seq<byte>, offset: nat, size: nat): (r: ReadReply)
    ensures content == [] && offset < UINT32 - 1 ==> r == OutOfBounds
    ensures content == [] && offset >= UINT32 - 1 ==> r == Sent([])
    ensures content != [] && offset + 1 >= |content| ==> r == Sent([])
    ensures offset + 1 < |content| ==> r.Sent? && r.bytes <= content[offset..] && |r.bytes| <= size
    ensures offset + 1 < |content| ==> |r.bytes| == size || offset + |r.bytes| == |content|
  {
    if content == [] then (if offset < UINT32 - 1 then OutOfBounds else Sent([]))
    else if offset + 1 < |content| then
      Sent(content[offset..if offset + size > |content| then |content| else offset + size])
    else Sent([])
  }

  /** The slice a POSIX read of a file returns. */
  function PosixSlice(content: seq<byte>, offset: nat, size: nat): seq<byte> {
    if offset >= |content| then []
    else content[offset..if offset + size > |content| then |content| else offset + size]
  }

  /** A read answers with the requested slice exactly when the file is not empty and the read
      does not start at its last byte. */
  lemma ReadIsSliceIff(content: seq<byte>, offset: nat, size: nat)
    requires offset + size < UINT32 - 1
    ensures ReadOutcome(content, offset, size) == Sent(PosixSlice(content, offset, size))
            <==> content != [] && (offset + 1 != |content| || size == 0)
  {
    if content != [] && offset + 1 == |content| && size > 0 {
      assert |PosixSlice(content, offset, size)| == 1;
    }
  }

  /** Blocks a byte count needs, computed the way truncate and the rollbacks do. */
  function NecessaryBlocks(size: nat): (n: nat)
    ensures n == Blocks(size)
  {
    var n := size / BLOCK_SIZE;
    if size > 0 && (n == 0 || size % BLOCK_SIZE >= 1) then n + 1 else n
  }

  /** The read loop at block `i`: what is in the buffer, and that it ends at a block's start as long
      as more is to come. */
  ghost predicate SoFar(content: seq<byte>, from: nat, n: nat, i: nat, buff: seq<byte>, left: nat) {
    && |buff| + left == n
    && (n > 0 ==> from + n <= |content| && buff == content[from..from + |buff|])
    && (left > 0 ==> BLOCK_SIZE * i == from + |buff|)
  }

  lemma SoFarNext(d: Disk, k: Book, f: nat, from: nat, n: nat, i: nat, buff: seq<byte>, left: nat, w: nat)
    requires Wf(d, k) && f < |k.ch| && d.inodes[f].state.REGULAR? && SizedAt(d, k, f) && i < |k.ch[f]|
    requires SoFar(FileBytes(d, k, f), from, n, i, buff, left) && left > 0
    requires w == if left >= BLOCK_SIZE then BLOCK_SIZE else left
    ensures k.ch[f][i] < |d.data|
    ensures SoFar(FileBytes(d, k, f), from, n, i + 1, buff + d.data[k.ch[f][i]][0..w], left - w)
  {
    ReadStep(d, k, f, from, buff, i, w);
  }

  /** The chain does not end before the buffer is full. */
  lemma SoFarDone(d: Disk, k: Book, f: nat, from: nat, n: nat, i: nat, buff: seq<byte>, left: nat)
    requires Wf(d, k) && f < |k.ch| && d.inodes[f].state.REGULAR? && SizedAt(d, k, f) && i <= |k.ch[f]|
    requires SoFar(FileBytes(d, k, f), from, n, i, buff, left) && (i == |k.ch[f]| || left == 0)
    ensures left == 0
  {
  }

  class Osada {
    const files: array<Inode>
    const next: array<nat>
    const used: array<bool>
    const data: array<Block>
    ghost var book: Book

    ghost function View(): Disk
      reads files, next, used, data
    {
      Disk(files[..], next[..], used[..], data[..])
    }

    ghost predicate Distinct() {
      && files as object != next && files as object != data && files as object != used
      && next as object != used && next as object != data && used as object != data
    }

    /** Structurally sound: what holds even while a file's size and chain disagree. */
    ghost predicate Sound()
      reads this, files, next, used, data
    {
      Distinct() && Wf(View(), book)
    }

    ghost predicate Valid()
      reads this, files, next, used, data
    {
      Sound() && Sized(View(), book)
    }

    ghost function Volume(): map<nat, seq<byte>>
      requires Valid()
      reads this, files, next, used, data
    {
      Abs(View(), book)
    }

    // -------------------------------------------------------------- single memory accesses

    function Deref(c: Cell): (v: nat)
      requires CellOk(View(), c)
      reads files, next, used, data
      ensures v == Get(View(), c)
    {
      match c
      case Head(f) => files[f].first
      case Link(b) => next[b]
    }

    method Store(c: Cell, v: nat)
      requires Distinct() && CellOk(View(), c)
      modifies files, next
      ensures View() == Put(old(View()), c, v)
    {
      match c {
        case Head(f) => files[f] := files[f].(first := v);
        case Link(b) => next[b] := v;
      }
      assert View() == Put(old(View()), c, v);
    }

    method SetMeta(f: nat, size: nat, lastmod: int)
      requires Sound() && f < files.Length
      modifies files
      ensures Sound() && View() == SetNode(old(View()), f, size, lastmod)
    {
      SetNodeWf(View(), book, f, size, lastmod);
      files[f] := files[f].(size := size, lastmod := lastmod);
      assert View() == SetNode(old(View()), f, size, lastmod);
    }

    // -------------------------------------------------------------- walking

    /** Follows `hops` links from the inode of `f`. */
    method Seek(f: nat, hops: nat) returns (c: Cell)
      requires Sound() && f < files.Length && files[f].state.REGULAR? && hops <= |book.ch[f]|
      ensures c == CellAt(f, book.ch[f], hops) && CellOk(View(), c)
      ensures Get(View(), c) == At(book.ch[f], hops)
    {
      ghost var d := View();
      ChainCell(d, book, f, 0);
      c := Head(f);
      var i := hops;
      while i > 0
        invariant 0 <= i <= hops && c == CellAt(f, book.ch[f], hops - i)
        invariant CellOk(d, c) && Get(d, c) == At(book.ch[f], hops - i)
      {
        c := Link(Deref(c));
        i := i - 1;
        ChainCell(d, book, f, hops - i);
      }
    }

    /** From `start` links into the chain, follows links until END_OF_FILE, counting them. */
    method WalkToEnd(f: nat, start: nat) returns (c: Cell, hops: nat)
      requires Sound() && f < files.Length && files[f].state.REGULAR? && start <= |book.ch[f]|
      ensures c == Tail(book, f) && CellOk(View(), c) && hops == |book.ch[f]| - start
    {
      ghost var d := View();
      c := Seek(f, start);
      hops := 0;
      while Deref(c) != END_OF_FILE
        invariant start + hops <= |book.ch[f]| && c == CellAt(f, book.ch[f], start + hops)
        invariant CellOk(d, c) && Get(d, c) == At(book.ch[f], start + hops)
        decreases |book.ch[f]| - hops
      {
        c := Link(Deref(c));
        hops := hops + 1;
        ChainCell(d, book, f, start + hops);
      }
      ChainCell(d, book, f, start + hops);
    }

    // -------------------------------------------------------------- critical sections of m_lock

    method TakeBlock(tail: Cell, pos: nat)
      requires Distinct() && used.Length == next.Length && CellOk(View(), tail) && pos < used.Length
      modifies files, next, used
      ensures View() == Take(old(View()), tail, pos)
    {
      used[pos] := true;
      assert View() == old(View()).(used := old(View()).used[pos := true]);
      Store(tail, pos);
      Store(Link(pos), END_OF_FILE);
    }

    /** Takes free blocks in bit order while `need` is positive. */
    method Scan(tail0: Cell, need0: int, unit: nat) returns (tail: Cell, stop: nat)
      requires Distinct() && used.Length == next.Length && CellOk(View(), tail0)
      modifies files, next, used
      ensures GrowResult(View(), tail, stop) == Grow(old(View()), tail0, need0, unit, 0)
    {
      tail := tail0;
      var need := need0;
      stop := 0;
      while need > 0 && stop < used.Length
        invariant stop <= used.Length && CellOk(View(), tail)
        invariant Grow(View(), tail, need, unit, stop) == Grow(old(View()), tail0, need0, unit, 0)
      {
        if !used[stop] {
          TakeBlock(tail, stop);
          tail := Link(stop);
          need := need - unit;
        }
        stop := stop + 1;
      }
    }

    /** Gives an empty file its first block: the lowest free one. */
    method FirstBlock(f: nat) returns (stop: nat)
      requires Distinct() && used.Length == next.Length && f < files.Length
      modifies files, next, used
      ensures stop <= used.Length
      ensures forall b :: 0 <= b < stop ==> old(used[b])
      ensures stop < used.Length ==> !old(used[stop]) && View() == Take(old(View()), Head(f), stop)
      ensures stop == used.Length ==> View() == old(View())
    {
      stop := 0;
      while stop < used.Length
        invariant stop <= used.Length && View() == old(View())
        invariant forall b :: 0 <= b < stop ==> used[b]
      {
        if !used[stop] {
          TakeBlock(Head(f), stop);
          break;
        }
        stop := stop + 1;
      }
    }

    /** Clears the bits of the blocks hanging from a cell, cutting every link on the way. */
    method Release(c0: Cell, ghost bs: seq<nat>)
      requires Distinct() && used.Length == next.Length < END_OF_FILE && Path(View(), c0, bs)
      modifies files, next, used
      ensures View() == Drop(old(View()), c0, bs)
    {
      var c := c0;
      ghost var rest := bs;
      while Deref(c) != END_OF_FILE
        invariant Path(View(), c, rest)
        invariant Drop(View(), c, rest) == Drop(old(View()), c0, bs)
        decreases |rest|
      {
        DropStep(View(), c, rest);
        var b := Deref(c);
        ghost var before := View();
        used[b] := false;
        assert View() == before.(used := before.used[b := false]);
        Store(c, END_OF_FILE);
        c := Link(b);
        rest := rest[1..];
      }
    }

    // -------------------------------------------------------------- extending and cutting a file

    /** Cuts file `f` back to its first `keep` blocks. */
    method CutTo(f: nat, keep: nat)
      requires Sound() && f < files.Length && files[f].state.REGULAR? && keep <= |book.ch[f]|
      modifies files, next, used, `book
      ensures Sound() && book == Cut(old(book), f, keep)
      ensures CellOk(old(View()), CellAt(f, old(book.ch[f]), keep))
      ensures forall i :: 0 <= i < |old(book.ch[f])| ==> old(book.ch[f])[i] < used.Length
      ensures View() == Released(old(View()), old(book), f, keep)
    {
      ghost var d, k := View(), book;
      ReleasedOk(d, k, f, keep);
      ReleasedSpec(d, k, f, keep);
      var c := Seek(f, keep);
      Release(c, k.ch[f][keep..]);
      book := Cut(book, f, keep);
    }

    /** The scan of an extension: file `f` gains the blocks `taken`, all free before. */
    method Extend(f: nat, need: int, unit: nat, tail: Cell) returns (stop: nat, ghost taken: seq<nat>)
      requires Sound() && f < files.Length && files[f].state.REGULAR? && tail == Tail(book, f) && unit > 0
      modifies files, next, used, `book
      ensures forall i :: 0 <= i < |taken| ==> taken[i] < used.Length && !old(used[..])[taken[i]]
      ensures Sound() && book == Append(old(book), f, taken)
      ensures Grown(old(View()), old(book), f, taken, View(), book)
      ensures stop < used.Length <==> Wanted(need, unit) <= FreeIn(old(used[..]), 0, used.Length - 1)
      ensures stop < used.Length ==> |taken| == Wanted(need, unit)
    {
      ghost var d, k := View(), book;
      ChainCell(d, k, f, |k.ch[f]|);
      GrowStop(d, tail, need, unit, 0);
      taken := GrowSpec(d, k, f, need, unit, 0);
      var end: Cell;
      end, stop := Scan(tail, need, unit);
      book := Append(book, f, taken);
    }

    /** Gives file `f` a first block when it has none. */
    method AssignFirst(f: nat, ghost t: nat) returns (ok: bool, ghost taken: seq<nat>)
      requires Sound() && f < files.Length && files[f].state.REGULAR? && (t >= 1 || book.ch[f] != [])
      modifies files, next, used, `book
      ensures Sound() && forall i :: 0 <= i < |taken| ==> taken[i] < used.Length && !old(used[..])[taken[i]]
      ensures Grown(old(View()), old(book), f, taken, View(), book) && book == Append(old(book), f, taken)
      ensures ok ==> |book.ch[f]| == if old(book.ch[f]) == [] then 1 else |old(book.ch[f])|
      ensures forall b :: 0 <= b < used.Length && old(used[..])[b] ==> used[b]
      ensures ok ==> (Fits(old(used[..]), old(book.ch[f]) == [], t)
                      <==> t - |taken| <= FreeIn(used[..], 0, used.Length - 1))
      ensures !ok ==> taken == [] && View() == old(View()) && !Fits(old(used[..]), old(book.ch[f]) == [], t)
    {
      ghost var d, k := View(), book;
      ChainCell(d, k, f, 0);
      GrownNothing(d, k, f);
      ok, taken := true, [];
      if files[f].first == END_OF_FILE {
        var p := FirstBlock(f);
        if p == used.Length {
          FreeInNone(d.used, 0, used.Length);
          FitsBounds(d.used, true, t);
          return false, [];
        }
        TakeGrown(d, k, f, p);
        FitsAfterFirst(d.used, p, t);
        book := Append1(k, f, p);
        taken := [p];
      }
    }

    /** The rollback of a failed extension: restores the size and cuts the chain to it. */
    method Undo(f: nat, fsize: nat, lm: int, ghost d: Disk, ghost k: Book, ghost taken: seq<nat>)
      requires Sound() && f < files.Length && Wf(d, k) && f < |k.ch| && d.inodes[f].state.REGULAR?
      requires d.inodes[f].size == fsize && d.inodes[f].lastmod == lm && |k.ch[f]| == Blocks(fsize)
      requires forall i :: 0 <= i < |taken| ==> taken[i] < |d.used| && !d.used[taken[i]]
      requires Grown(d, k, f, taken, SetNode(View(), f, fsize, lm), book) && book == Append(k, f, taken)
      modifies files, next, used, `book
      ensures Sound() && book == k && View() == d.(next := View().next)
    {
      SetMeta(f, fsize, lm);
      RollbackRestores(d, k, f, taken, View());
      CutTo(f, NecessaryBlocks(fsize));
    }

    /** The expansion of a write that ends past the old end of the file: first block of an empty
        file, walk to the tail, scan, and on failure the rollback. */
    method Expand(f: nat, end: nat) returns (ok: bool, ghost taken: seq<nat>)
      requires Valid() && f < files.Length && files[f].state.REGULAR? && files[f].size < end
      modifies files, next, used, `book
      ensures Sound()
      ensures ok <==> Fits(old(used[..]), old(book.ch[f]) == [], Blocks(end) - |old(book.ch[f])|)
      ensures ok ==> Wf(SetNode(old(View()), f, end, old(files[f].lastmod)), old(book))
      ensures ok ==> Grown(SetNode(old(View()), f, end, old(files[f].lastmod)), old(book), f, taken, View(), book)
      ensures ok ==> |book.ch[f]| == Blocks(end)
      ensures forall i :: 0 <= i < |taken| ==> taken[i] < used.Length && !old(used[..])[taken[i]]
      ensures ok ==> book == Append(old(book), f, taken)
      ensures !ok ==> book == old(book) && View() == old(View()).(next := View().next)
    {
      var fsize, lm := files[f].size, files[f].lastmod;
      ghost var d0, k0 := View(), book;
      assert SizedAt(d0, k0, f);
      ghost var t := Blocks(end) - Blocks(fsize);
      var toExpand := end - fsize;
      SetMeta(f, fsize + toExpand, lm);
      ghost var d1 := View();
      ghost var more: seq<nat>;
      var stop: nat;
      ok, taken := AssignFirst(f, t);
      ghost var d2, k2 := View(), book;
      if ok {
        var tail, movs := WalkToEnd(f, 1);
        var lastFreeByte := fsize - movs * BLOCK_SIZE;
        toExpand := toExpand - (BLOCK_SIZE - lastFreeByte);
        WantedBlocks(toExpand);
        assert Wanted(toExpand, BLOCK_SIZE) == Blocks(end) - |k2.ch[f]|;
        stop, more := Extend(f, toExpand, BLOCK_SIZE, tail);
        GrownTrans(d1, k0, f, taken, d2, k2, more, View(), book);
        AppendTwice(k0, f, taken, more);
        taken := taken + more;
        ok := stop < used.Length;
      }
      if !ok {
        GrownMeta(d0, k0, f, end, taken, View(), book);
        Undo(f, fsize, lm, d0, k0, taken);
      }
    }

    // -------------------------------------------------------------- write

    /** Steps from the cell of position `i` to the next one. */
    method Advance(f: nat, c: Cell, ghost i: nat) returns (c': Cell, atEnd: bool)
      requires Sound() && f < files.Length && files[f].state.REGULAR? && i < |book.ch[f]|
      requires c == CellAt(f, book.ch[f], i)
      ensures c' == CellAt(f, book.ch[f], i + 1) && (atEnd <==> i + 1 == |book.ch[f]|)
      ensures CellOk(View(), c') && (Deref(c') == END_OF_FILE <==> atEnd)
    {
      NextCell(View(), book, f, i);
      c' := Link(Deref(c));
      atEnd := Deref(c') == END_OF_FILE;
    }

    /** Copies a chunk into the block the cell of position `i` points at. */
    method CopyBlock(f: nat, c: Cell, ghost i: nat, o: nat, chunk: seq<byte>)
      requires Sound() && f < files.Length && files[f].state.REGULAR? && i < |book.ch[f]|
      requires c == CellAt(f, book.ch[f], i) && o + |chunk| <= BLOCK_SIZE
      modifies data
      ensures Sound() && book.ch[f][i] < data.Length
      ensures View() == WriteBlock(old(View()), book.ch[f][i], o, chunk)
    {
      NextCell(View(), book, f, i);
      WriteBlockWf(View(), book, f, i, o, chunk);
      var b := Deref(c);
      data[b] := Splice(data[b], o, chunk);
      assert View().data == WriteBlock(old(View()), b, o, chunk).data;
    }

    /** The copy loop: lays the buffer over the file's blocks; it leaves early only when done. */
    method CopyIn(f: nat, offset: nat, buffer: seq<byte>)
      requires Sound() && f < files.Length && files[f].state.REGULAR?
      requires |buffer| > 0 && offset + |buffer| <= BLOCK_SIZE * |book.ch[f]|
      modifies data
      ensures Sound() && Copying(old(View()), book, f, offset, buffer, |buffer|, View())
    {
      ghost var d0, k, len := View(), book, |book.ch[f]|;
      var movs := offset / BLOCK_SIZE;
      var c := Seek(f, movs);
      var o := offset - BLOCK_SIZE * movs;
      var available := BLOCK_SIZE - o;
      var left := |buffer|;
      var pos := 0;
      ghost var i: nat := movs;
      while left > 0
        invariant 0 <= left <= |buffer| && 0 <= o && o + available == BLOCK_SIZE && 0 < available
        invariant Sound() && Copying(d0, k, f, offset, buffer, |buffer| - left, View())
        invariant left > 0 ==> pos == |buffer| - left && BLOCK_SIZE * i + o == offset + pos
        invariant i < len && c == CellAt(f, k.ch[f], i)
      {
        var w := if left >= available then available else left;
        CopyStep(d0, k, f, offset, buffer, pos, View(), i, o, w);
        CopyBlock(f, c, i, o, buffer[pos..pos + w]);
        left := left - w;
        var atEnd: bool;
        c, atEnd := Advance(f, c, i);
        i := i + 1;
        if atEnd {
          assert left == 0;
          break;
        }
        pos := pos + w;
        available := BLOCK_SIZE;
        o := 0;
      }
    }

    /** What a write does before copying: stamps the file and makes it long enough. */
    method Prepare(f: nat, end: nat, now: int) returns (ok: bool)
      requires Valid() && f < files.Length && files[f].state.REGULAR?
      modifies files, next, used, `book
      ensures Sound() && files[f].state.REGULAR?
      ensures ok <==> end <= old(files[f].size)
                      || Fits(old(used[..]), old(files[f].size) == 0, Blocks(end) - Blocks(old(files[f].size)))
      ensures ok ==> OnlyFile(old(View()), old(book), f, View(), book)
      ensures ok ==> old(FileOf(View(), book, f)).blocks <= FileOf(View(), book, f).blocks
      ensures ok ==> files[f].size == (if old(files[f].size) < end then end else old(files[f].size))
      ensures ok ==> files[f].lastmod == now
      ensures ok ==> |book.ch[f]| == Blocks(files[f].size)
      ensures OnlyFile(old(View()), old(book), f, SetNode(old(View()), f, old(files[f].size), now), old(book))
      ensures !ok ==> Sized(SetNode(old(View()), f, old(files[f].size), now), old(book)) && Valid() && book == old(book)
      ensures !ok ==> View() == SetNode(old(View()), f, old(files[f].size), now).(next := View().next)
    {
      ghost var d0, k0 := View(), book;
      assert SizedAt(d0, k0, f);
      var fsize := files[f].size;
      SetNodeWf(d0, k0, f, fsize, now);
      SetMeta(f, fsize, now);
      ghost var d1 := View();
      SizedOnly(d0, k0, f, d1, k0);
      ok := true;
      if end > fsize {
        ghost var taken: seq<nat>;
        ok, taken := Expand(f, end);
        if ok {
          ghost var d2 := SetNode(d1, f, end, now);
          SetNodeWf(d1, k0, f, end, now);
          GrownOnly(d2, k0, f, taken, View());
          OnlyFileTrans(d0, k0, f, d2, k0, View(), book);
        } else {
          UnchangedFiles(d1, k0, View());
        }
      }
    }

    /** Writes `buffer` at `offset`.  A successful write lays the buffer over the file's bytes and
        changes no other file; ENOSPC changes nothing but the time stamp (and links of free
        blocks); which of the two happens is decided by the free bits alone. */
    method Write(f: nat, offset: nat, buffer: seq<byte>, now: int) returns (r: Reply)
      requires Valid() && f < files.Length && files[f].state.REGULAR?
      requires offset + |buffer| <= INT_MAX
      modifies files, next, used, data, `book
      ensures Valid() && OnlyFile(old(View()), old(book), f, View(), book)
      ensures r == NoReply <==> buffer == []
      ensures buffer == [] ==> View() == old(View()) && book == old(book)
      ensures r == ENOSPC <==> buffer != [] && r != SEXE
      ensures buffer != [] ==> (r == SEXE <==>
                || offset + |buffer| <= old(files[f].size)
                || Fits(old(used[..]), old(files[f].size) == 0, Blocks(offset + |buffer|) - Blocks(old(files[f].size))))
      ensures r == SEXE ==> f in Volume() && Volume() == old(Volume())[f := Volume()[f]]
      ensures r == SEXE ==> Written(old(Volume())[f], offset, buffer, Volume()[f]) && files[f].lastmod == now
      ensures r == ENOSPC ==> Volume() == old(Volume()) && book == old(book)
      ensures r == ENOSPC ==> View() == SetNode(old(View()), f, old(files[f].size), now).(next := View().next)
    {
      if |buffer| == 0 {
        return NoReply;
      }
      ghost var d0, k0 := View(), book;
      var ok := Prepare(f, offset + |buffer|, now);
      if !ok {
        UnchangedFiles(SetNode(d0, f, d0.inodes[f].size, now), k0, View());
        OnlyFileTrans(d0, k0, f, SetNode(d0, f, d0.inodes[f].size, now), k0, View(), k0);
        AbsOnly(d0, k0, f, View(), book);
        return ENOSPC;
      }
      ghost var d1 := View();
      CopyIn(f, offset, buffer);
      WriteResult(d0, k0, f, d1, book, View(), offset, buffer);
      r := SEXE;
    }

    // -------------------------------------------------------------- truncate, unlink, mknod

    /** The growing branch of truncate, entered with the new size already in the inode: `n` more
        blocks, or the state `d` of before the call. */
    method AddBlocks(f: nat, n: nat, tail: Cell, oldSize: nat, lm: int, ghost d: Disk, ghost newSize: nat)
      returns (ok: bool)
      requires Sound() && f < files.Length && Wf(d, book)
      requires View() == SetNode(d, f, newSize, lm) && tail == Tail(book, f)
      requires d.inodes[f].state.REGULAR? && d.inodes[f].size == oldSize && d.inodes[f].lastmod == lm
      requires |book.ch[f]| == Blocks(oldSize) && n > 0
      modifies files, next, used, `book
      ensures Sound() && (ok <==> n <= FreeIn(d.used, 0, used.Length - 1))
      ensures ok ==> OnlyFile(d, old(book), f, View(), book)
      ensures ok ==> FileOf(d, old(book), f).blocks <= FileOf(View(), book, f).blocks
      ensures ok ==> |book.ch[f]| == Blocks(oldSize) + n && files[f].state.REGULAR?
      ensures ok ==> files[f].size == newSize && files[f].lastmod == lm
      ensures !ok ==> book == old(book) && View() == d.(next := View().next)
    {
      ghost var k, d1 := book, View();
      SetNodeWf(d, k, f, newSize, lm);
      WantedOnes(n);
      var stop: nat;
      ghost var taken: seq<nat>;
      stop, taken := Extend(f, n, 1, tail);
      GrownOnly(d1, k, f, taken, View());
      OnlyFileTrans(d, k, f, d1, k, View(), book);
      ok := stop < used.Length;
      if !ok {
        GrownMeta(d, k, f, newSize, taken, View(), book);
        Undo(f, oldSize, lm, d, k, taken);
      }
    }

    /** The shrinking branch of truncate, entered with the new size already in the inode. */
    method DropBlocks(f: nat, keep: nat, ghost d: Disk)
      requires Sound() && f < files.Length && files[f].state.REGULAR? && keep <= |book.ch[f]|
      requires Wf(d, book) && OnlyFile(d, book, f, View(), book)
      requires FileOf(View(), book, f).blocks == FileOf(d, book, f).blocks
      modifies files, next, used, `book
      ensures Sound() && OnlyFile(d, old(book), f, View(), book) && |book.ch[f]| == keep
      ensures FileOf(View(), book, f).blocks <= FileOf(d, old(book), f).blocks
      ensures files[f].state.REGULAR? && files[f].size == old(files[f].size)
      ensures files[f].lastmod == old(files[f].lastmod)
    {
      ghost var d1, k := View(), book;
      ReleasedOk(d1, k, f, keep);
      CutOnly(d1, k, f, keep);
      CutTo(f, keep);
      OnlyFileTrans(d, k, f, d1, k, View(), book);
    }

    /** Brings the chain to the length of a new size that is already in the inode. */
    method Refit(f: nat, oldSize: nat, lm: int, ghost d: Disk) returns (ok: bool)
      requires Sound() && f < files.Length && Wf(d, book) && View() == SetNode(d, f, files[f].size, lm)
      requires d.inodes[f].state.REGULAR? && d.inodes[f].size == oldSize && d.inodes[f].lastmod == lm
      requires |book.ch[f]| == Blocks(oldSize) && files[f].size != oldSize
      modifies files, next, used, `book
      ensures Sound() && (ok <==> Fits(d.used, false, Blocks(old(files[f].size)) - Blocks(oldSize)))
      ensures ok ==> OnlyFile(d, old(book), f, View(), book) && |book.ch[f]| == Blocks(old(files[f].size))
      ensures ok ==> files[f].state.REGULAR? && files[f].size == old(files[f].size) && files[f].lastmod == lm
      ensures ok ==> FileOf(d, old(book), f).blocks <= FileOf(View(), book, f).blocks
                     || FileOf(View(), book, f).blocks <= FileOf(d, old(book), f).blocks
      ensures !ok ==> book == old(book) && View() == d.(next := View().next)
    {
      var newSize := files[f].size;
      SetNodeWf(d, book, f, newSize, lm);
      var c, current := WalkToEnd(f, 0);
      var necessary := NecessaryBlocks(newSize);
      ok := true;
      if newSize > oldSize && necessary > current {
        ok := AddBlocks(f, necessary - current, c, oldSize, lm, d, newSize);
      } else if newSize < oldSize && necessary < current {
        DropBlocks(f, necessary, d);
      }
    }

    /** Sets the size of file `f`, adding or releasing exactly the blocks between. */
    method Truncate(f: nat, newSize: nat) returns (r: Reply)
      requires Valid() && f < files.Length && files[f].state.REGULAR? && newSize <= INT_MAX
      modifies files, next, used, `book
      ensures Valid() && OnlyFile(old(View()), old(book), f, View(), book)
      ensures r == SEXE || r == ENOSPC
      ensures r == SEXE <==> Fits(old(used[..]), false, Blocks(newSize) - Blocks(old(files[f].size)))
      ensures r == SEXE ==> f in Volume() && Volume() == old(Volume())[f := Volume()[f]]
      ensures r == SEXE ==> Resized(old(Volume())[f], newSize, Volume()[f])
      ensures r == SEXE ==>
                FreeIn(used[..], 0, used.Length) + Blocks(newSize)
                == FreeIn(old(used[..]), 0, used.Length) + Blocks(old(files[f].size))
      ensures r == SEXE && newSize == 0 ==> files[f].first == END_OF_FILE
      ensures files[f].state == REGULAR && files[f].lastmod == old(files[f].lastmod)
      ensures r == ENOSPC ==> Volume() == old(Volume()) && book == old(book)
      ensures r == ENOSPC ==> View() == old(View()).(next := View().next)
    {
      ghost var d0, k0 := View(), book;
      var oldSize, lm := files[f].size, files[f].lastmod;
      assert SizedAt(d0, k0, f);
      SetNodeWf(d0, k0, f, newSize, lm);
      SetMeta(f, newSize, lm);
      if newSize != oldSize {
        var ok := Refit(f, oldSize, lm, d0);
        if !ok {
          UnchangedFiles(d0, k0, View());
          return ENOSPC;
        }
      }
      TruncateResult(d0, k0, f, View(), book);
      assert Linked(View(), book, f);
      r := SEXE;
    }

    /** Releases every block of file `f` and deletes its inode. */
    method Unlink(f: nat) returns (r: Reply)
      requires Valid() && f < files.Length && files[f].state.REGULAR?
      modifies files, next, used, `book
      ensures Valid() && OnlyFile(old(View()), old(book), f, View(), book)
      ensures r == SEXE && Volume() == old(Volume()) - {f} && files[f].state == DELETED
      ensures FreeIn(used[..], 0, used.Length) == FreeIn(old(used[..]), 0, used.Length) + Blocks(old(files[f].size))
    {
      ghost var d0, k0 := View(), book;
      assert SizedAt(d0, k0, f);
      ReleasedOk(d0, k0, f, 0);
      CutOnly(d0, k0, f, 0);
      CutTo(f, 0);
      ghost var d1, k1 := View(), book;
      StateWf(d1, k1, f, files[f].(state := DELETED));
      files[f] := files[f].(state := DELETED);
      assert View().inodes == d1.inodes[f := d1.inodes[f].(state := DELETED)];
      OnlyFileTrans(d0, k0, f, d1, k1, View(), k1);
      SizedOnly(d0, k0, f, View(), book);
      AbsOnly(d0, k0, f, View(), book);
      UnlinkFree(d0, k0, f, View(), book);
      r := SEXE;
    }

    /** Creates an empty regular file in the lowest deleted slot other than `parent`. */
    method Mknod(parent: nat, now: int) returns (r: Reply, slot: nat)
      requires Valid()
      modifies files
      ensures Valid() && book == old(book) && slot <= files.Length
      ensures forall i :: 0 <= i < slot && i != parent ==> old(files[i].state) != DELETED
      ensures slot < files.Length ==> slot != parent && old(files[slot].state) == DELETED
      ensures r == if slot < files.Length then ISREG else ENOSPC
      ensures r == ISREG ==> Volume() == old(Volume())[slot := []] && slot !in old(Volume())
      ensures r == ISREG ==> files[slot] == Inode(REGULAR, 0, now, END_OF_FILE)
      ensures r == ISREG ==> OnlyFile(old(View()), book, slot, View(), book) && used[..] == old(used[..])
      ensures r == ENOSPC ==> View() == old(View())
    {
      slot := 0;
      while slot < files.Length
        invariant slot <= files.Length
        invariant forall i :: 0 <= i < slot && i != parent ==> files[i].state != DELETED
      {
        if slot != parent && files[slot].state == DELETED {
          break;
        }
        slot := slot + 1;
      }
      if slot == files.Length {
        return ENOSPC, slot;
      }
      ghost var d0 := View();
      assert Linked(d0, book, slot);
      StateWf(d0, book, slot, Inode(REGULAR, 0, now, END_OF_FILE));
      files[slot] := Inode(REGULAR, 0, now, END_OF_FILE);
      assert View() == d0.(inodes := d0.inodes[slot := Inode(REGULAR, 0, now, END_OF_FILE)]);
      SizedOnly(d0, book, slot, View(), book);
      AbsOnly(d0, book, slot, View(), book);
      r := ISREG;
    }

    // -------------------------------------------------------------- read

    /** The `w` bytes at `o` in the block that cell `c` points at. */
    function Fetch(c: Cell, o: nat, w: nat): (chunk: seq<byte>)
      requires CellOk(View(), c) && Get(View(), c) < data.Length && o + w <= BLOCK_SIZE
      reads files, next, used, data
      ensures chunk == View().data[Get(View(), c)][o..o + w]
    {
      data[Deref(c)][o..o + w]
    }

    /** The read loop: `n` bytes from the start of the block at position `i0` on. */
    method CopyBlocks(f: nat, c0: Cell, ghost i0: nat, n: nat) returns (buff: seq<byte>)
      requires Sound() && f < files.Length && files[f].state.REGULAR? && SizedAt(View(), book, f)
      requires i0 <= |book.ch[f]| && c0 == CellAt(f, book.ch[f], i0)
      requires n > 0 ==> BLOCK_SIZE * i0 + n <= files[f].size
      ensures n == 0 ==> buff == []
      ensures n > 0 ==> buff == FileBytes(View(), book, f)[BLOCK_SIZE * i0..BLOCK_SIZE * i0 + n]
    {
      ghost var d, k, from := View(), book, BLOCK_SIZE * i0;
      ghost var content := FileBytes(d, k, f);
      buff := [];
      var c, left := c0, n;
      ghost var i := i0;
      ChainCell(d, k, f, i);
      while Deref(c) != END_OF_FILE && left > 0
        invariant i0 <= i <= |k.ch[f]| && c == CellAt(f, k.ch[f], i) && CellOk(d, c)
        invariant Get(d, c) == END_OF_FILE <==> i == |k.ch[f]|
        invariant 0 <= left && SoFar(content, from, n, i, buff, left)
        decreases left
      {
        var w := if left >= BLOCK_SIZE then BLOCK_SIZE else left;
        NextCell(d, k, f, i);
        SoFarNext(d, k, f, from, n, i, buff, left, w);
        buff := buff + Fetch(c, 0, w);
        left := left - w;
        c := Link(Deref(c));
        i := i + 1;
      }
      SoFarDone(d, k, f, from, n, i, buff, left);
    }

    /** The bytes up to the end of the block `offset` is in, and the cell of the next block. */
    method FirstChunk(f: nat, offset: nat, n: nat) returns (chunk: seq<byte>, next: Cell)
      requires Sound() && f < files.Length && files[f].state.REGULAR? && SizedAt(View(), book, f)
      requires offset + n <= files[f].size && offset < files[f].size
      ensures var i := offset / BLOCK_SIZE; i < |book.ch[f]| && next == CellAt(f, book.ch[f], i + 1)
      ensures |chunk| == if BLOCK_SIZE - offset % BLOCK_SIZE >= n then n else BLOCK_SIZE - offset % BLOCK_SIZE
      ensures chunk == FileBytes(View(), book, f)[offset..offset + |chunk|]
    {
      var movs := offset / BLOCK_SIZE;
      var c := Seek(f, movs);
      NextCell(View(), book, f, movs);
      var o := offset - BLOCK_SIZE * movs;
      var w := if BLOCK_SIZE - o >= n then n else BLOCK_SIZE - o;
      FileChunk(View(), book, f, movs, o, w);
      chunk, next := Fetch(c, o, w), Link(Deref(c));
    }

    /** Collects `n` bytes from `offset` on: the end of one block, then block by block. */
    method CopyOut(f: nat, offset: nat, n: nat) returns (buff: seq<byte>)
      requires Sound() && f < files.Length && files[f].state.REGULAR? && SizedAt(View(), book, f)
      requires offset + n <= files[f].size && offset < files[f].size
      ensures buff == FileBytes(View(), book, f)[offset..offset + n]
    {
      ghost var content := FileBytes(View(), book, f);
      var c: Cell;
      buff, c := FirstChunk(f, offset, n);
      ghost var w := |buff|;
      var rest := CopyBlocks(f, c, offset / BLOCK_SIZE + 1, n - |buff|);
      assert rest == content[offset + w..offset + n];
      SliceJoin(content, offset, offset + w, offset + n);
      buff := buff + rest;
    }

    /** Reads `size` bytes at `offset`.  The guard compares in unsigned 32-bit arithmetic, so it
        also skips the last byte of a file and lets every read of an empty file through. */
    method Read(f: nat, offset: nat, size: nat) returns (r: ReadReply)
      requires Valid() && f < files.Length && files[f].state.REGULAR?
      requires offset + size < UINT32 && files[f].size <= INT_MAX
      ensures f in Volume() && r == ReadOutcome(Volume()[f], offset, size)
      ensures var content := Volume()[f];
              && (r == OutOfBounds <==> content == [] && offset < UINT32 - 1)
              && (content != [] && offset + 1 >= |content| ==> r == Sent([]))
              && (offset + 1 < |content| && offset + size <= |content| ==> r == Sent(content[offset..offset + size]))
              && (offset + 1 < |content| && offset + size > |content| ==> r == Sent(content[offset..]))
      ensures r.Sent? ==> |r.bytes| <= size
    {
      AbsAt(View(), book, f);
      var fileSize := files[f].size;
      if offset < (fileSize - 1) % UINT32 {
        if files[f].first == END_OF_FILE {
          return OutOfBounds;
        }
        var n := if offset + size > fileSize then fileSize - offset else size;
        var buff := CopyOut(f, offset, n);
        r := Sent(buff);
      } else {
        r := Sent([]);
      }
    }

    // -------------------------------------------------------------- mount

    /** Maps an image whose chains are sound. */
    constructor Mount(image: Disk, ghost k: Book)
      requires Wf(image, k) && Sized(image, k)
      ensures Valid() && View() == image && book == k
      ensures fresh(files) && fresh(next) && fresh(used) && fresh(data)
    {
      files := new Inode[|image.inodes|](i requires 0 <= i < |image.inodes| => image.inodes[i]);
      next := new nat[|image.next|](i requires 0 <= i < |image.next| => image.next[i]);
      used := new bool[|image.used|](i requires 0 <= i < |image.used| => image.used[i]);
      data := new Block[|image.data|](i requires 0 <= i < |image.data| => image.data[i]);
      book := k;
      new;
      assert files[..] == image.inodes && next[..] == image.next && used[..] == image.used && data[..] == image.data;
    }
  }
}
