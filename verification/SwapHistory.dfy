/** What a read of the swap returns against what was written: over every run, the string last
    written to the page, as long as none written before it was longer. */
module SwapHistory {
  import opened Bytes
  import opened SwapTable
  import opened SwapRequests

  // ---------------------------------------------------------------- the history of a page

  /** What a request adds to the history of a page. */
  function Recorded(h: seq<Page>, r: Request, pid: nat, page: nat): seq<Page> {
    if r.pid != pid then h
    else if r.Escribir? then (if r.page == page then h + [r.content] else h)
    else if r.Leer? then h
    else []
  }

  /** What was written to a page since its process was started, in order. */
  function Strings(log: seq<Request>, pid: nat, page: nat): seq<Page> {
    if log == [] then [] else Recorded(Strings(log[..|log| - 1], pid, page), log[|log| - 1], pid, page)
  }

  /** The string a map from page to string would return. */
  function LastString(h: seq<Page>): seq<byte> {
    if h == [] then [] else CString(h[|h| - 1])
  }

  /** No string is longer than the last one. */
  predicate LastIsLongest(h: seq<Page>) {
    forall i :: 0 <= i < |h| ==> StrLen(h[i]) <= StrLen(h[|h| - 1])
  }

  predicate AllPages(h: seq<Page>, tam: nat) {
    forall i :: 0 <= i < |h| ==> |h[i]| == tam
  }

  /** A page on which the strings were laid one over the other. */
  function Layers(h: seq<Page>, tam: nat): (p: Page)
    requires AllPages(h, tam)
    ensures |p| == tam
  {
    if h == [] then Zeros(tam) else Overlay(Layers(h[..|h| - 1], tam), h[|h| - 1])
  }

  /** Position `i` of the page has been written when some string was longer. */
  predicate Covered(h: seq<Page>, i: nat) {
    exists j :: 0 <= j < |h| && i < StrLen(h[j])
  }

  lemma CoveredMore(h: seq<Page>, c: Page, i: nat)
    ensures Covered(h + [c], i) <==> Covered(h, i) || i < StrLen(c)
  {
    var more := h + [c];
    assert more[|h|] == c && forall j :: 0 <= j < |h| ==> more[j] == h[j];
  }

  lemma {:induction false} CoveredIsWritten(h: seq<Page>, tam: nat, i: nat)
    requires AllPages(h, tam) && i < tam
    ensures Layers(h, tam)[i] != 0 <==> Covered(h, i)
  {
    if h != [] {
      var n := |h| - 1;
      CoveredIsWritten(h[..n], tam, i);
      CoveredMore(h[..n], h[n], i);
      assert h[..n] + [h[n]] == h;
    }
  }

  /** The page reads back as the last string exactly when no earlier one was longer. */
  lemma LayersReadLastIff(h: seq<Page>, tam: nat)
    requires AllPages(h, tam)
    ensures CString(Layers(h, tam)) == LastString(h) <==> LastIsLongest(h)
  {
    if h == [] {
      StrLenIs(Zeros(tam), 0);
    } else {
      var n, c := |h| - 1, h[|h| - 1];
      var below := Layers(h[..n], tam);
      ReadBackIff(below, c);
      if StrLen(c) < tam {
        CoveredIsWritten(h[..n], tam, StrLen(c));
      }
      LongestMeansUncovered(h);
    }
  }

  lemma LongestMeansUncovered(h: seq<Page>)
    requires h != []
    ensures LastIsLongest(h) <==> !Covered(h[..|h| - 1], StrLen(h[|h| - 1]))
  {
    var n, s := |h| - 1, StrLen(h[|h| - 1]);
    if Covered(h[..n], s) {
      var j :| 0 <= j < n && s < StrLen(h[..n][j]);
      assert h[j] == h[..n][j];
    } else {
      forall i | 0 <= i < |h| ensures StrLen(h[i]) <= s {
        assert i < n ==> h[..n][i] == h[i];
      }
    }
  }

  // ---------------------------------------------------------------- the plain map keeps it

  /** Every page holds the strings written to it since its process was started. */
  ghost predicate Tracks(m: Store, log: seq<Request>, tam: nat) {
    forall pid: nat, k :: pid in m.mem && 0 <= k < |m.mem[pid]| ==>
      AllPages(Strings(log, pid, k), tam) && m.mem[pid][k] == Layers(Strings(log, pid, k), tam)
  }

  lemma StringsMore(log: seq<Request>, r: Request, pid: nat, page: nat)
    ensures Strings(log + [r], pid, page) == Recorded(Strings(log, pid, page), r, pid, page)
  {
    assert (log + [r])[..|log|] == log;
  }

  lemma LayersMore(h: seq<Page>, c: Page, tam: nat)
    requires AllPages(h, tam) && |c| == tam
    ensures AllPages(h + [c], tam) && Layers(h + [c], tam) == Overlay(Layers(h, tam), c)
  {
    assert (h + [c])[..|h|] == h;
  }

  lemma PlainTracks(m: Store, log: seq<Request>, r: Request, tam: nat)
    requires Tracks(m, log, tam) && Valid(m, r, tam)
    ensures Tracks(Plain(m, r, tam).0, log + [r], tam)
  {
    var m' := Plain(m, r, tam).0;
    forall pid: nat, k | pid in m'.mem && 0 <= k < |m'.mem[pid]|
      ensures AllPages(Strings(log + [r], pid, k), tam) && m'.mem[pid][k] == Layers(Strings(log + [r], pid, k), tam)
    {
      StringsMore(log, r, pid, k);
      if r.Escribir? && r.pid == pid && r.page == k {
        LayersMore(Strings(log, pid, k), r.content, tam);
      }
    }
  }

  // ---------------------------------------------------------------- over every run

  /** The table after a run; what the reads answered makes no difference to it. */
  function TableAfter(s: Slots, reqs: seq<Request>, tam: nat, limit: nat): Slots
    decreases |reqs|
  {
    if reqs == [] then s else TableAfter(Serve(s, reqs[0], tam, limit).0, reqs[1..], tam, limit)
  }

  /** Whatever the bound of the read search, a request does to the table what it does to the map. */
  lemma ServeAbs(s: Slots, r: Request, tam: nat, limit: nat)
    requires Ok(s, tam) && Valid(Abs(s), r, tam)
    ensures var t := Serve(s, r, tam, limit).0; Ok(t, tam) && |t| == |s| && Abs(t) == Plain(Abs(s), r, tam).0
  {
    match r
    case Iniciar(pid, n) => SimIniciar(s, pid, n, tam, limit);
    case Leer(_, _) =>
    case Escribir(pid, page, content) => SimEscribir(s, pid, page, content, tam, limit);
    case Finalizar(pid) => SimFinalizar(s, pid, tam, limit);
  }

  /** After a run every page holds its strings, and one more request is answered from there. */
  lemma {:induction false} RunTracks(
    s: Slots, log: seq<Request>, reqs: seq<Request>, last: Request, tam: nat, limit: nat)
    requires Ok(s, tam) && Tracks(Abs(s), log, tam) && AllValid(Abs(s), reqs + [last], tam)
    ensures var t, all := TableAfter(s, reqs, tam, limit), Replies(s, reqs + [last], tam, limit);
            && Ok(t, tam) && |t| == |s| && Tracks(Abs(t), log + reqs, tam) && Valid(Abs(t), last, tam)
            && |all| == |reqs| + 1 && all[|reqs|] == Serve(t, last, tam, limit).1
    decreases |reqs|
  {
    var run := reqs + [last];
    if reqs == [] {
      assert log + reqs == log && run == [last] && run[1..] == [];
      assert Replies(s, run, tam, limit) == [Serve(s, run[0], tam, limit).1];
    } else {
      var r := reqs[0];
      assert run[0] == r && run[1..] == reqs[1..] + [last] && log + [r] + reqs[1..] == log + reqs;
      ServeAbs(s, r, tam, limit);
      PlainTracks(Abs(s), log, r, tam);
      RunTracks(Serve(s, r, tam, limit).0, log + [r], reqs[1..], last, tam, limit);
    }
  }

  /** When a read, in table `t`, returns the string last written: the process starts where the
      search still finds it and no earlier string was longer, or the search gives up first and the
      page it lands on holds that string too. */
  ghost predicate ReadsLast(t: Slots, h: seq<Page>, pid: nat, page: nat, limit: nat) {
    if Search(t, pid, |t|) <= limit then LastIsLongest(h)
    else limit + page < |t| && CString(t[limit + page].page) == LastString(h)
  }

  /** One read in a table whose pages hold their strings. */
  lemma ReadFound(t: Slots, h: seq<Page>, pid: nat, page: nat, tam: nat, limit: nat)
    requires AllPages(h, tam) && Search(t, pid, |t|) + page < |t|
    requires t[Search(t, pid, |t|) + page].page == Layers(h, tam)
    ensures CString(ReadPage(t, pid, page, limit)) == LastString(h) <==> ReadsLast(t, h, pid, page, limit)
  {
    ReadPageIs(t, pid, page, limit);
    LayersReadLastIff(h, tam);
  }

  /** In every run of valid requests a read returns the string last written to that page since its
      process was started exactly when the search reaches the process and no string written to the
      page before was longer, or the search gives up on a page that happens to hold it, whatever
      compactions, starts and ends came between. */
  lemma ReadsLastWriteIff(n: nat, tam: nat, limit: nat, reqs: seq<Request>, pid: nat, page: nat)
    requires AllValid(Abs(Empty(n, tam)), reqs + [Leer(pid, page)], tam)
    ensures var all, h := Replies(Empty(n, tam), reqs + [Leer(pid, page)], tam, limit), Strings(reqs, pid, page);
            var t := TableAfter(Empty(n, tam), reqs, tam, limit);
            && |all| == |reqs| + 1 && |t| == n
            && (all[|reqs|] == Content(LastString(h)) <==> ReadsLast(t, h, pid, page, limit))
  {
    var s, t, h := Empty(n, tam), TableAfter(Empty(n, tam), reqs, tam, limit), Strings(reqs, pid, page);
    EmptyOk(n, tam);
    RunTracks(s, [], reqs, Leer(pid, page), tam, limit);
    assert [] + reqs == reqs;
    ReadTarget(t, pid, page, tam);
    ReadFound(t, h, pid, page, tam, limit);
  }

  /** An area with at most one slot more than the bound is always searched far enough. */
  lemma ReadsLastWriteInReach(n: nat, tam: nat, limit: nat, reqs: seq<Request>, pid: nat, page: nat)
    requires n <= limit + 1 && AllValid(Abs(Empty(n, tam)), reqs + [Leer(pid, page)], tam)
    ensures var all, h := Replies(Empty(n, tam), reqs + [Leer(pid, page)], tam, limit), Strings(reqs, pid, page);
            && |all| == |reqs| + 1
            && (all[|reqs|] == Content(LastString(h)) <==> LastIsLongest(h))
  {
    var t := TableAfter(Empty(n, tam), reqs, tam, limit);
    EmptyOk(n, tam);
    RunTracks(Empty(n, tam), [], reqs, Leer(pid, page), tam, limit);
    ReadTarget(t, pid, page, tam);
    ReadsLastWriteIff(n, tam, limit, reqs, pid, page);
  }

  // ---------------------------------------------------------------- byte by byte

  /** Request `j` wrote byte `i` of the page, and the process was not started or ended after it. */
  predicate WroteByte(log: seq<Request>, j: nat, pid: nat, page: nat, i: nat)
    requires j < |log|
  {
    && log[j].Escribir? && log[j].pid == pid && log[j].page == page && i < StrLen(log[j].content)
    && forall k :: j < k < |log| && log[k].pid == pid ==> log[k].Leer? || log[k].Escribir?
  }

  /** No later one did. */
  predicate LastWrote(log: seq<Request>, j: nat, pid: nat, page: nat, i: nat)
    requires j < |log|
  {
    WroteByte(log, j, pid, page, i) && forall k :: j < k < |log| ==> !WroteByte(log, k, pid, page, i)
  }

  /** `b` is byte `i` of the last string longer than `i`. */
  ghost predicate LastByte(log: seq<Request>, pid: nat, page: nat, i: nat, b: byte) {
    exists j :: 0 <= j < |log| && LastWrote(log, j, pid, page, i) && b == log[j].content[i]
  }

  /** The page has that byte, or 0 when there is no such string. */
  ghost predicate HoldsByte(log: seq<Request>, pid: nat, page: nat, i: nat, b: byte) {
    || LastByte(log, pid, page, i, b)
    || (b == 0 && forall j :: 0 <= j < |log| ==> !WroteByte(log, j, pid, page, i))
  }

  lemma WroteMore(log: seq<Request>, r: Request, j: nat, pid: nat, page: nat, i: nat)
    requires j <= |log|
    ensures WroteByte(log + [r], j, pid, page, i)
            <==> if j < |log| then WroteByte(log, j, pid, page, i) && (r.pid == pid ==> r.Leer? || r.Escribir?)
                 else r.Escribir? && r.pid == pid && r.page == page && i < StrLen(r.content)
  {
    var more := log + [r];
    assert more[|log|] == r && forall k :: 0 <= k < |log| ==> more[k] == log[k];
  }

  lemma HoldsMore(log: seq<Request>, r: Request, pid: nat, page: nat, i: nat, b: byte)
    requires HoldsByte(log, pid, page, i, b) || (r.pid == pid && !r.Leer? && !r.Escribir?)
    ensures HoldsByte(log + [r], pid, page, i,
                      if r.pid != pid || r.Leer? then b
                      else if !r.Escribir? then 0
                      else if r.page == page && i < StrLen(r.content) then r.content[i] else b)
  {
    var more := log + [r];
    forall j | 0 <= j <= |log| {
      WroteMore(log, r, j, pid, page, i);
    }
    if WroteByte(more, |log|, pid, page, i) {
      assert LastWrote(more, |log|, pid, page, i);
    } else if r.pid == pid && !r.Leer? && !r.Escribir? {
      assert forall j :: 0 <= j < |more| ==> !WroteByte(more, j, pid, page, i);
    } else if j :| 0 <= j < |log| && LastWrote(log, j, pid, page, i) {
      assert LastWrote(more, j, pid, page, i) && more[j] == log[j];
    }
  }

  /** The bytes of a page of layered strings. */
  lemma {:induction false} LayersAt(log: seq<Request>, pid: nat, page: nat, tam: nat, i: nat)
    requires AllPages(Strings(log, pid, page), tam) && i < tam
    ensures HoldsByte(log, pid, page, i, Layers(Strings(log, pid, page), tam)[i])
  {
    if log != [] {
      var n := |log| - 1;
      var before, r, h := log[..n], log[n], Strings(log[..n], pid, page);
      assert log == before + [r];
      StringsMore(before, r, pid, page);
      if r.pid == pid && !r.Leer? && !r.Escribir? {
        HoldsMore(before, r, pid, page, i, 0);
      } else {
        assert forall k :: 0 <= k < |h| ==> h[k] == Strings(log, pid, page)[k];
        LayersAt(before, pid, page, tam, i);
        HoldsMore(before, r, pid, page, i, Layers(h, tam)[i]);
        if r.pid == pid && r.Escribir? && r.page == page {
          assert Strings(log, pid, page)[|h|] == r.content;
          LayersMore(h, r.content, tam);
        }
      }
    }
  }

  /** What was written is a string of the history. */
  lemma {:induction false} WroteIsString(log: seq<Request>, j: nat, pid: nat, page: nat, i: nat)
    requires j < |log| && WroteByte(log, j, pid, page, i)
    ensures log[j].content in Strings(log, pid, page)
  {
    var n := |log| - 1;
    var before, r := log[..n], log[n];
    assert log == before + [r];
    StringsMore(before, r, pid, page);
    WroteMore(before, r, j, pid, page, i);
    if j < n {
      WroteIsString(before, j, pid, page, i);
    }
  }

  /** As many bytes as the longest string, each that of the last string that had it. */
  ghost predicate AnswersWith(log: seq<Request>, pid: nat, page: nat, a: seq<byte>) {
    && (forall i :: 0 <= i < |a| ==> LastByte(log, pid, page, i, a[i]))
    && forall i: nat, j :: 0 <= j < |log| && WroteByte(log, j, pid, page, i) ==> i < |a|
  }

  lemma LayersAnswer(log: seq<Request>, pid: nat, page: nat, tam: nat)
    requires AllPages(Strings(log, pid, page), tam)
    ensures AnswersWith(log, pid, page, CString(Layers(Strings(log, pid, page), tam)))
  {
    var p := Layers(Strings(log, pid, page), tam);
    var a := CString(p);
    forall i | 0 <= i < |a| ensures LastByte(log, pid, page, i, a[i]) {
      LayersAt(log, pid, page, tam, i);
    }
    forall i: nat, j | 0 <= j < |log| && WroteByte(log, j, pid, page, i) ensures i < |a| {
      WroteIsString(log, j, pid, page, i);
      if |a| < tam {
        LayersAt(log, pid, page, tam, |a|);
        assert !WroteByte(log, j, pid, page, |a|);
      }
    }
  }

  lemma OneAnswer(log: seq<Request>, pid: nat, page: nat, a: seq<byte>, b: seq<byte>)
    requires AnswersWith(log, pid, page, a) && AnswersWith(log, pid, page, b)
    ensures |a| <= |b| && a == b[..|a|]
  {
    forall i | 0 <= i < |a| ensures i < |b| && a[i] == b[i] {
      assert LastByte(log, pid, page, i, a[i]);
      var j :| 0 <= j < |log| && LastWrote(log, j, pid, page, i) && a[i] == log[j].content[i];
      assert i < |b| && LastByte(log, pid, page, i, b[i]);
    }
    assert a != [] ==> LastByte(log, pid, page, |a| - 1, a[|a| - 1]);
  }

  /** In every run of valid requests a read that reaches its process answers, for each position some
      string reached since the process was started, with the byte of the last one that did, and with
      nothing more. */
  lemma ReadIsHistory(n: nat, tam: nat, limit: nat, reqs: seq<Request>, pid: nat, page: nat)
    requires AllValid(Abs(Empty(n, tam)), reqs + [Leer(pid, page)], tam)
    requires var t := TableAfter(Empty(n, tam), reqs, tam, limit); n <= limit + 1 || Search(t, pid, |t|) <= limit
    ensures var all := Replies(Empty(n, tam), reqs + [Leer(pid, page)], tam, limit);
            && |all| == |reqs| + 1
            && forall a :: all[|reqs|] == Content(a) <==> AnswersWith(reqs, pid, page, a)
  {
    var s, t, h := Empty(n, tam), TableAfter(Empty(n, tam), reqs, tam, limit), Strings(reqs, pid, page);
    EmptyOk(n, tam);
    RunTracks(s, [], reqs, Leer(pid, page), tam, limit);
    assert [] + reqs == reqs;
    ReadTarget(t, pid, page, tam);
    ReadPageIs(t, pid, page, limit);
    LayersAnswer(reqs, pid, page, tam);
    var due := CString(Layers(h, tam));
    forall a | AnswersWith(reqs, pid, page, a) ensures a == due {
      OneAnswer(reqs, pid, page, a, due);
      OneAnswer(reqs, pid, page, due, a);
    }
  }

  // ---------------------------------------------------------------- a run that reads something else

  function TwoLetters(tam: nat): Page
    requires tam > 1
  {
    Zeros(tam)[0 := 1][1 := 1]
  }

  /** A string of two letters, then one of one. */
  function Shortening(tam: nat): seq<Request>
    requires tam > 1
  {
    [Iniciar(1, 1), Escribir(1, 0, TwoLetters(tam)), Escribir(1, 0, Letter(tam))]
  }

  lemma LettersAre(tam: nat)
    requires tam > 1
    ensures StrLen(TwoLetters(tam)) == 2 && StrLen(Letter(tam)) == 1
  {
    StrLenIs(TwoLetters(tam), 2);
    StrLenIs(Letter(tam), 1);
  }

  lemma ShorteningStrings(log: seq<Request>, c: Page, e: Page)
    ensures Strings(log + [Iniciar(1, 1)] + [Escribir(1, 0, c)] + [Escribir(1, 0, e)], 1, 0) == [c, e]
  {
    StringsMore(log, Iniciar(1, 1), 1, 0);
    StringsMore(log + [Iniciar(1, 1)], Escribir(1, 0, c), 1, 0);
    StringsMore(log + [Iniciar(1, 1)] + [Escribir(1, 0, c)], Escribir(1, 0, e), 1, 0);
  }

  lemma ShorteningValid(m: Store, c: Page, e: Page, tam: nat)
    requires m.mem == map[] && m.free > 0 && |c| == |e| == tam
    ensures AllValid(m, [Iniciar(1, 1), Escribir(1, 0, c), Escribir(1, 0, e), Leer(1, 0)], tam)
  {
    var m1 := Plain(m, Iniciar(1, 1), tam).0;
    assert m1.mem == map[1 := Fresh(1, tam)];
    var m2 := Plain(m1, Escribir(1, 0, c), tam).0;
    assert 1 in m2.mem && |m2.mem[1]| == 1;
    var m3 := Plain(m2, Escribir(1, 0, e), tam).0;
    assert 1 in m3.mem && |m3.mem[1]| == 1;
    WitnessValid(m, [Iniciar(1, 1), Escribir(1, 0, c), Escribir(1, 0, e), Leer(1, 0)], tam);
  }

  /** The second letter of the longer string shows through. */
  lemma ShorterWriteShowsThrough(n: nat, tam: nat, limit: nat)
    requires 0 < n <= limit + 1 && tam > 1
    ensures var all := Replies(Empty(n, tam), Shortening(tam) + [Leer(1, 0)], tam, limit);
            |all| == 4 && all[3] != Content(CString(Letter(tam)))
  {
    var run, c, e := Shortening(tam), TwoLetters(tam), Letter(tam);
    EmptyOk(n, tam);
    ShorteningValid(Abs(Empty(n, tam)), c, e, tam);
    assert run + [Leer(1, 0)] == [Iniciar(1, 1), Escribir(1, 0, c), Escribir(1, 0, e), Leer(1, 0)];
    ShorteningStrings([], c, e);
    assert run == [] + [Iniciar(1, 1)] + [Escribir(1, 0, c)] + [Escribir(1, 0, e)];
    LettersAre(tam);
    assert !LastIsLongest([c, e]) by {
      assert StrLen([c, e][0]) == 2;
    }
    ReadsLastWriteInReach(n, tam, limit, run, 1, 0);
  }
}
