/** The swap area as a value: one slot per page frame of the swap file, with the owner's entry
    in the bitmap and the page content that sits there. */
module SwapTable {
  import opened Bytes

  type Page = seq<byte>

  const NO_PID: int := -1

  datatype Slot = Slot(pid: int, used: bool, page: Page)

  type Slots = seq<Slot>

  function FreeSlot(tam: nat): Slot {
    Slot(NO_PID, false, Zeros(tam))
  }

  ghost predicate SlotOk(x: Slot, tam: nat) {
    |x.page| == tam && (if x.used then 0 <= x.pid else x == FreeSlot(tam))
  }

  /** A process's slots are one run. */
  ghost predicate Contiguous(s: Slots) {
    forall i, j, k :: 0 <= i < j < k < |s| && s[i].used && s[i].pid == s[k].pid ==> s[j].pid == s[i].pid
  }

  ghost predicate Ok(s: Slots, tam: nat) {
    (forall i :: 0 <= i < |s| ==> SlotOk(s[i], tam)) && Contiguous(s)
  }

  // ---------------------------------------------------------------- what processes see

  /** The pages of a process, in order. */
  function PagesOf(s: Slots, pid: int): seq<Page> {
    if s == [] then [] else (if s[0].pid == pid then [s[0].page] else []) + PagesOf(s[1..], pid)
  }

  function FreeCount(s: Slots): (n: nat)
    ensures n <= |s|
  {
    if s == [] then 0 else (if s[0].used then 0 else 1) + FreeCount(s[1..])
  }

  /** The search loop from slot `i` on: the first slot of the process, or `limit`. */
  function SearchFrom(s: Slots, pid: nat, i: nat, limit: nat): (r: nat)
    requires i <= limit
    ensures i <= r <= limit && (r < limit ==> r < |s| && s[r].pid == pid)
    ensures forall a :: i <= a < r && a < |s| ==> s[a].pid != pid
    decreases limit - i
  {
    if i == limit || (i < |s| && s[i].pid == pid) then i else SearchFrom(s, pid, i + 1, limit)
  }

  function Search(s: Slots, pid: nat, limit: nat): nat {
    SearchFrom(s, pid, 0, limit)
  }

  lemma {:induction false} PagesOfConcat(a: Slots, b: Slots, pid: nat)
    ensures PagesOf(a + b, pid) == PagesOf(a, pid) + PagesOf(b, pid)
    decreases |a|
  {
    if a == [] {
      assert a + b == b;
    } else {
      assert (a + b)[0] == a[0] && (a + b)[1..] == a[1..] + b;
      PagesOfConcat(a[1..], b, pid);
    }
  }

  lemma {:induction false} PagesOfNone(s: Slots, pid: nat)
    requires forall i :: 0 <= i < |s| ==> s[i].pid != pid
    ensures PagesOf(s, pid) == []
  {
    if s != [] {
      PagesOfNone(s[1..], pid);
    }
  }

  lemma {:induction false} PagesOfSome(s: Slots, pid: nat, i: nat)
    requires i < |s| && s[i].pid == pid
    ensures PagesOf(s, pid) != []
  {
    if i > 0 {
      PagesOfSome(s[1..], pid, i - 1);
    }
  }

  /** With contiguous runs, page `k` of a process sits `k` slots after its first one. */
  lemma {:induction false} PageAt(s: Slots, pid: nat, a: nat, k: nat)
    requires (forall i :: 0 <= i < |s| && s[i].pid == pid ==> s[i].used) && Contiguous(s)
    requires a < |s| && s[a].pid == pid && forall i :: 0 <= i < a ==> s[i].pid != pid
    requires k < |PagesOf(s, pid)|
    ensures a + k < |s| && s[a + k].pid == pid && s[a + k].page == PagesOf(s, pid)[k]
    decreases |s|
  {
    var t := s[1..];
    if a > 0 {
      PageAt(t, pid, a - 1, k);
    } else if k > 0 {
      if t == [] || t[0].pid != pid {
        forall i | 0 <= i < |t| ensures t[i].pid != pid {
          assert t[i] == s[i + 1];
        }
        PagesOfNone(t, pid);
        assert false;
      }
      PageAt(t, pid, 0, k - 1);
    }
  }

  /** A table around one of its slots. */
  lemma PagesAround(x: Slots, e: Slot, y: Slots, q: nat)
    ensures PagesOf(x + ([e] + y), q) == PagesOf(x, q) + ((if e.pid == q then [e.page] else []) + PagesOf(y, q))
  {
    PagesOfConcat(x, [e] + y, q);
    assert ([e] + y)[0] == e && ([e] + y)[1..] == y;
  }

  lemma {:induction false} AllOfOne(s: Slots, pid: nat)
    requires forall j :: 0 <= j < |s| ==> s[j].pid == pid
    ensures |PagesOf(s, pid)| == |s|
  {
    if s != [] {
      AllOfOne(s[1..], pid);
    }
  }

  /** Once its run has begun, a process has as many pages as slots. */
  lemma RunLength(s: Slots, pid: nat, a: nat)
    requires a <= |s| && (forall j :: 0 <= j < a ==> s[j].pid != pid) && forall j :: a <= j < |s| ==> s[j].pid == pid
    ensures |PagesOf(s, pid)| == |s| - a
  {
    assert s == s[..a] + s[a..];
    PagesOfConcat(s[..a], s[a..], pid);
    PagesOfNone(s[..a], pid);
    AllOfOne(s[a..], pid);
  }

  lemma MiddleUpdate(p: seq<Page>, x: Page, r: seq<Page>, page: Page)
    ensures (p + ([x] + r))[|p| := page] == p + ([page] + r)
  {
  }

  /** Changing the content of one page of a process changes that page of its list, and nothing
      for anyone else. */
  lemma PagesOfUpdate(s: Slots, pid: nat, a: nat, k: nat, page: Page, q: nat)
    requires a + k < |s| && forall j :: 0 <= j < a ==> s[j].pid != pid
    requires forall j :: a <= j <= a + k ==> s[j].pid == pid
    ensures k < |PagesOf(s, pid)|
    ensures PagesOf(s[a + k := s[a + k].(page := page)], q)
         == if q == pid then PagesOf(s, pid)[k := page] else PagesOf(s, q)
  {
    var i := a + k;
    var x, e, y := s[..i], s[i], s[i + 1..];
    assert s == x + ([e] + y);
    assert s[i := e.(page := page)] == x + ([e.(page := page)] + y);
    RunLength(x, pid, a);
    PagesAround(x, e, y, pid);
    PagesAround(x, e, y, q);
    PagesAround(x, e.(page := page), y, q);
    MiddleUpdate(PagesOf(x, pid), e.page, PagesOf(y, pid), page);
  }

  // ---------------------------------------------------------------- compaction

  function UsedOf(s: Slots): Slots {
    if s == [] then [] else (if s[0].used then [s[0]] else []) + UsedOf(s[1..])
  }

  function FreeOf(s: Slots): Slots {
    if s == [] then [] else (if s[0].used then [] else [s[0]]) + FreeOf(s[1..])
  }

  /** The stable partition: occupied slots in their order, then the free ones in theirs. */
  function Compacted(s: Slots): Slots {
    UsedOf(s) + FreeOf(s)
  }

  lemma {:induction false} UsedConcat(a: Slots, b: Slots)
    ensures UsedOf(a + b) == UsedOf(a) + UsedOf(b)
    decreases |a|
  {
    if a == [] {
      assert a + b == b;
    } else {
      assert (a + b)[0] == a[0] && (a + b)[1..] == a[1..] + b;
      UsedConcat(a[1..], b);
      var h := if a[0].used then [a[0]] else [];
      assert h + (UsedOf(a[1..]) + UsedOf(b)) == (h + UsedOf(a[1..])) + UsedOf(b);
    }
  }

  lemma {:induction false} FreeConcat(a: Slots, b: Slots)
    ensures FreeOf(a + b) == FreeOf(a) + FreeOf(b)
    decreases |a|
  {
    if a == [] {
      assert a + b == b;
    } else {
      assert (a + b)[0] == a[0] && (a + b)[1..] == a[1..] + b;
      FreeConcat(a[1..], b);
      var h := if a[0].used then [] else [a[0]];
      assert h + (FreeOf(a[1..]) + FreeOf(b)) == (h + FreeOf(a[1..])) + FreeOf(b);
    }
  }

  lemma FiltersConcat(a: Slots, b: Slots)
    ensures UsedOf(a + b) == UsedOf(a) + UsedOf(b) && FreeOf(a + b) == FreeOf(a) + FreeOf(b)
  {
    UsedConcat(a, b);
    FreeConcat(a, b);
  }

  /** Swapping a free slot with the occupied one after it keeps both orders. */
  lemma SwapKeepsFilters(s: Slots, i: nat)
    requires i + 1 < |s| && !s[i].used && s[i + 1].used
    ensures var t := s[i := s[i + 1]][i + 1 := s[i]]; UsedOf(t) == UsedOf(s) && FreeOf(t) == FreeOf(s)
  {
    var t := s[i := s[i + 1]][i + 1 := s[i]];
    var a, b := s[..i], s[i + 2..];
    assert s == a + ([s[i], s[i + 1]] + b) && t == a + ([s[i + 1], s[i]] + b);
    FiltersConcat(a, [s[i], s[i + 1]] + b);
    FiltersConcat(a, [s[i + 1], s[i]] + b);
    FiltersConcat([s[i], s[i + 1]], b);
    FiltersConcat([s[i + 1], s[i]], b);
    assert [s[i], s[i + 1]][1..] == [s[i + 1]] && [s[i + 1], s[i]][1..] == [s[i]];
  }

  /** Slot `b` is free when any slot before it is. */
  ghost predicate Settled(s: Slots, b: nat)
    requires b < |s|
  {
    forall a :: 0 <= a < b && !s[a].used ==> !s[b].used
  }

  /** Moving the free slot up settles the place it moves to and unsettles none past `from`. */
  lemma SwapSettles(s: Slots, i: nat, from: nat)
    requires i + 1 < |s| && !s[i].used && s[i + 1].used && forall b :: from <= b < |s| ==> Settled(s, b)
    ensures var t := s[i := s[i + 1]][i + 1 := s[i]];
            Settled(t, i + 1) && i + 1 < from && forall b :: from <= b < |s| ==> Settled(t, b)
  {
    var t := s[i := s[i + 1]][i + 1 := s[i]];
    assert i + 1 >= from ==> Settled(s, i + 1);
    forall b | from <= b < |s| ensures Settled(t, b) {
      assert Settled(s, b);
    }
  }

  lemma {:induction false} SettledIsCompacted(s: Slots)
    requires forall b :: 0 <= b < |s| ==> Settled(s, b)
    ensures s == Compacted(s)
    decreases |s|
  {
    if s != [] {
      var n := |s| - 1;
      forall b | 0 <= b < n ensures Settled(s[..n], b) {
        assert Settled(s, b);
      }
      SettledIsCompacted(s[..n]);
      assert s == s[..n] + [s[n]];
      if s[n].used {
        assert Settled(s, n);
        AllUsed(s[..n]);
      }
      OneAtEnd(s[..n], s[n]);
    }
  }

  /** A free slot may follow any partition; a used one only used slots. */
  lemma OneAtEnd(t: Slots, x: Slot)
    requires t == Compacted(t) && (x.used ==> FreeOf(t) == [])
    ensures t + [x] == Compacted(t + [x])
  {
    var u, f := UsedOf(t), FreeOf(t);
    FiltersConcat(t, [x]);
    OneSlot(x);
    if x.used {
      assert t == u && f + [] == [] && (u + [x]) + [] == u + [x];
    } else {
      assert u + [] == u && u + (f + [x]) == (u + f) + [x];
    }
  }

  lemma OneSlot(x: Slot)
    ensures UsedOf([x]) == (if x.used then [x] else []) && FreeOf([x]) == if x.used then [] else [x]
  {
  }

  lemma {:induction false} AllUsed(s: Slots)
    requires forall i :: 0 <= i < |s| ==> s[i].used
    ensures UsedOf(s) == s && FreeOf(s) == []
  {
    if s != [] {
      AllUsed(s[1..]);
      assert s == [s[0]] + s[1..];
    }
  }

  lemma {:induction false} FilterFacts(s: Slots, tam: nat)
    requires forall i :: 0 <= i < |s| ==> SlotOk(s[i], tam)
    ensures forall i :: 0 <= i < |UsedOf(s)| ==> UsedOf(s)[i].used && SlotOk(UsedOf(s)[i], tam)
    ensures forall i :: 0 <= i < |FreeOf(s)| ==> FreeOf(s)[i] == FreeSlot(tam)
    ensures |FreeOf(s)| == FreeCount(s) && |UsedOf(s)| + |FreeOf(s)| == |s|
  {
    if s != [] {
      FilterFacts(s[1..], tam);
      assert SlotOk(s[0], tam);
    }
  }

  lemma {:induction false} UsedHasPages(s: Slots, tam: nat, q: nat)
    requires forall i :: 0 <= i < |s| ==> SlotOk(s[i], tam)
    ensures PagesOf(UsedOf(s), q) == PagesOf(s, q)
  {
    if s != [] {
      UsedHasPages(s[1..], tam, q);
      assert SlotOk(s[0], tam);
      var u := UsedOf(s[1..]);
      if s[0].used {
        OneInFront(s[0], u, q);
      } else {
        assert UsedOf(s) == u;
      }
    }
  }

  lemma OneInFront(x: Slot, s: Slots, q: nat)
    ensures PagesOf([x] + s, q) == (if x.pid == q then [x.page] else []) + PagesOf(s, q)
  {
    var t := [x] + s;
    assert t[0] == x && t[1..] == s;
  }

  /** Where the `k`-th occupied slot sits. */
  ghost function Origin(s: Slots, k: nat): (i: nat)
    requires k < |UsedOf(s)|
    ensures i < |s| && s[i] == UsedOf(s)[k]
    decreases |s|
  {
    if s[0].used then (if k == 0 then 0 else 1 + Origin(s[1..], k - 1))
    else assert UsedOf(s) == UsedOf(s[1..]); 1 + Origin(s[1..], k)
  }

  /** Order is kept: later occupied slots come from later slots. */
  lemma {:induction false} OriginIncreases(s: Slots, j: nat, k: nat)
    requires j < k < |UsedOf(s)|
    ensures Origin(s, j) < Origin(s, k)
    decreases |s|
  {
    if !s[0].used {
      assert UsedOf(s) == UsedOf(s[1..]);
      OriginIncreases(s[1..], j, k);
    } else if j > 0 {
      OriginIncreases(s[1..], j - 1, k - 1);
    }
  }

  lemma UsedContiguous(s: Slots)
    requires Contiguous(s)
    ensures Contiguous(UsedOf(s))
  {
    var f := UsedOf(s);
    forall i, j, k | 0 <= i < j < k < |f| && f[i].used && f[i].pid == f[k].pid ensures f[j].pid == f[i].pid {
      OriginIncreases(s, i, j);
      OriginIncreases(s, j, k);
    }
  }

  /** Compaction keeps the swap area sound, changes nobody's pages, and leaves all the free
      slots in one run at the end. */
  lemma CompactedOk(s: Slots, tam: nat)
    requires Ok(s, tam)
    ensures Ok(Compacted(s), tam) && |Compacted(s)| == |s| && FreeCount(Compacted(s)) == FreeCount(s)
    ensures forall q: nat :: PagesOf(Compacted(s), q) == PagesOf(s, q)
    ensures forall i :: |s| - FreeCount(s) <= i < |s| ==> !Compacted(s)[i].used
  {
    var u, f := UsedOf(s), FreeOf(s);
    FilterFacts(s, tam);
    UsedContiguous(s);
    var c := u + f;
    forall i, j, k | 0 <= i < j < k < |c| && c[i].used && c[i].pid == c[k].pid ensures c[j].pid == c[i].pid {
      assert SlotOk(c[i], tam);
      assert k < |u|;
      assert c[i] == u[i] && c[j] == u[j] && c[k] == u[k];
    }
    forall q: nat ensures PagesOf(c, q) == PagesOf(s, q) {
      PagesOfConcat(u, f, q);
      PagesOfNone(f, q);
      UsedHasPages(s, tam, q);
    }
    FreeCountConcat(u, f);
    AllUsedCount(u);
    AllFreeCount(f);
  }

  lemma {:induction false} FreeCountConcat(a: Slots, b: Slots)
    ensures FreeCount(a + b) == FreeCount(a) + FreeCount(b)
    decreases |a|
  {
    if a == [] {
      assert a + b == b;
    } else {
      assert (a + b)[0] == a[0] && (a + b)[1..] == a[1..] + b;
      FreeCountConcat(a[1..], b);
    }
  }

  lemma {:induction false} AllUsedCount(s: Slots)
    requires forall i :: 0 <= i < |s| ==> s[i].used
    ensures FreeCount(s) == 0
  {
    if s != [] {
      AllUsedCount(s[1..]);
    }
  }

  lemma {:induction false} AllFreeCount(s: Slots)
    requires forall i :: 0 <= i < |s| ==> !s[i].used
    ensures FreeCount(s) == |s|
  {
    if s != [] {
      AllFreeCount(s[1..]);
    }
  }
}
