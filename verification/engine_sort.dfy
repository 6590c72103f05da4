/** The bring-to-front and send-to-back handlers as the code writes them: an
    `Array.prototype.sort` with a comparator that looks only at its first
    argument, followed by renumbering. Such a comparator is not a consistent
    order, so the result depends on the host's sorting algorithm. This module
    models the algorithm of the V8 engine for arrays of fewer than 64
    elements (one natural run found by `CountAndMakeRun`, extended by binary
    insertion sort) and proves what it makes of the two comparators. */
module EngineSort {
  import opened Common
  import opened DomStrip

  /** A sort comparator: a negative result puts `a` before `b`. */
  type Comparator = (Element, Element) -> int

  /** The comparator of bring-to-front: `a.id === id ? 1 : -1`. */
  function FrontCompare(id: string): Comparator {
    (a: Element, b: Element) => if a.id == id then 1 else -1
  }

  /** The comparator of send-to-back: `a.id === id ? -1 : 1`. */
  function BackCompare(id: string): Comparator {
    (a: Element, b: Element) => if a.id == id then -1 else 1
  }

  function Reverse<T>(s: seq<T>): (r: seq<T>)
    ensures |r| == |s|
  {
    if |s| == 0 then [] else Reverse(s[1..]) + [s[0]]
  }

  lemma {:induction false} ReversePermutes<T>(s: seq<T>)
    ensures multiset(Reverse(s)) == multiset(s)
    decreases |s|
  {
    if |s| > 0 {
      ReversePermutes(s[1..]);
      assert s == [s[0]] + s[1..];
    }
  }

  // ---------------------------------------------------------------------
  // The V8 algorithm
  // ---------------------------------------------------------------------

  /** Binary search for where `pivot` goes in the sorted `s[left..right]`:
      past every element it does not compare below, so equal elements keep
      their order. */
  function InsertionPoint(s: seq<Element>, pivot: Element, cmp: Comparator, left: nat, right: nat): (p: nat)
    requires left <= right <= |s|
    ensures left <= p <= right
    decreases right - left
  {
    if left >= right then left
    else
      var mid := left + (right - left) / 2;
      if cmp(pivot, s[mid]) < 0 then InsertionPoint(s, pivot, cmp, left, mid)
      else InsertionPoint(s, pivot, cmp, mid + 1, right)
  }

  /** Binary insertion sort of `s[start..]` into the sorted prefix `s[..start]`. */
  function InsertionSortFrom(s: seq<Element>, cmp: Comparator, start: nat): (r: seq<Element>)
    requires start <= |s|
    ensures |r| == |s|
    decreases |s| - start
  {
    if start == |s| then s
    else
      var pivot := s[start];
      var pos := InsertionPoint(s, pivot, cmp, 0, start);
      InsertionSortFrom(s[..pos] + [pivot] + s[pos..start] + s[start + 1..], cmp, start + 1)
  }

  /** End of the natural run that starts at the beginning of `s`: it goes on
      while each element compares below its predecessor (a descending run)
      or not below it (an ascending run). */
  function RunEnd(s: seq<Element>, cmp: Comparator, descending: bool, k: nat): (e: nat)
    requires 2 <= k <= |s|
    ensures k <= e <= |s|
    ensures forall j :: k <= j < e ==> Continues(s, cmp, descending, j)
    ensures e < |s| ==> !Continues(s, cmp, descending, e)
    decreases |s| - k
  {
    if k == |s| then k
    else if (cmp(s[k], s[k - 1]) < 0) != descending then k
    else RunEnd(s, cmp, descending, k + 1)
  }

  /** Element `j` carries on a run in the given direction. */
  predicate Continues(s: seq<Element>, cmp: Comparator, descending: bool, j: nat)
    requires 1 <= j < |s|
  {
    cmp(s[j], s[j - 1]) < 0 <==> descending
  }

  /** `CountAndMakeRun`: finds the leading run and reverses it when it is
      descending. Returns the rearranged list and the run's length. */
  function MakeRun(s: seq<Element>, cmp: Comparator): (r: (seq<Element>, nat))
    requires |s| >= 2
    ensures |r.0| == |s| && 2 <= r.1 <= |s|
  {
    var descending := cmp(s[1], s[0]) < 0;
    var n := RunEnd(s, cmp, descending, 2);
    if descending then (Reverse(s[..n]) + s[n..], n) else (s, n)
  }

  /** V8's sort for fewer than 64 elements. Whatever the comparator, it
      only rearranges the list. */
  function HostSort(s: seq<Element>, cmp: Comparator): (r: seq<Element>)
    requires |s| < 64
    ensures |r| == |s| && multiset(r) == multiset(s)
  {
    if |s| < 2 then s
    else
      var (t, n) := MakeRun(s, cmp);
      MakeRunPermutes(s, cmp);
      InsertionSortPermutes(t, cmp, n);
      InsertionSortFrom(t, cmp, n)
  }

  /** Making the leading run only rearranges the list. */
  lemma MakeRunPermutes(s: seq<Element>, cmp: Comparator)
    requires |s| >= 2
    ensures multiset(MakeRun(s, cmp).0) == multiset(s)
  {
    var n := MakeRun(s, cmp).1;
    ReversePermutes(s[..n]);
    assert s == s[..n] + s[n..];
  }

  /** Binary insertion only rearranges the list. */
  lemma {:induction false} InsertionSortPermutes(s: seq<Element>, cmp: Comparator, start: nat)
    requires start <= |s|
    ensures multiset(InsertionSortFrom(s, cmp, start)) == multiset(s)
    decreases |s| - start
  {
    if start < |s| {
      var pivot := s[start];
      var pos := InsertionPoint(s, pivot, cmp, 0, start);
      var t := s[..pos] + [pivot] + s[pos..start] + s[start + 1..];
      assert s == s[..pos] + s[pos..start] + [pivot] + s[start + 1..];
      InsertionSortPermutes(t, cmp, start + 1);
    }
  }

  /** `bringToFront` as written. */
  function HostBringToFront(stickers: seq<Element>, id: string): (r: seq<Element>)
    requires |stickers| < 64
    ensures |r| == |stickers|
    ensures forall k :: 0 <= k < |r| ==> r[k].zIndex == k + 1
  {
    Renumber(HostSort(stickers, FrontCompare(id)))
  }

  /** `sendToBack` as written. */
  function HostSendToBack(stickers: seq<Element>, id: string): (r: seq<Element>)
    requires |stickers| < 64
    ensures |r| == |stickers|
    ensures forall k :: 0 <= k < |r| ==> r[k].zIndex == k + 1
  {
    Renumber(HostSort(stickers, BackCompare(id)))
  }

  // ---------------------------------------------------------------------
  // What V8's sort makes of a comparator that ignores its second argument
  // ---------------------------------------------------------------------

  /** The elements of `s` on which `low` is `want`, in order. */
  function Pick(s: seq<Element>, low: Element -> bool, want: bool): (r: seq<Element>)
    ensures |r| <= |s|
  {
    if |s| == 0 then []
    else (if low(s[0]) == want then [s[0]] else []) + Pick(s[1..], low, want)
  }

  lemma {:induction false} PickAppend(a: seq<Element>, b: seq<Element>, low: Element -> bool, want: bool)
    ensures Pick(a + b, low, want) == Pick(a, low, want) + Pick(b, low, want)
    decreases |a|
  {
    if |a| > 0 {
      assert (a + b)[1..] == a[1..] + b;
      PickAppend(a[1..], b, low, want);
    } else {
      assert a + b == b;
    }
  }

  lemma {:induction false} PickUniform(s: seq<Element>, low: Element -> bool, want: bool)
    requires forall j :: 0 <= j < |s| ==> low(s[j]) == want
    ensures Pick(s, low, want) == s && Pick(s, low, !want) == []
    decreases |s|
  {
    if |s| > 0 {
      PickUniform(s[1..], low, want);
    }
  }

  lemma {:induction false} ReverseAppend<T>(a: seq<T>, b: seq<T>)
    ensures Reverse(a + b) == Reverse(b) + Reverse(a)
    decreases |a|
  {
    if |a| > 0 {
      assert (a + b)[1..] == a[1..] + b;
      ReverseAppend(a[1..], b);
    } else {
      assert a + b == b;
    }
  }

  /** `cmp` puts `a` first exactly when `low(a)`, whatever `b` is. */
  ghost predicate DecidedBy(cmp: Comparator, low: Element -> bool) {
    forall a: Element, b: Element :: cmp(a, b) < 0 <==> low(a)
  }

  lemma FrontDecided(id: string)
    ensures DecidedBy(FrontCompare(id), (e: Element) => e.id != id)
  {
  }

  lemma BackDecided(id: string)
    ensures DecidedBy(BackCompare(id), (e: Element) => e.id == id)
  {
  }

  /** The binary search sends a low pivot to the left end and any other
      pivot to the right end. */
  lemma {:induction false} InsertionPointEnds(s: seq<Element>, pivot: Element, cmp: Comparator, low: Element -> bool, left: nat, right: nat)
    requires left <= right <= |s| && DecidedBy(cmp, low)
    ensures InsertionPoint(s, pivot, cmp, left, right) == if low(pivot) then left else right
    decreases right - left
  {
    if left < right {
      var mid := left + (right - left) / 2;
      assert cmp(pivot, s[mid]) < 0 <==> low(pivot);
      if low(pivot) {
        InsertionPointEnds(s, pivot, cmp, low, left, mid);
      } else {
        InsertionPointEnds(s, pivot, cmp, low, mid + 1, right);
      }
    }
  }

  /** Insertion of each remaining element puts low elements at the very
      front, so they end up reversed, and the others at the end of the
      sorted prefix, in order. */
  lemma {:induction false} InsertionSortSplits(p: seq<Element>, rest: seq<Element>, cmp: Comparator, low: Element -> bool)
    requires DecidedBy(cmp, low)
    ensures InsertionSortFrom(p + rest, cmp, |p|) == Reverse(Pick(rest, low, true)) + p + Pick(rest, low, false)
    decreases |rest|
  {
    if |rest| == 0 {
      assert p + rest == p;
    } else {
      var pivot, tail := rest[0], rest[1..];
      var lowTail, highTail := Pick(tail, low, true), Pick(tail, low, false);
      if low(pivot) {
        InsertLow(p, rest, cmp, low);
        InsertionSortSplits([pivot] + p, tail, cmp, low);
        assert Pick(rest, low, true) == [pivot] + lowTail;
        assert Pick(rest, low, false) == highTail;
        ReverseAppend([pivot], lowTail);
        assert Reverse([pivot]) == [pivot];
        Regroup(Reverse(lowTail), [pivot], p, highTail);
      } else {
        InsertHigh(p, rest, cmp, low);
        InsertionSortSplits(p + [pivot], tail, cmp, low);
        assert Pick(rest, low, true) == lowTail;
        assert Pick(rest, low, false) == [pivot] + highTail;
        Regroup(Reverse(lowTail), p, [pivot], highTail);
      }
    }
  }

  /** One insertion step with a low pivot: it goes to the front of the
      sorted prefix. */
  lemma InsertLow(p: seq<Element>, rest: seq<Element>, cmp: Comparator, low: Element -> bool)
    requires |rest| >= 1 && DecidedBy(cmp, low) && low(rest[0])
    ensures InsertionSortFrom(p + rest, cmp, |p|) == InsertionSortFrom(([rest[0]] + p) + rest[1..], cmp, |p| + 1)
  {
    var s := p + rest;
    InsertionPointEnds(s, rest[0], cmp, low, 0, |p|);
    assert s[|p|] == rest[0];
    var next := s[..0] + [rest[0]] + s[0..|p|] + s[|p| + 1..];
    assert InsertionSortFrom(s, cmp, |p|) == InsertionSortFrom(next, cmp, |p| + 1);
    SpliceFront(p, rest);
  }

  /** One insertion step with a pivot that is not low: it goes to the end
      of the sorted prefix. */
  lemma InsertHigh(p: seq<Element>, rest: seq<Element>, cmp: Comparator, low: Element -> bool)
    requires |rest| >= 1 && DecidedBy(cmp, low) && !low(rest[0])
    ensures InsertionSortFrom(p + rest, cmp, |p|) == InsertionSortFrom((p + [rest[0]]) + rest[1..], cmp, |p| + 1)
  {
    var s := p + rest;
    InsertionPointEnds(s, rest[0], cmp, low, 0, |p|);
    assert s[|p|] == rest[0];
    assert s[..|p|] + [rest[0]] + s[|p|..|p|] + s[|p| + 1..] == (p + [rest[0]]) + rest[1..];
  }

  /** The splice of an insertion at position 0, rewritten. */
  lemma SpliceFront<T>(p: seq<T>, rest: seq<T>)
    requires |rest| >= 1
    ensures var s := p + rest;
      s[..0] + [rest[0]] + s[0..|p|] + s[|p| + 1..] == ([rest[0]] + p) + rest[1..]
  {
    var s := p + rest;
    assert s[..0] == [] && s[0..|p|] == p && s[|p| + 1..] == rest[1..];
  }

  lemma Regroup(a: seq<Element>, b: seq<Element>, c: seq<Element>, d: seq<Element>)
    ensures a + (b + c) + d == (a + b) + c + d
    ensures a + (b + c) + d == (a + b) + (c + d)
  {
  }

  /** A leading run is already in final shape: reversed when its tail is
      low, as is when its tail is not. */
  lemma RunInShape(run: seq<Element>, low: Element -> bool, tailLow: bool)
    requires |run| >= 1
    requires forall j :: 1 <= j < |run| ==> low(run[j]) == tailLow
    ensures tailLow ==> Reverse(run) == Reverse(Pick(run, low, true)) + Pick(run, low, false)
    ensures !tailLow ==> run == Reverse(Pick(run, low, true)) + Pick(run, low, false)
  {
    var head, tail := [run[0]], run[1..];
    assert run == head + tail;
    RunPicks(run, low, tailLow);
    assert Reverse(head) == head by { assert head[1..] == []; }
    if tailLow && low(run[0]) {
      assert Reverse(run) + [] == Reverse(run);
    } else if tailLow {
      ReverseAppend(head, tail);
    } else if low(run[0]) {
      assert Reverse(Pick(run, low, true)) == head;
    } else {
      assert [] + run == run;
    }
  }

  /** How a run whose tail is uniform splits between the two sides. */
  lemma RunPicks(run: seq<Element>, low: Element -> bool, tailLow: bool)
    requires |run| >= 1
    requires forall j :: 1 <= j < |run| ==> low(run[j]) == tailLow
    ensures low(run[0]) && tailLow ==> Pick(run, low, true) == run && Pick(run, low, false) == []
    ensures low(run[0]) && !tailLow ==> Pick(run, low, true) == [run[0]] && Pick(run, low, false) == run[1..]
    ensures !low(run[0]) && tailLow ==> Pick(run, low, true) == run[1..] && Pick(run, low, false) == [run[0]]
    ensures !low(run[0]) && !tailLow ==> Pick(run, low, true) == [] && Pick(run, low, false) == run
  {
    var head, tail := [run[0]], run[1..];
    assert run == head + tail;
    assert forall j :: 0 <= j < |tail| ==> low(tail[j]) == tailLow by {
      forall j | 0 <= j < |tail| ensures low(tail[j]) == tailLow {
        assert tail[j] == run[j + 1];
      }
    }
    PickUniform(tail, low, tailLow);
    PickSingle(run[0], low);
    PickAppend(head, tail, low, true);
    PickAppend(head, tail, low, false);
  }

  lemma PickSingle(x: Element, low: Element -> bool)
    ensures Pick([x], low, low(x)) == [x] && Pick([x], low, !low(x)) == []
  {
    assert [x][1..] == [];
  }

  /** Sorting what follows a leading run, whose tail is all low or all not
      low, and which is reversed first when its tail is low, puts the low
      elements first in reverse order and the others after them in order. */
  lemma SortAfterRun(run: seq<Element>, rest: seq<Element>, cmp: Comparator, low: Element -> bool, descending: bool)
    requires |run| >= 1 && DecidedBy(cmp, low)
    requires forall j :: 1 <= j < |run| ==> low(run[j]) == descending
    ensures InsertionSortFrom((if descending then Reverse(run) else run) + rest, cmp, |run|)
      == Reverse(Pick(run + rest, low, true)) + Pick(run + rest, low, false)
  {
    var p := if descending then Reverse(run) else run;
    var lowRun, highRun := Pick(run, low, true), Pick(run, low, false);
    var lowRest, highRest := Pick(rest, low, true), Pick(rest, low, false);
    RunInShape(run, low, descending);
    assert p == Reverse(lowRun) + highRun;
    InsertionSortSplits(p, rest, cmp, low);
    assert InsertionSortFrom(p + rest, cmp, |run|) == Reverse(lowRest) + p + highRest;
    PickAppend(run, rest, low, true);
    PickAppend(run, rest, low, false);
    ReverseAppend(lowRun, lowRest);
    Regroup(Reverse(lowRest), Reverse(lowRun), highRun, highRest);
  }

  /** For a comparator decided by its first argument alone, V8's
      sort puts the low elements first, in reverse order, and the others
      after them, in order. */
  lemma HostSortSplits(s: seq<Element>, cmp: Comparator, low: Element -> bool)
    requires |s| < 64 && DecidedBy(cmp, low)
    ensures HostSort(s, cmp) == Reverse(Pick(s, low, true)) + Pick(s, low, false)
  {
    if |s| == 0 {
    } else if |s| == 1 {
      PickSingle(s[0], low);
      assert Reverse(s) == s by { assert s[1..] == []; }
      assert s == [s[0]];
    } else {
      var descending := cmp(s[1], s[0]) < 0;
      var n := RunEnd(s, cmp, descending, 2);
      HostSortUnfolds(s, cmp, descending, n);
      RunIsUniform(s, cmp, low, descending, n);
      SortAfterRun(s[..n], s[n..], cmp, low, descending);
    }
  }

  /** V8's sort is insertion sort after the leading run, which is
      reversed first when it is descending. */
  lemma HostSortUnfolds(s: seq<Element>, cmp: Comparator, descending: bool, n: nat)
    requires 2 <= |s| < 64
    requires descending == (cmp(s[1], s[0]) < 0)
    requires n == RunEnd(s, cmp, descending, 2)
    ensures s[..n] + s[n..] == s
    ensures HostSort(s, cmp) == InsertionSortFrom((if descending then Reverse(s[..n]) else s[..n]) + s[n..], cmp, n)
  {
    assert s[..n] + s[n..] == s;
    if descending {
      assert MakeRun(s, cmp) == (Reverse(s[..n]) + s[n..], n);
    } else {
      assert MakeRun(s, cmp) == (s, n);
    }
  }

  /** Every element of the leading run after its first is low exactly when
      the run is descending. */
  lemma RunIsUniform(s: seq<Element>, cmp: Comparator, low: Element -> bool, descending: bool, n: nat)
    requires |s| >= 2 && DecidedBy(cmp, low)
    requires descending == (cmp(s[1], s[0]) < 0)
    requires n == RunEnd(s, cmp, descending, 2)
    ensures forall j :: 1 <= j < |s[..n]| ==> low(s[..n][j]) == descending
  {
    forall j | 1 <= j < n ensures low(s[j]) == descending {
      assert Continues(s, cmp, descending, j);
      assert cmp(s[j], s[j - 1]) < 0 <==> low(s[j]);
    }
  }

  /** `Pick` with a per-element test is the list's `Filter`. */
  lemma {:induction false} PickIsFilter(s: seq<Element>, id: string)
    ensures Pick(s, (e: Element) => e.id != id, true) == SplitById(s, id).1
    ensures Pick(s, (e: Element) => e.id != id, false) == SplitById(s, id).0
    ensures Pick(s, (e: Element) => e.id == id, true) == SplitById(s, id).0
    ensures Pick(s, (e: Element) => e.id == id, false) == SplitById(s, id).1
    decreases |s|
  {
    if |s| > 0 {
      PickIsFilter(s[1..], id);
    }
  }

  /** As written, bring-to-front does lift the stickers with the id to the
      top, in order, but also reverses the stacking order of all the others. */
  lemma HostBringToFrontReversesOthers(stickers: seq<Element>, id: string)
    requires |stickers| < 64
    ensures HostBringToFront(stickers, id) == Renumber(Reverse(SplitById(stickers, id).1) + SplitById(stickers, id).0)
  {
    FrontDecided(id);
    HostSortSplits(stickers, FrontCompare(id), (e: Element) => e.id != id);
    PickIsFilter(stickers, id);
  }

  /** As written, send-to-back lowers the stickers with the id, in reverse
      order, below all the others, whose order is kept. */
  lemma HostSendToBackReversesTargets(stickers: seq<Element>, id: string)
    requires |stickers| < 64
    ensures HostSendToBack(stickers, id) == Renumber(Reverse(SplitById(stickers, id).0) + SplitById(stickers, id).1)
  {
    BackDecided(id);
    HostSortSplits(stickers, BackCompare(id), (e: Element) => e.id == id);
    PickIsFilter(stickers, id);
  }

  /** With one sticker per id, as the application creates them, send-to-back
      as written agrees with the intended restacking. */
  lemma HostSendToBackAgreesForUniqueIds(stickers: seq<Element>, id: string)
    requires |stickers| < 64
    requires forall i, j :: 0 <= i < j < |stickers| ==> stickers[i].id != stickers[j].id
    ensures HostSendToBack(stickers, id) == SendToBack(stickers, id)
  {
    HostSendToBackReversesTargets(stickers, id);
    AtMostOneWithId(stickers, id);
    ReverseShort(SplitById(stickers, id).0);
  }

  lemma ReverseShort<T>(s: seq<T>)
    requires |s| <= 1
    ensures Reverse(s) == s
  {
    if |s| == 1 {
      assert s[1..] == [];
    }
  }

  /** With distinct ids at most one sticker carries `id`. */
  lemma AtMostOneWithId(stickers: seq<Element>, id: string)
    requires forall i, j :: 0 <= i < j < |stickers| ==> stickers[i].id != stickers[j].id
    ensures |SplitById(stickers, id).0| <= 1
  {
    var with := SplitById(stickers, id).0;
    if |with| >= 2 {
      SubsequencePositions(with, stickers);
    }
  }

  /** The first two elements of a subsequence sit at increasing positions of
      the full list. */
  lemma {:induction false} SubsequencePositions(a: seq<Element>, b: seq<Element>)
    requires IsSubsequence(a, b) && |a| >= 2
    ensures exists i, j :: 0 <= i < j < |b| && b[i] == a[0] && b[j] == a[1]
    decreases |b|
  {
    if a[0] == b[0] && IsSubsequence(a[1..], b[1..]) {
      SubsequenceHead(a[1..], b[1..]);
      var j :| 0 <= j < |b[1..]| && b[1..][j] == a[1];
      assert b[j + 1] == a[1];
    } else {
      SubsequencePositions(a, b[1..]);
      var i, j :| 0 <= i < j < |b[1..]| && b[1..][i] == a[0] && b[1..][j] == a[1];
      assert b[i + 1] == a[0] && b[j + 1] == a[1];
    }
  }

  /** The first element of a non-empty subsequence occurs in the full list. */
  lemma {:induction false} SubsequenceHead(a: seq<Element>, b: seq<Element>)
    requires IsSubsequence(a, b) && |a| >= 1
    ensures exists j :: 0 <= j < |b| && b[j] == a[0]
    decreases |b|
  {
    if a[0] == b[0] && IsSubsequence(a[1..], b[1..]) {
    } else {
      SubsequenceHead(a, b[1..]);
      var j :| 0 <= j < |b[1..]| && b[1..][j] == a[0];
      assert b[j + 1] == a[0];
    }
  }

  /** Three stickers `a`, `b`, `t`, bottom to top: bringing `t` to front as
      written swaps `a` and `b`, where the intended restacking leaves the
      list as it is. */
  lemma BringToFrontCounterexample()
    ensures var a := Element("a", 0, 0.0, 0.0, 0.0, 100.0, 100.0, 1);
      var b := Element("b", 0, 0.0, 0.0, 0.0, 100.0, 100.0, 2);
      var t := Element("t", 0, 0.0, 0.0, 0.0, 100.0, 100.0, 3);
      && HostBringToFront([a, b, t], "t") == [b.(zIndex := 1), a.(zIndex := 2), t]
      && BringToFront([a, b, t], "t") == [a, b, t]
  {
    var a := Element("a", 0, 0.0, 0.0, 0.0, 100.0, 100.0, 1);
    var b := Element("b", 0, 0.0, 0.0, 0.0, 100.0, 100.0, 2);
    var t := Element("t", 0, 0.0, 0.0, 0.0, 100.0, 100.0, 3);
    ThreeStickers(a, b, t);
    assert a.(zIndex := 1) == a && b.(zIndex := 2) == b && t.(zIndex := 3) == t;
  }

  /** The two restackings of `[a, b, t]` when `t` is brought to front. */
  lemma ThreeStickers(a: Element, b: Element, t: Element)
    requires a.id == "a" && b.id == "b" && t.id == "t"
    ensures HostBringToFront([a, b, t], "t") == [b.(zIndex := 1), a.(zIndex := 2), t.(zIndex := 3)]
    ensures BringToFront([a, b, t], "t") == [a.(zIndex := 1), b.(zIndex := 2), t.(zIndex := 3)]
  {
    SplitExample(a, b, t);
    HostThree(a, b, t);
    IntendedThree(a, b, t);
  }

  lemma HostThree(a: Element, b: Element, t: Element)
    requires SplitById([a, b, t], "t") == ([t], [a, b])
    ensures HostBringToFront([a, b, t], "t") == [b.(zIndex := 1), a.(zIndex := 2), t.(zIndex := 3)]
  {
    HostOrderThree([a, b, t], a, b, t);
    RenumberThree(b, a, t);
  }

  lemma HostOrderThree(s: seq<Element>, a: Element, b: Element, t: Element)
    requires |s| < 64 && SplitById(s, "t") == ([t], [a, b])
    ensures HostBringToFront(s, "t") == Renumber([b, a, t])
  {
    ReversedOthersThree(s, a, b, t);
    HostBringToFrontOrder(s, "t", [b, a, t]);
  }

  lemma ReversedOthersThree(s: seq<Element>, a: Element, b: Element, t: Element)
    requires SplitById(s, "t") == ([t], [a, b])
    ensures Reverse(SplitById(s, "t").1) + SplitById(s, "t").0 == [b, a, t]
  {
    ReverseTwo(a, b);
  }

  lemma HostBringToFrontOrder(s: seq<Element>, id: string, order: seq<Element>)
    requires |s| < 64 && Reverse(SplitById(s, id).1) + SplitById(s, id).0 == order
    ensures HostBringToFront(s, id) == Renumber(order)
  {
    HostBringToFrontReversesOthers(s, id);
  }

  lemma ReverseTwo<T>(a: T, b: T)
    ensures Reverse([a, b]) == [b, a]
  {
    ReverseAppend([a], [b]);
    ReverseShort([a]);
    ReverseShort([b]);
    assert [a, b] == [a] + [b];
  }

  lemma IntendedThree(a: Element, b: Element, t: Element)
    requires SplitById([a, b, t], "t") == ([t], [a, b])
    ensures BringToFront([a, b, t], "t") == [a.(zIndex := 1), b.(zIndex := 2), t.(zIndex := 3)]
  {
    assert [a, b] + [t] == [a, b, t];
    RenumberThree(a, b, t);
  }

  lemma SplitExample(a: Element, b: Element, t: Element)
    requires a.id == "a" && b.id == "b" && t.id == "t"
    ensures SplitById([a, b, t], "t") == ([t], [a, b])
  {
    var s := [a, b, t];
    var with, without := (e: Element) => e.id == "t", (e: Element) => e.id != "t";
    assert "a" != "t" && "b" != "t";
    assert s[1..] == [b, t] && [b, t][1..] == [t] && [t][1..] == [];
    assert Filter([t], with) == [t] && Filter([t], without) == [];
    assert Filter([b, t], with) == [t] && Filter([b, t], without) == [b];
    assert Filter(s, with) == [t];
    assert Filter(s, without) == [a, b];
  }

  lemma RenumberThree(x: Element, y: Element, z: Element)
    ensures Renumber([x, y, z]) == [x.(zIndex := 1), y.(zIndex := 2), z.(zIndex := 3)]
  {
    var r := Renumber([x, y, z]);
    assert r[0] == x.(zIndex := 1) && r[1] == y.(zIndex := 2) && r[2] == z.(zIndex := 3);
  }
}
