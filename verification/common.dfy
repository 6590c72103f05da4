/** Shared vocabulary: optional values, order-preserving filtering, and the
    handful of JavaScript number operations the photobooth code relies on
    (`Math.max`/`Math.min`, `Math.round`, the `%` operator), stated over
    exact reals. */
module Common {

  /** A JavaScript value that may be `null`/`undefined` (or, for numbers, NaN). */
  datatype Option<T> = None | Some(value: T)

  /** An opaque handle on a decoded bitmap (an `HTMLImageElement`). */
  datatype ImageRef = ImageRef(handle: nat)

  function MinInt(a: int, b: int): (r: int)
    ensures r <= a && r <= b && (r == a || r == b)
  {
    if a <= b then a else b
  }

  /** A captured or uploaded photo: a unique id (a UUID) and its data URL. */
  datatype Photo = Photo(id: string, url: string)

  /** An ASCII decimal digit. */
  predicate IsDigit(c: char) {
    '0' <= c <= '9'
  }

  // ---------------------------------------------------------------------
  // Sequences
  // ---------------------------------------------------------------------

  /** `a` can be obtained from `b` by deleting elements: the relative order
      of what is left is the order in `b`. */
  ghost predicate IsSubsequence<T>(a: seq<T>, b: seq<T>)
    decreases |b|
  {
    if |a| == 0 then true
    else if |b| == 0 then false
    else (a[0] == b[0] && IsSubsequence(a[1..], b[1..])) || IsSubsequence(a, b[1..])
  }

  /** `Array.prototype.filter`: the elements of `s` satisfying `keep`, in order.
      The result keeps every kept occurrence, drops every other one, and is a
      subsequence of `s`; together these pin the result down completely. */
  function Filter<T(!new)>(s: seq<T>, keep: T -> bool): (r: seq<T>)
    ensures forall k :: 0 <= k < |r| ==> keep(r[k])
    ensures IsSubsequence(r, s)
    ensures |r| <= |s|
    decreases |s|
  {
    if |s| == 0 then []
    else
      var rest := Filter(s[1..], keep);
      ConsParts(s[0], s[1..], s);
      if keep(s[0]) then
        ConsParts(s[0], rest, [s[0]] + rest);
        SubsequenceCons(s[0], rest, s[1..]);
        [s[0]] + rest
      else
        SubsequenceSkip(s[0], rest, s[1..]);
        rest
  }

  /** The filter keeps every occurrence of a kept value and none of any
      other value. */
  lemma {:induction false} FilterCounts<T(!new)>(s: seq<T>, keep: T -> bool)
    ensures forall x :: multiset(Filter(s, keep))[x] == if keep(x) then multiset(s)[x] else 0
    decreases |s|
  {
    if |s| > 0 {
      var rest := Filter(s[1..], keep);
      FilterCounts(s[1..], keep);
      ConsParts(s[0], s[1..], s);
      if keep(s[0]) {
        ConsParts(s[0], rest, [s[0]] + rest);
      }
    }
  }

  /** When every element passes, the filter is the identity. */
  lemma {:induction false} FilterKeepsAll<T(!new)>(s: seq<T>, keep: T -> bool)
    requires forall k :: 0 <= k < |s| ==> keep(s[k])
    ensures Filter(s, keep) == s
    decreases |s|
  {
    if |s| > 0 {
      assert forall k :: 0 <= k < |s| - 1 ==> s[1..][k] == s[k + 1];
      FilterKeepsAll(s[1..], keep);
      ConsParts(s[0], s[1..], s);
    }
  }

  lemma ConsParts<T>(x: T, t: seq<T>, s: seq<T>)
    requires s == [x] + t
    ensures |s| == |t| + 1 && s[0] == x && s[1..] == t
    ensures multiset(s) == multiset{x} + multiset(t)
  {
    assert s[1..] == t;
  }

  lemma SubsequenceCons<T>(x: T, a: seq<T>, b: seq<T>)
    requires IsSubsequence(a, b)
    ensures IsSubsequence([x] + a, [x] + b)
  {
    assert ([x] + a)[1..] == a;
    assert ([x] + b)[1..] == b;
  }

  lemma SubsequenceSkip<T>(x: T, a: seq<T>, b: seq<T>)
    requires IsSubsequence(a, b)
    ensures IsSubsequence(a, [x] + b)
  {
    assert ([x] + b)[1..] == b;
  }

  /** Index of the first element satisfying `p` (`Array.prototype.findIndex`),
      or `None` (`-1`) when there is none. */
  function FindIndex<T>(s: seq<T>, p: T -> bool): (r: Option<nat>)
    ensures r.Some? ==> r.value < |s| && p(s[r.value])
    ensures r.Some? ==> forall k :: 0 <= k < r.value ==> !p(s[k])
    ensures r.None? <==> forall k :: 0 <= k < |s| ==> !p(s[k])
    decreases |s|
  {
    if |s| == 0 then None
    else if p(s[0]) then Some(0)
    else
      match FindIndex(s[1..], p)
      case None => None
      case Some(i) => Some(i + 1)
  }

  /** `FindIndex` returns exactly the first index whose element satisfies `p`. */
  lemma FindIndexIsFirst<T>(s: seq<T>, p: T -> bool, k: nat)
    requires k < |s| && p(s[k])
    requires forall j :: 0 <= j < k ==> !p(s[j])
    ensures FindIndex(s, p) == Some(k)
  {
  }

  /** Some photo in `s` carries `id`. */
  predicate HasId(s: seq<Photo>, id: string) {
    exists k :: 0 <= k < |s| && s[k].id == id
  }

  /** `photos.filter((photo) => photo.id !== id)`: every photo with that id
      is gone, every other one keeps its place in the order and its number
      of occurrences; without such a photo nothing changes. */
  function WithoutId(s: seq<Photo>, id: string): (r: seq<Photo>)
    ensures !HasId(r, id)
    ensures IsSubsequence(r, s)
    ensures forall p: Photo :: p.id != id ==> multiset(r)[p] == multiset(s)[p]
    ensures !HasId(s, id) ==> r == s
  {
    var keep := (p: Photo) => p.id != id;
    FilterCounts(s, keep);
    if !HasId(s, id) then
      FilterKeepsAll(s, keep);
      Filter(s, keep)
    else
      Filter(s, keep)
  }

  /** Filtering drops something as soon as one element fails the test. */
  lemma {:induction false} FilterShrinks<T(!new)>(s: seq<T>, keep: T -> bool, k: nat)
    requires k < |s| && !keep(s[k])
    ensures |Filter(s, keep)| < |s|
    decreases |s|
  {
    var rest := Filter(s[1..], keep);
    if k == 0 {
      assert Filter(s, keep) == rest;
    } else {
      assert s[1..][k - 1] == s[k];
      FilterShrinks(s[1..], keep, k - 1);
      assert |Filter(s, keep)| <= |rest| + 1;
    }
  }

  /** Removing an id some photo carries makes the list shorter. */
  lemma WithoutIdShrinks(s: seq<Photo>, id: string)
    requires HasId(s, id)
    ensures |WithoutId(s, id)| < |s|
  {
    var k :| 0 <= k < |s| && s[k].id == id;
    FilterShrinks(s, (p: Photo) => p.id != id, k);
  }

  /** Filtering a concatenation filters each part. */
  lemma {:induction false} FilterAppend<T(!new)>(s: seq<T>, t: seq<T>, keep: T -> bool)
    ensures Filter(s + t, keep) == Filter(s, keep) + Filter(t, keep)
    decreases |s|
  {
    if |s| > 0 {
      var u := s + t;
      assert u[0] == s[0] && u[1..] == s[1..] + t;
      FilterAppend(s[1..], t, keep);
      var a, b := Filter(s[1..], keep), Filter(t, keep);
      assert Filter(u, keep) == if keep(s[0]) then [s[0]] + (a + b) else a + b;
      assert Filter(s, keep) == if keep(s[0]) then [s[0]] + a else a;
      ConsAppend(s[0], a, b);
    } else {
      assert s + t == t;
    }
  }

  lemma ConsAppend<T>(x: T, a: seq<T>, b: seq<T>)
    ensures [x] + (a + b) == ([x] + a) + b
  {
  }

  /** `Array.prototype.map`. */
  function Map<T, U>(s: seq<T>, f: T -> U): (r: seq<U>)
    ensures |r| == |s|
    ensures forall k :: 0 <= k < |s| ==> r[k] == f(s[k])
  {
    seq(|s|, k requires 0 <= k < |s| => f(s[k]))
  }

  // ---------------------------------------------------------------------
  // Numbers (JavaScript doubles idealised as exact reals)
  // ---------------------------------------------------------------------

  function Max(a: real, b: real): (r: real)
    ensures r >= a && r >= b && (r == a || r == b)
  {
    if a >= b then a else b
  }

  function Min(a: real, b: real): (r: real)
    ensures r <= a && r <= b && (r == a || r == b)
  {
    if a <= b then a else b
  }

  function Abs(a: real): (r: real)
    ensures r >= 0.0 && (r == a || r == -a)
  {
    if a >= 0.0 then a else -a
  }

  /** `Math.round`: the nearest integer, with halves rounded up (towards +∞). */
  function JsRound(x: real): (r: int)
    ensures x - 0.5 < r as real <= x + 0.5
  {
    (x + 0.5).Floor
  }

  /** Truncation towards zero (`Math.trunc`). */
  function Trunc(x: real): (r: int)
    ensures 0.0 <= x ==> 0 <= r && r as real <= x < r as real + 1.0
    ensures x < 0.0 ==> r <= 0 && r as real - 1.0 < x <= r as real
  {
    if x >= 0.0 then x.Floor else -((-x).Floor)
  }

  /** `a % 360` on JavaScript numbers: the remainder of a division truncated
      towards zero, so it carries the sign of the dividend. It differs from
      `a` by a whole number of turns. */
  function JsRem360(a: real): (r: real)
    ensures -360.0 < r < 360.0
    ensures a >= 0.0 ==> r >= 0.0
    ensures a <= 0.0 ==> r <= 0.0
    ensures ((a - r) / 360.0).Floor as real == (a - r) / 360.0
    ensures -360.0 < a < 360.0 ==> r == a
  {
    var q := Trunc(a / 360.0);
    assert (a - (a - 360.0 * q as real)) / 360.0 == q as real;
    a - 360.0 * q as real
  }
}
