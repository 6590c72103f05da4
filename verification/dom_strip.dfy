/** The older DOM-based strip: photos reordered by drag and drop, and
    stickers (positioned elements) snapped to a 10-pixel grid, resized within
    fixed bounds, kept inside the padded strip, rotated, and restacked.
    Every handler computes the list it hands to its parent; `None` stands for
    "no update is emitted". */
module DomStrip {
  import opened Common
  import opened Layouts

  /** The strip's padding, 0.15 in at 96 px/in. */
  const Padding: real := 14.4
  /** Room kept free under the photos for the caption, 1 in. */
  const TextSpace: real := 96.0
  const GridSize: real := 10.0
  const MinSize: real := 20.0
  const MaxSize: real := 2000.0

  /** A positioned sticker. `content` stands for what is drawn (its type and
      source, text or shape), which no handler here reads. */
  datatype Element = Element(
    id: string, content: nat,
    x: real, y: real, rotate: real, width: real, height: real,
    zIndex: int)

  // ---------------------------------------------------------------------
  // Photo reordering
  // ---------------------------------------------------------------------

  /** `s` without its element at `i` (`splice(i, 1)`). */
  function RemoveAt<T>(s: seq<T>, i: nat): (r: seq<T>)
    requires i < |s|
    ensures |r| == |s| - 1
    ensures forall k :: 0 <= k < i ==> r[k] == s[k]
    ensures forall k :: i <= k < |r| ==> r[k] == s[k + 1]
  {
    s[..i] + s[i + 1..]
  }

  /** `s` with `x` inserted before position `i` (`splice(i, 0, x)`); an index
      past the end appends. */
  function InsertAt<T>(s: seq<T>, i: nat, x: T): (r: seq<T>)
    ensures |r| == |s| + 1
    ensures var j := if i <= |s| then i else |s|;
      && r[j] == x
      && (forall k :: 0 <= k < j ==> r[k] == s[k])
      && (forall k :: j < k < |r| ==> r[k] == s[k - 1])
  {
    var j := if i <= |s| then i else |s|;
    s[..j] + [x] + s[j..]
  }

  /** End of a photo drag. Without a drop target nothing is emitted;
      otherwise the photo at `source` is taken out and reinserted at
      `destination` (at the end when the index is past it). The grid re-sort
      that follows for grid layouts is the identity on lists of distinct
      photos (`GridResortIsIdentity`), so it is not repeated here. */
  function OnDragEnd(photos: seq<Photo>, source: nat, destination: Option<nat>): (r: Option<seq<Photo>>)
    requires source < |photos|
    ensures destination.None? <==> r.None?
    ensures r.Some? ==>
      var d := if destination.value < |photos| then destination.value else |photos| - 1;
      && |r.value| == |photos|
      && r.value[d] == photos[source]
      && RemoveAt(r.value, d) == RemoveAt(photos, source)
      && multiset(r.value) == multiset(photos)
  {
    match destination
    case None => None
    case Some(dst) =>
      SpliceMoves(photos, source, dst);
      Some(InsertAt(RemoveAt(photos, source), dst, photos[source]))
  }

  /** Taking the photo at `source` out and putting it back at `dst` (clamped
      to the end) puts it at the clamped index, and removing it again from
      there gives back the list without it. */
  lemma SpliceMoves(photos: seq<Photo>, source: nat, dst: nat)
    requires source < |photos|
    ensures var moved := InsertAt(RemoveAt(photos, source), dst, photos[source]);
      var d := if dst < |photos| then dst else |photos| - 1;
      && |moved| == |photos|
      && moved[d] == photos[source]
      && RemoveAt(moved, d) == RemoveAt(photos, source)
      && multiset(moved) == multiset(photos)
  {
    var x := photos[source];
    var rest := RemoveAt(photos, source);
    var d := if dst < |photos| then dst else |photos| - 1;
    var moved := InsertAt(rest, dst, x);
    assert moved == rest[..d] + [x] + rest[d..];
    assert RemoveAt(moved, d) == rest;
    RemoveAtCounts(photos, source);
    InsertAtCounts(rest, dst, x);
  }

  lemma RemoveAtCounts<T>(s: seq<T>, i: nat)
    requires i < |s|
    ensures multiset(RemoveAt(s, i)) + multiset{s[i]} == multiset(s)
  {
    assert s == s[..i] + [s[i]] + s[i + 1..];
  }

  lemma InsertAtCounts<T>(s: seq<T>, i: nat, x: T)
    ensures multiset(InsertAt(s, i, x)) == multiset(s) + multiset{x}
  {
    var j := if i <= |s| then i else |s|;
    assert s == s[..j] + s[j..];
  }

  /** No two positions hold the same photo. */
  ghost predicate Distinct<T>(s: seq<T>) {
    forall i, j :: 0 <= i < j < |s| ==> s[i] != s[j]
  }

  /** Position of `p` in `s`: the first index holding it. */
  function IndexOf<T(==)>(s: seq<T>, p: T): (i: nat)
    requires p in s
    ensures i < |s| && s[i] == p
    ensures forall k :: 0 <= k < i ==> s[k] != p
  {
    if s[0] == p then 0 else 1 + IndexOf(s[1..], p)
  }

  /** The grid re-sort's comparator: photos are ordered by the row and then
      the column of their first position in `s`, two columns to a row. */
  function GridCompare(s: seq<Photo>, a: Photo, b: Photo): (c: int)
    requires a in s && b in s
    ensures c < 0 <==> IndexOf(s, a) < IndexOf(s, b)
    ensures c == 0 <==> a == b
  {
    var ia := IndexOf(s, a);
    var ib := IndexOf(s, b);
    assert ia == 2 * (ia / 2) + ia % 2;
    assert ib == 2 * (ib / 2) + ib % 2;
    if ia / 2 != ib / 2 then ia / 2 - ib / 2 else ia % 2 - ib % 2
  }

  /** The comparator accepts `a` before `b`. */
  predicate GridOrdered(s: seq<Photo>, a: Photo, b: Photo) {
    a in s && b in s && GridCompare(s, a, b) <= 0
  }

  /** The comparator orders photos exactly as their positions in `s`. */
  lemma GridCompareFollowsPosition(s: seq<Photo>, a: Photo, b: Photo)
    requires a in s && b in s
    ensures GridCompare(s, a, b) <= 0 <==> IndexOf(s, a) <= IndexOf(s, b)
  {
    var ia := IndexOf(s, a);
    var ib := IndexOf(s, b);
    assert ia == 2 * (ia / 2) + ia % 2;
    assert ib == 2 * (ib / 2) + ib % 2;
  }

  /** Whatever sorting algorithm the host uses, the only arrangement of a
      list of distinct photos that the grid comparator accepts as sorted is
      the list itself: the re-sort changes nothing. */
  lemma {:induction false} GridResortIsIdentity(s: seq<Photo>, r: seq<Photo>)
    requires Distinct(s)
    requires multiset(r) == multiset(s)
    requires forall k :: 0 <= k < |r| - 1 ==> GridOrdered(s, r[k], r[k + 1])
    ensures r == s
  {
    assert |r| == |s| by { assert |multiset(r)| == |multiset(s)|; }
    forall k | 0 <= k < |r| ensures r[k] in s {
      assert r[k] in multiset(r);
    }
    // positions in `s` strictly increase along `r`
    forall k | 0 <= k < |r| - 1 ensures IndexOf(s, r[k]) < IndexOf(s, r[k + 1]) {
      GridCompareFollowsPosition(s, r[k], r[k + 1]);
      DistinctInMultiset(r, s, k);
    }
    IncreasingPositions(s, r);
  }

  /** Neighbours in a rearrangement of a distinct list are distinct. */
  lemma DistinctInMultiset(r: seq<Photo>, s: seq<Photo>, k: nat)
    requires Distinct(s) && multiset(r) == multiset(s) && k + 1 < |r|
    ensures r[k] != r[k + 1]
  {
    if r[k] == r[k + 1] {
      var x := r[k];
      assert r[k..k + 2] == [x, x];
      assert multiset(r) == multiset(r[..k]) + multiset{x, x} + multiset(r[k + 2..]) by {
        assert r == r[..k] + r[k..k + 2] + r[k + 2..];
      }
      assert multiset(s)[x] >= 2;
      AtMostOnce(s, x);
      assert false;
    }
  }

  /** A distinct list holds each value at most once. */
  lemma {:induction false} AtMostOnce<T>(s: seq<T>, x: T)
    requires Distinct(s)
    ensures multiset(s)[x] <= 1
    decreases |s|
  {
    if |s| > 0 {
      assert s == [s[0]] + s[1..];
      assert Distinct(s[1..]) by {
        forall i, j | 0 <= i < j < |s[1..]| ensures s[1..][i] != s[1..][j] {
          assert s[1..][i] == s[i + 1] && s[1..][j] == s[j + 1];
        }
      }
      AtMostOnce(s[1..], x);
      if s[0] == x {
        assert x !in s[1..] by {
          forall k | 0 <= k < |s[1..]| ensures s[1..][k] != x {
            assert s[1..][k] == s[k + 1];
          }
        }
      }
    }
  }

  /** `|s|` elements of `s` whose positions strictly increase are `s` itself. */
  lemma IncreasingPositions(s: seq<Photo>, r: seq<Photo>)
    requires |r| == |s|
    requires forall k :: 0 <= k < |r| ==> r[k] in s
    requires forall k :: 0 <= k < |r| - 1 ==> IndexOf(s, r[k]) < IndexOf(s, r[k + 1])
    ensures r == s
  {
    forall k | 0 <= k < |r| ensures IndexOf(s, r[k]) >= k {
      PositionsAtLeast(s, r, k);
    }
    forall k | 0 <= k < |r| ensures IndexOf(s, r[k]) <= k {
      PositionsAtMost(s, r, k);
    }
  }

  lemma {:induction false} PositionsAtLeast(s: seq<Photo>, r: seq<Photo>, k: nat)
    requires k < |r|
    requires forall i :: 0 <= i < |r| ==> r[i] in s
    requires forall i :: 0 <= i < |r| - 1 ==> IndexOf(s, r[i]) < IndexOf(s, r[i + 1])
    ensures IndexOf(s, r[k]) >= k
  {
    if k > 0 {
      PositionsAtLeast(s, r, k - 1);
    }
  }

  lemma {:induction false} PositionsAtMost(s: seq<Photo>, r: seq<Photo>, k: nat)
    requires k < |r| == |s|
    requires forall i :: 0 <= i < |r| ==> r[i] in s
    requires forall i :: 0 <= i < |r| - 1 ==> IndexOf(s, r[i]) < IndexOf(s, r[i + 1])
    ensures IndexOf(s, r[k]) <= k
    decreases |r| - k
  {
    if k < |r| - 1 {
      PositionsAtMost(s, r, k + 1);
    }
  }

  // ---------------------------------------------------------------------
  // Sticker handlers
  // ---------------------------------------------------------------------

  /** `Math.round(v / 10) * 10`: the nearest multiple of the grid step. */
  function SnapToGrid(v: real): (r: real)
    ensures (r / GridSize).Floor as real == r / GridSize
    ensures v - GridSize / 2.0 < r <= v + GridSize / 2.0
  {
    JsRound(v / GridSize) as real * GridSize
  }

  /** Snapping a snapped value changes nothing. */
  lemma SnapIdempotent(v: real)
    ensures SnapToGrid(SnapToGrid(v)) == SnapToGrid(v)
  {
    var n := JsRound(v / GridSize);
    assert SnapToGrid(v) / GridSize == n as real;
    assert JsRound(n as real) == n;
  }

  /** An alignment guide: a vertical line at `x` (with `y` 0) or a horizontal
      line at `y` (with `x` 0). */
  datatype Guide = Guide(x: real, y: real)

  /** `g` is a guide that sticker `s` gives an element `el` with id `id`. */
  predicate GuideFrom(g: Guide, s: Element, id: string, el: Element) {
    && s.id != id
    && ((g == Guide(s.x, 0.0) && Abs(el.x - s.x) < 10.0) || (g == Guide(0.0, s.y) && Abs(el.y - s.y) < 10.0))
  }

  /** Sticker `s` is `el` itself or too far from it on both axes for a guide. */
  predicate NoGuideFrom(s: Element, id: string, el: Element) {
    s.id == id || (Abs(el.x - s.x) >= 10.0 && Abs(el.y - s.y) >= 10.0)
  }

  /** Guides against every other sticker within 10 pixels of `el` on an axis,
      in list order, a vertical one before a horizontal one. */
  function Guides(others: seq<Element>, id: string, el: Element): (g: seq<Guide>)
    ensures |g| <= 2 * |others|
    ensures (forall k :: 0 <= k < |others| ==> NoGuideFrom(others[k], id, el)) ==> g == []
    decreases |others|
  {
    if |others| == 0 then []
    else
      var s := others[0];
      var here :=
        if s.id == id then []
        else
          (if Abs(el.x - s.x) < 10.0 then [Guide(s.x, 0.0)] else []) +
          (if Abs(el.y - s.y) < 10.0 then [Guide(0.0, s.y)] else []);
      here + Guides(others[1..], id, el)
  }

  /** Some sticker of `others` gives `el` the guide `g`. */
  ghost predicate Owed(g: Guide, others: seq<Element>, id: string, el: Element) {
    exists k :: 0 <= k < |others| && GuideFrom(g, others[k], id, el)
  }

  /** Every guide is owed to another sticker close to `el` on that axis. */
  lemma {:induction false} GuidesComeFromNeighbours(others: seq<Element>, id: string, el: Element)
    ensures forall i :: 0 <= i < |Guides(others, id, el)| ==> Owed(Guides(others, id, el)[i], others, id, el)
    decreases |others|
  {
    if |others| > 0 {
      var g := Guides(others, id, el);
      var tail := others[1..];
      var rest := Guides(tail, id, el);
      GuidesComeFromNeighbours(tail, id, el);
      var s := others[0];
      var here :=
        if s.id == id then []
        else
          (if Abs(el.x - s.x) < 10.0 then [Guide(s.x, 0.0)] else []) +
          (if Abs(el.y - s.y) < 10.0 then [Guide(0.0, s.y)] else []);
      assert g == here + rest;
      forall i | 0 <= i < |g| ensures Owed(g[i], others, id, el) {
        if i < |here| {
          assert GuideFrom(g[i], others[0], id, el);
        } else {
          var j := i - |here|;
          assert g[i] == rest[j] && Owed(rest[j], tail, id, el);
          var k :| 0 <= k < |tail| && GuideFrom(rest[j], tail[k], id, el);
          assert tail[k] == others[k + 1];
        }
      }
    }
  }

  /** Every other sticker within 10 pixels of `el` on an axis gives its
      guide on that axis. */
  lemma {:induction false} GuidesComplete(others: seq<Element>, id: string, el: Element, k: nat)
    requires k < |others| && others[k].id != id
    ensures Abs(others[k].x - el.x) < 10.0 ==> Guide(others[k].x, 0.0) in Guides(others, id, el)
    ensures Abs(others[k].y - el.y) < 10.0 ==> Guide(0.0, others[k].y) in Guides(others, id, el)
    decreases |others|
  {
    var s := others[0];
    var here :=
      if s.id == id then []
      else
        (if Abs(el.x - s.x) < 10.0 then [Guide(s.x, 0.0)] else []) +
        (if Abs(el.y - s.y) < 10.0 then [Guide(0.0, s.y)] else []);
    var rest := Guides(others[1..], id, el);
    assert Guides(others, id, el) == here + rest;
    if k == 0 {
      assert Abs(others[k].x - el.x) == Abs(el.x - s.x) && Abs(others[k].y - el.y) == Abs(el.y - s.y);
    } else {
      GuidesComplete(others[1..], id, el, k - 1);
      assert others[1..][k - 1] == others[k];
    }
  }

  /** What a sticker handler hands on: the new list and the guides shown. */
  datatype Update = Update(stickers: seq<Element>, guides: seq<Guide>)

  /** `k` is the first index in `stickers` whose sticker carries `id`: the
      one `find` returns. */
  predicate FirstWithId(stickers: seq<Element>, id: string, k: int) {
    0 <= k < |stickers| && stickers[k].id == id && forall j :: 0 <= j < k ==> stickers[j].id != id
  }

  /** Applies `f` to every sticker with id `id` and leaves the others alone. */
  function UpdateId(stickers: seq<Element>, id: string, f: Element -> Element): (r: seq<Element>)
    ensures |r| == |stickers|
    ensures forall k :: 0 <= k < |r| ==>
      r[k] == if stickers[k].id == id then f(stickers[k]) else stickers[k]
  {
    Map(stickers, (t: Element) => if t.id == id then f(t) else t)
  }

  /** A sticker dragged to (`ex`, `ey`): every sticker with the id moves to
      the snapped position and is raised above all others. The guides are
      then computed from the moved sticker; when no sticker has the id and
      the list is not empty that computation reads a field of `undefined`
      and throws, and nothing is emitted. */
  function HandleStickerDrag(stickers: seq<Element>, id: string, ex: real, ey: real): (r: Option<Update>)
    ensures r.None? <==> |stickers| > 0 && forall k :: 0 <= k < |stickers| ==> stickers[k].id != id
    ensures r.Some? ==> |r.value.stickers| == |stickers|
    ensures r.Some? ==> forall k :: 0 <= k < |stickers| && stickers[k].id != id ==>
      r.value.stickers[k] == stickers[k]
    ensures r.Some? ==> forall k :: 0 <= k < |stickers| && stickers[k].id == id ==>
      var t := r.value.stickers[k];
      && t == stickers[k].(x := t.x, y := t.y, zIndex := t.zIndex)
      && t.x == SnapToGrid(ex) && t.y == SnapToGrid(ey)
      && t.zIndex == |stickers| + 1
    ensures |stickers| == 0 ==> r == Some(Update([], []))
    ensures forall k :: FirstWithId(stickers, id, k) ==>
      r.Some? && r.value.guides == Guides(stickers, id, r.value.stickers[k])
  {
    var updated := UpdateId(stickers, id, (s: Element) =>
      s.(x := SnapToGrid(ex), y := SnapToGrid(ey), zIndex := |stickers| + 1));
    match FindIndex(updated, (s: Element) => s.id == id)
    case None => if |stickers| > 0 then None else Some(Update(updated, []))
    case Some(k) => Some(Update(updated, Guides(stickers, id, updated[k])))
  }

  /** `Math.max(MIN_SIZE, Math.min(MAX_SIZE, v))`. */
  function ClampSize(v: real): (r: real)
    ensures MinSize <= r <= MaxSize
    ensures MinSize <= v <= MaxSize ==> r == v
    ensures v < MinSize ==> r == MinSize
    ensures v > MaxSize ==> r == MaxSize
  {
    Max(MinSize, Min(MaxSize, v))
  }

  /** Every sticker has a positive size; true of every sticker the
      application creates and kept by every handler. */
  predicate Sized(stickers: seq<Element>) {
    forall k :: 0 <= k < |stickers| ==> stickers[k].width > 0.0 && stickers[k].height > 0.0
  }

  /** The size a resize gives: the width clamped to [20, 2000]; with Shift
      the height scaled with the width from `s`'s size, otherwise clamped. */
  function ResizedTo(s: Element, w: real, h: real, shift: bool): (wh: (real, real))
    requires s.width > 0.0 && s.height > 0.0
    ensures wh.0 == ClampSize(w) && wh.1 > 0.0
    ensures !shift ==> wh.1 == ClampSize(h)
    ensures shift ==> wh.0 / wh.1 == s.width / s.height
  {
    var newWidth := ClampSize(w);
    if shift then
      ScaleKeepsRatio(newWidth, s.width, s.height);
      (newWidth, newWidth / s.width * s.height)
    else (newWidth, ClampSize(h))
  }

  lemma ScaleKeepsRatio(a: real, b: real, c: real)
    requires a > 0.0 && b > 0.0 && c > 0.0
    ensures a / b * c > 0.0
    ensures a / (a / b * c) == b / c
  {
    assert a / b * c * b == a * c;
  }

  /** A sticker resized to `w` x `h`. An unknown id emits nothing. Every
      sticker with the id gets the size `ResizedTo` computes from the first
      of them, and is raised above all others. */
  function HandleStickerResize(stickers: seq<Element>, id: string, w: real, h: real, shift: bool): (r: Option<Update>)
    requires Sized(stickers)
    ensures r.None? <==> forall k :: 0 <= k < |stickers| ==> stickers[k].id != id
    ensures r.Some? ==> |r.value.stickers| == |stickers| && Sized(r.value.stickers)
    ensures r.Some? ==> forall k :: 0 <= k < |stickers| && stickers[k].id != id ==>
      r.value.stickers[k] == stickers[k]
    ensures r.Some? ==> forall k :: 0 <= k < |stickers| && stickers[k].id == id ==>
      var t := r.value.stickers[k];
      && t == stickers[k].(width := t.width, height := t.height, zIndex := t.zIndex)
      && t.width == ClampSize(w)
      && (!shift ==> t.height == ClampSize(h))
      && t.zIndex == |stickers| + 1
    ensures forall k :: FirstWithId(stickers, id, k) ==>
      && r.Some?
      && r.value.guides == Guides(stickers, id, r.value.stickers[k])
      && (shift ==> forall j :: 0 <= j < |stickers| && stickers[j].id == id ==>
            r.value.stickers[j].height > 0.0 &&
            r.value.stickers[j].width / r.value.stickers[j].height == stickers[k].width / stickers[k].height)
  {
    match FindIndex(stickers, (s: Element) => s.id == id)
    case None => None
    case Some(k) =>
      var wh := ResizedTo(stickers[k], w, h, shift);
      var updated := UpdateId(stickers, id, (t: Element) =>
        t.(width := wh.0, height := wh.1, zIndex := |stickers| + 1));
      Some(Update(updated, Guides(stickers, id, updated[k])))
  }

  /** With Shift held, the first sticker with the id keeps its aspect ratio. */
  lemma ShiftResizeKeepsAspect(stickers: seq<Element>, id: string, w: real, h: real, k: nat)
    requires Sized(stickers)
    requires k < |stickers| && stickers[k].id == id
    requires forall j :: 0 <= j < k ==> stickers[j].id != id
    ensures var r := HandleStickerResize(stickers, id, w, h, true);
      r.Some? && r.value.stickers[k].width / r.value.stickers[k].height == stickers[k].width / stickers[k].height
  {
    FindIndexIsFirst(stickers, (s: Element) => s.id == id, k);
  }

  /** The top-left corner of a `width` x `height` sticker moved to
      (`x`, `y`) and kept inside the padded strip of the given size, leaving
      the caption space free at the bottom. */
  function BoundStickerPosition(stripWidth: real, stripHeight: real, x: real, y: real, width: real, height: real): (p: (real, real))
    ensures p.0 >= Padding && p.1 >= Padding
    ensures var maxX := stripWidth - Padding - width;
      && (maxX >= Padding ==> p.0 <= maxX)
      && (maxX < Padding ==> p.0 == Padding)
      && (Padding <= x <= maxX ==> p.0 == x)
    ensures var maxY := stripHeight - Padding - TextSpace - height;
      && (maxY >= Padding ==> p.1 <= maxY)
      && (maxY < Padding ==> p.1 == Padding)
      && (Padding <= y <= maxY ==> p.1 == y)
  {
    var paddedWidth := stripWidth - 2.0 * Padding;
    var paddedHeight := stripHeight - 2.0 * Padding - TextSpace;
    (Max(Padding, Min(x, Padding + paddedWidth - width)),
     Max(Padding, Min(y, Padding + paddedHeight - height)))
  }

  /** Bounding a position that is already bounded leaves it where it is. */
  lemma BoundIsIdempotent(stripWidth: real, stripHeight: real, x: real, y: real, width: real, height: real)
    ensures var p := BoundStickerPosition(stripWidth, stripHeight, x, y, width, height);
      BoundStickerPosition(stripWidth, stripHeight, p.0, p.1, width, height) == p
  {
  }

  /** `Math.round(angle / 15) * 15`. */
  function SnapAngle(angle: real): (r: real)
    ensures (r / 15.0).Floor as real == r / 15.0
    ensures angle - 7.5 < r <= angle + 7.5
  {
    JsRound(angle / 15.0) as real * 15.0
  }

  /** Snapping a snapped angle changes nothing. */
  lemma SnapAngleIdempotent(angle: real)
    ensures SnapAngle(SnapAngle(angle)) == SnapAngle(angle)
  {
    var n := JsRound(angle / 15.0);
    assert SnapAngle(angle) / 15.0 == n as real;
    assert JsRound(n as real) == n;
  }

  /** A rotation by pointer: `pointerAngle` is the host's angle, in degrees,
      from the sticker's center to the pointer. When `id` is the selected
      element, every sticker with the id turns to that angle plus 90,
      snapped to a multiple of 15 with Shift held, and is raised above all
      others; otherwise nothing is emitted. */
  function HandleStickerRotate(stickers: seq<Element>, selected: Option<string>, id: string, pointerAngle: real, shift: bool): (r: Option<seq<Element>>)
    ensures r.None? <==> selected != Some(id)
    ensures r.Some? ==> |r.value| == |stickers|
    ensures r.Some? ==> forall k :: 0 <= k < |stickers| && stickers[k].id != id ==> r.value[k] == stickers[k]
    ensures r.Some? ==> forall k :: 0 <= k < |stickers| && stickers[k].id == id ==>
      var t := r.value[k];
      && t == stickers[k].(rotate := t.rotate, zIndex := t.zIndex)
      && t.zIndex == |stickers| + 1
      && (!shift ==> t.rotate == pointerAngle + 90.0)
      && (shift ==> t.rotate == SnapAngle(pointerAngle + 90.0))
  {
    if selected != Some(id) then None
    else
      var angle := pointerAngle + 90.0;
      var newRotate := if shift then SnapAngle(angle) else angle;
      Some(UpdateId(stickers, id, (s: Element) => s.(rotate := newRotate, zIndex := |stickers| + 1)))
  }

  // ---------------------------------------------------------------------
  // Stacking order
  // ---------------------------------------------------------------------

  /** The stickers with id `id`, in order, and those with another id, in
      order: between them, exactly the input. */
  function SplitById(stickers: seq<Element>, id: string): (p: (seq<Element>, seq<Element>))
    ensures forall k :: 0 <= k < |p.0| ==> p.0[k].id == id
    ensures forall k :: 0 <= k < |p.1| ==> p.1[k].id != id
    ensures IsSubsequence(p.0, stickers) && IsSubsequence(p.1, stickers)
    ensures multiset(p.0) + multiset(p.1) == multiset(stickers)
    ensures |p.0| + |p.1| == |stickers|
  {
    var with := Filter(stickers, (s: Element) => s.id == id);
    var without := Filter(stickers, (s: Element) => s.id != id);
    FilterCounts(stickers, (s: Element) => s.id == id);
    FilterCounts(stickers, (s: Element) => s.id != id);
    assert multiset(with) + multiset(without) == multiset(stickers) by {
      forall t: Element ensures (multiset(with) + multiset(without))[t] == multiset(stickers)[t] {
      }
    }
    assert |multiset(with) + multiset(without)| == |multiset(stickers)|;
    (with, without)
  }

  /** Stacking order from list order: position `k` gets `zIndex` `k + 1`. */
  function Renumber(stickers: seq<Element>): (r: seq<Element>)
    ensures |r| == |stickers|
    ensures forall k :: 0 <= k < |r| ==> r[k] == stickers[k].(zIndex := k + 1)
  {
    seq(|stickers|, k requires 0 <= k < |stickers| => stickers[k].(zIndex := k + 1))
  }

  /** Bring to front: the stickers with the id move, in their order, to the
      end of the list, above every other sticker, whose order is kept; the
      list is a rearrangement of the input, renumbered 1..n. This is the
      evidently intended order; what the host's sort makes of the code's
      comparator is modelled in `EngineSort`. */
  function BringToFront(stickers: seq<Element>, id: string): (r: seq<Element>)
    ensures |r| == |stickers|
    ensures forall k :: 0 <= k < |r| ==> r[k].zIndex == k + 1
    ensures var (with, without) := SplitById(stickers, id);
      && multiset(without + with) == multiset(stickers)
      && forall k :: 0 <= k < |r| ==> r[k] == (without + with)[k].(zIndex := k + 1)
  {
    var (with, without) := SplitById(stickers, id);
    Renumber(without + with)
  }

  /** Send to back: the stickers with the id move, in their order, to the
      start of the list, below every other sticker, whose order is kept; the
      list is a rearrangement of the input, renumbered 1..n. This is the
      evidently intended order; under V8's sort the code's comparator puts
      repeated-id targets first in reverse (`EngineSort`). */
  function SendToBack(stickers: seq<Element>, id: string): (r: seq<Element>)
    ensures |r| == |stickers|
    ensures forall k :: 0 <= k < |r| ==> r[k].zIndex == k + 1
    ensures var (with, without) := SplitById(stickers, id);
      && multiset(with + without) == multiset(stickers)
      && forall k :: 0 <= k < |r| ==> r[k] == (with + without)[k].(zIndex := k + 1)
  {
    var (with, without) := SplitById(stickers, id);
    Renumber(with + without)
  }

  // ---------------------------------------------------------------------
  // Strip padding
  // ---------------------------------------------------------------------

  /** The strip's CSS padding as (top, right, bottom, left, unit): 0.15 of
      the layout's own unit on every side, except 1.15 on the side that
      holds the caption, the bottom of vertical strips and portrait grids
      and the right of horizontal strips and landscape grids. Each number
      is written with the layout's unit after it. */
  function PhotoPadding(layout: Layout): (p: (real, real, real, real, Unit))
    requires layout.height != 0.0
    ensures p.4 == layout.unit
    ensures p.0 == 0.15 && p.3 == 0.15
    ensures (p.1 == 1.15 && p.2 == 0.15) || (p.1 == 0.15 && p.2 == 1.15)
    ensures p.2 == 1.15 <==>
      layout.arrangement == Vertical ||
      (layout.arrangement == Grid && layout.width / layout.height <= 1.0)
  {
    var u := layout.unit;
    match layout.arrangement
    case Grid => if layout.width / layout.height <= 1.0 then (0.15, 0.15, 1.15, 0.15, u) else (0.15, 1.15, 0.15, 0.15, u)
    case Vertical => (0.15, 0.15, 1.15, 0.15, u)
    case Horizontal => (0.15, 1.15, 0.15, 0.15, u)
  }
}
