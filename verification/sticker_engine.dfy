/** The sticker gesture engine of the canvas strip: a rotation-aware hit test
    against a sticker's body and its handles, and the pointer-down / move / up
    handlers that select, delete, move, resize and rotate stickers. Every
    handler is a pure function from the editor state before the event to the
    state after it.

    The host's trigonometry (`Math.cos`, `Math.sin`, `Math.atan2`) is not
    modelled: it enters as a `Trig` value, and every contract holds whatever
    numbers it returns. */
module StickerEngine {
  import opened Common

  /** Half-width of the square around a corner or rotate handle that counts as a hit. */
  const HandleSize: real := 10.0
  /** Smallest width a resize leaves a sticker with. */
  const MinWidth: real := 20.0
  /** Distance of the rotate and delete handles above the top edge. */
  const HandleOffset: real := 20.0
  /** Radius of the circular delete handle. */
  const DeleteRadius: real := 10.0

  /** A placed sticker: `x`, `y` is its center, `rotation` is in degrees. */
  datatype Sticker = Sticker(
    id: int, image: ImageRef,
    x: real, y: real, width: real, height: real, rotation: real)

  /** The host's trigonometry, all angles in degrees. */
  datatype Trig = Trig(cosDeg: real -> real, sinDeg: real -> real, atan2Deg: (real, real) -> real)

  /** Corner handles, clockwise from the top-left one. */
  type Corner = c: nat | c < 4

  /** What a pointer position touches on one sticker. */
  datatype Hit = Hit(inBounds: bool, resizeHandle: Option<Corner>, atRotate: bool, atDelete: bool) {
    predicate Any() {
      inBounds || resizeHandle.Some? || atRotate || atDelete
    }
  }

  datatype DragMode = Move | Resize | Rotate

  /** Everything the gesture handlers read and write. */
  datatype Editor = Editor(
    stickers: seq<Sticker>,
    selected: Option<int>,
    dragging: Option<DragMode>,
    startX: real, startY: real,
    resizeHandle: Option<Corner>)

  /** Every sticker has a positive size: true of every sticker the
      application creates, and kept by every handler. */
  predicate WellFormed(ed: Editor) {
    forall k :: 0 <= k < |ed.stickers| ==> ed.stickers[k].width > 0.0 && ed.stickers[k].height > 0.0
  }

  // ---------------------------------------------------------------------
  // Hit test
  // ---------------------------------------------------------------------

  /** The pointer in the sticker's own frame: translated to its center and
      rotated back by its rotation. */
  function LocalPoint(px: real, py: real, s: Sticker, trig: Trig): (real, real) {
    Turn(px - s.x, py - s.y, trig.cosDeg(-s.rotation), trig.sinDeg(-s.rotation))
  }

  /** The vector (`dx`, `dy`) turned by the angle whose cosine is `c` and
      whose sine is `sn`. */
  function Turn(dx: real, dy: real, c: real, sn: real): (real, real) {
    (dx * c - dy * sn, dx * sn + dy * c)
  }

  /** The vector (`dx`, `dy`) turned back by the angle whose cosine is `c`
      and whose sine is `sn`. */
  function TurnBack(dx: real, dy: real, c: real, sn: real): (real, real) {
    (dx * c + dy * sn, dy * c - dx * sn)
  }

  /** Turning by no angle, turning back by a quarter turn, and turning the
      zero vector. */
  lemma TurnSpecial(dx: real, dy: real, c: real, sn: real)
    ensures Turn(dx, dy, 1.0, 0.0) == (dx, dy)
    ensures TurnBack(dx, dy, 1.0, 0.0) == (dx, dy)
    ensures TurnBack(dx, dy, 0.0, 1.0) == (dy, -dx)
    ensures Turn(0.0, 0.0, c, sn) == (0.0, 0.0)
  {
  }

  /** Corner `i` of a sticker in its own frame: top-left, top-right,
      bottom-right, bottom-left. */
  function CornerPoint(s: Sticker, i: Corner): (real, real) {
    var left := -s.width / 2.0;
    var right := s.width / 2.0;
    var top := -s.height / 2.0;
    var bottom := s.height / 2.0;
    if i == 0 then (left, top)
    else if i == 1 then (right, top)
    else if i == 2 then (right, bottom)
    else (left, bottom)
  }

  predicate NearCorner(tx: real, ty: real, s: Sticker, i: Corner) {
    Abs(tx - CornerPoint(s, i).0) < HandleSize && Abs(ty - CornerPoint(s, i).1) < HandleSize
  }

  /** The first corner handle, in clockwise order from the top-left, within
      reach of the local point. */
  function FirstCorner(tx: real, ty: real, s: Sticker): (r: Option<Corner>)
    ensures r.Some? ==> NearCorner(tx, ty, s, r.value)
    ensures r.Some? ==> forall i: Corner :: i < r.value ==> !NearCorner(tx, ty, s, i)
    ensures r.None? <==> forall i: Corner :: !NearCorner(tx, ty, s, i)
  {
    if NearCorner(tx, ty, s, 0) then Some(0)
    else if NearCorner(tx, ty, s, 1) then Some(1)
    else if NearCorner(tx, ty, s, 2) then Some(2)
    else if NearCorner(tx, ty, s, 3) then Some(3)
    else None
  }

  /** The local point lies on the sticker's body, edges included. */
  predicate InBody(tx: real, ty: real, s: Sticker) {
    -s.width / 2.0 <= tx <= s.width / 2.0 && -s.height / 2.0 <= ty <= s.height / 2.0
  }

  /** The local point is within reach of the rotate handle, which sits
      `HandleOffset` above the top-right corner. */
  predicate AtRotateHandle(tx: real, ty: real, s: Sticker) {
    Abs(tx - s.width / 2.0) < HandleSize && Abs(ty - (-s.height / 2.0 - HandleOffset)) < HandleSize
  }

  /** The local point is inside the delete handle's circle, centred
      `HandleOffset` right of and above the top-left corner. The source's
      `sqrt(d) < 10` is decided on the squared distance. */
  predicate AtDeleteHandle(tx: real, ty: real, s: Sticker) {
    var ex := tx - (-s.width / 2.0 + HandleOffset);
    var ey := ty - (-s.height / 2.0 - HandleOffset);
    ex * ex + ey * ey < DeleteRadius * DeleteRadius
  }

  /** Rotation-aware hit test of pointer (`px`, `py`) against sticker `s`.
      Whatever is touched, the local point lies in the sticker's box widened
      by the handles' reach: `HandleSize` on the left and bottom,
      `HandleOffset + HandleSize` above the top, and on the right up to the
      far side of the delete handle's circle when the sticker is narrower
      than it. The first touched corner is reported, clockwise from the
      top-left. */
  function HitTest(px: real, py: real, s: Sticker, trig: Trig): (h: Hit)
    ensures var (tx, ty) := LocalPoint(px, py, s, trig);
      s.width >= 0.0 && s.height >= 0.0 && h.Any() ==>
        -s.width / 2.0 - HandleSize < tx < Max(s.width / 2.0 + HandleSize, -s.width / 2.0 + HandleOffset + DeleteRadius) &&
        -s.height / 2.0 - HandleOffset - HandleSize < ty < s.height / 2.0 + HandleSize
    ensures var (tx, ty) := LocalPoint(px, py, s, trig);
      (h.resizeHandle.None? <==> forall i: Corner :: !NearCorner(tx, ty, s, i)) &&
      (h.resizeHandle.Some? ==> forall i: Corner :: i < h.resizeHandle.value ==> !NearCorner(tx, ty, s, i))
  {
    var (tx, ty) := LocalPoint(px, py, s, trig);
    var h := Hit(InBody(tx, ty, s), FirstCorner(tx, ty, s), AtRotateHandle(tx, ty, s), AtDeleteHandle(tx, ty, s));
    if s.width >= 0.0 && s.height >= 0.0 then
      HitWithinReach(tx, ty, s);
      h
    else h
  }

  /** A local point that touches the body or any handle lies in the box
      widened by the handles' reach. */
  lemma HitWithinReach(tx: real, ty: real, s: Sticker)
    requires s.width >= 0.0 && s.height >= 0.0
    ensures InBody(tx, ty, s) || FirstCorner(tx, ty, s).Some? || AtRotateHandle(tx, ty, s) || AtDeleteHandle(tx, ty, s) ==>
      -s.width / 2.0 - HandleSize < tx < Max(s.width / 2.0 + HandleSize, -s.width / 2.0 + HandleOffset + DeleteRadius) &&
      -s.height / 2.0 - HandleOffset - HandleSize < ty < s.height / 2.0 + HandleSize
  {
    if FirstCorner(tx, ty, s).Some? {
      CornerWithinReach(tx, ty, s, FirstCorner(tx, ty, s).value);
    }
    if AtDeleteHandle(tx, ty, s) {
      DeleteWithinReach(tx, ty, s);
    }
  }

  lemma DeleteWithinReach(tx: real, ty: real, s: Sticker)
    requires AtDeleteHandle(tx, ty, s)
    ensures -s.width / 2.0 + HandleOffset - DeleteRadius < tx < -s.width / 2.0 + HandleOffset + DeleteRadius
    ensures -s.height / 2.0 - HandleOffset - DeleteRadius < ty < -s.height / 2.0 - HandleOffset + DeleteRadius
  {
    DiskInsideSquare(tx - (-s.width / 2.0 + HandleOffset), ty - (-s.height / 2.0 - HandleOffset), DeleteRadius);
  }

  lemma CornerWithinReach(tx: real, ty: real, s: Sticker, i: Corner)
    requires s.width >= 0.0 && s.height >= 0.0 && NearCorner(tx, ty, s, i)
    ensures -s.width / 2.0 - HandleSize < tx < s.width / 2.0 + HandleSize
    ensures -s.height / 2.0 - HandleSize < ty < s.height / 2.0 + HandleSize
  {
  }

  /** A point of a disk lies in the disk's bounding square. */
  lemma DiskInsideSquare(ex: real, ey: real, radius: real)
    requires radius > 0.0
    ensures ex * ex + ey * ey < radius * radius ==> -radius < ex < radius && -radius < ey < radius
  {
    if ex >= radius { assert ex * ex >= radius * radius; }
    if ex <= -radius { assert ex * ex == (-ex) * (-ex) >= radius * radius; }
    if ey >= radius { assert ey * ey >= radius * radius; }
    if ey <= -radius { assert ey * ey == (-ey) * (-ey) >= radius * radius; }
  }

  /** A sticker's own center always hits its body, whatever its rotation and
      whatever values the host's trigonometry returns. */
  lemma CenterHitsBody(s: Sticker, trig: Trig)
    requires s.width >= 0.0 && s.height >= 0.0
    ensures HitTest(s.x, s.y, s, trig).inBounds
  {
    TurnSpecial(s.x - s.x, s.y - s.y, trig.cosDeg(-s.rotation), trig.sinDeg(-s.rotation));
  }

  /** With no rotation the body is the axis-aligned box around the center. */
  lemma UnrotatedBodyHit(px: real, py: real, s: Sticker, trig: Trig)
    requires s.rotation == 0.0 && trig.cosDeg(0.0) == 1.0 && trig.sinDeg(0.0) == 0.0
    ensures HitTest(px, py, s, trig).inBounds <==>
      s.x - s.width / 2.0 <= px <= s.x + s.width / 2.0 &&
      s.y - s.height / 2.0 <= py <= s.y + s.height / 2.0
  {
    assert -s.rotation == 0.0;
    assert trig.cosDeg(-s.rotation) == 1.0 && trig.sinDeg(-s.rotation) == 0.0;
    TurnSpecial(px - s.x, py - s.y, trig.cosDeg(-s.rotation), trig.sinDeg(-s.rotation));
  }

  // ---------------------------------------------------------------------
  // List helpers
  // ---------------------------------------------------------------------

  /** The stickers whose id is not `id`, in order. */
  function RemoveId(stickers: seq<Sticker>, id: int): (r: seq<Sticker>)
    ensures forall k :: 0 <= k < |r| ==> r[k].id != id
    ensures forall t :: multiset(r)[t] == if t.id == id then 0 else multiset(stickers)[t]
    ensures IsSubsequence(r, stickers)
  {
    var keep := (t: Sticker) => t.id != id;
    FilterCounts(stickers, keep);
    Filter(stickers, keep)
  }

  /** Removing an id that is present shortens the list. */
  lemma RemoveIdShrinks(stickers: seq<Sticker>, id: int, k: nat)
    requires k < |stickers| && stickers[k].id == id
    ensures |RemoveId(stickers, id)| < |stickers|
  {
    var r := RemoveId(stickers, id);
    assert stickers[k] in multiset(stickers);
    assert multiset(r)[stickers[k]] == 0;
    var d := multiset(stickers) - multiset(r);
    assert multiset(r) <= multiset(stickers);
    assert multiset(stickers) == multiset(r) + d;
    assert stickers[k] in d;
    assert |multiset(stickers)| == |multiset(r)| + |d|;
  }

  /** Applies `f` to every sticker with id `id` and leaves the others alone. */
  function UpdateId(stickers: seq<Sticker>, id: int, f: Sticker -> Sticker): (r: seq<Sticker>)
    ensures |r| == |stickers|
    ensures forall k :: 0 <= k < |r| ==>
      r[k] == if stickers[k].id == id then f(stickers[k]) else stickers[k]
  {
    Map(stickers, (t: Sticker) => if t.id == id then f(t) else t)
  }

  /** `k` is the first sticker in list order that the pointer touches. */
  ghost predicate FirstHit(stickers: seq<Sticker>, px: real, py: real, trig: Trig, k: nat) {
    && k < |stickers|
    && HitTest(px, py, stickers[k], trig).Any()
    && forall j :: 0 <= j < k ==> !HitTest(px, py, stickers[j], trig).Any()
  }

  // ---------------------------------------------------------------------
  // Pointer handlers
  // ---------------------------------------------------------------------

  /** Pointer-down at (`x`, `y`). The first sticker in list order that the
      pointer touches is picked. A touch on its delete handle removes every
      sticker with its id and clears the selection; otherwise it is selected
      and a drag starts: resize on a corner, else rotate on the rotate handle,
      else move. A pointer that touches nothing clears the selection. */
  function PointerDown(ed: Editor, x: real, y: real, trig: Trig): (r: Editor)
    ensures (forall k :: 0 <= k < |ed.stickers| ==> !HitTest(x, y, ed.stickers[k], trig).Any())
            ==> r == ed.(selected := None)
    ensures r.stickers == ed.stickers || IsSubsequence(r.stickers, ed.stickers)
    ensures r.selected.Some? ==>
      exists k: nat :: FirstHit(ed.stickers, x, y, trig, k) && ed.stickers[k].id == r.selected.value
    ensures WellFormed(ed) ==> WellFormed(r)
  {
    match FindIndex(ed.stickers, (s: Sticker) => HitTest(x, y, s, trig).Any())
    case None => ed.(selected := None)
    case Some(k) =>
      var c := ed.stickers[k];
      var hit := HitTest(x, y, c, trig);
      assert FirstHit(ed.stickers, x, y, trig, k);
      var picked := ed.(selected := Some(c.id), startX := x, startY := y);
      if hit.atDelete then
        RemoveKeepsWellFormed(picked, c.id);
        picked.(stickers := RemoveId(ed.stickers, c.id), selected := None)
      else if hit.resizeHandle.Some? then picked.(dragging := Some(Resize), resizeHandle := hit.resizeHandle)
      else if hit.atRotate then picked.(dragging := Some(Rotate))
      else if hit.inBounds then picked.(dragging := Some(Move))
      else picked
  }

  /** Deleting stickers keeps every remaining one with a positive size. */
  lemma RemoveKeepsWellFormed(ed: Editor, id: int)
    ensures WellFormed(ed) ==> WellFormed(ed.(stickers := RemoveId(ed.stickers, id)))
  {
    SubsequenceKeepsAll(RemoveId(ed.stickers, id), ed.stickers, (t: Sticker) => t.width > 0.0 && t.height > 0.0);
  }

  /** A property every element of `b` has is had by every element of a
      subsequence of `b`. */
  lemma {:induction false} SubsequenceKeepsAll<T>(a: seq<T>, b: seq<T>, p: T -> bool)
    requires IsSubsequence(a, b)
    ensures (forall k :: 0 <= k < |b| ==> p(b[k])) ==> forall k :: 0 <= k < |a| ==> p(a[k])
    decreases |b|
  {
    if |a| == 0 || |b| == 0 {
    } else if a[0] == b[0] && IsSubsequence(a[1..], b[1..]) {
      SubsequenceKeepsAll(a[1..], b[1..], p);
      if forall k :: 0 <= k < |b| ==> p(b[k]) {
        forall k | 0 <= k < |a| ensures p(a[k]) {
          if k > 0 { assert a[k] == a[1..][k - 1]; }
        }
      }
    } else {
      SubsequenceKeepsAll(a, b[1..], p);
      if forall k :: 0 <= k < |b| ==> p(b[k]) {
        assert forall k :: 0 <= k < |b[1..]| ==> p(b[1..][k]) by {
          forall k | 0 <= k < |b[1..]| ensures p(b[1..][k]) {
            assert b[1..][k] == b[k + 1];
          }
        }
      }
    }
  }

  /** The `x` factor of each corner's direction, for corners in clockwise
      order from the top-left: left corners shrink when dragged right. */
  function HandleSign(c: Corner): (sign: real)
    ensures sign == -1.0 || sign == 1.0
  {
    if c == 0 || c == 3 then -1.0 else 1.0
  }

  /** The new width and height of a resize: the drag is projected on the
      sticker's rotated x axis, the width is clamped below at `MinWidth`, and
      the height follows the old aspect ratio. */
  function ResizedSize(s: Sticker, corner: Corner, dx: real, dy: real, c: real, sn: real): (wh: (real, real))
    requires s.width > 0.0 && s.height > 0.0
    ensures wh.0 >= MinWidth && wh.1 > 0.0
    ensures wh.0 / wh.1 == s.width / s.height
    ensures wh.0 == Max(MinWidth, s.width + HandleSign(corner) * (dx * c + dy * sn))
  {
    var localDx := dx * c + dy * sn;
    var ratio := s.width / s.height;
    var newWidth := Max(MinWidth, s.width + HandleSign(corner) * localDx);
    var newHeight := newWidth / ratio;
    AspectKept(newWidth, ratio);
    (newWidth, newHeight)
  }

  /** Dividing a positive width by a positive ratio and back returns the ratio. */
  lemma AspectKept(w: real, ratio: real)
    requires w > 0.0 && ratio > 0.0
    ensures w / ratio > 0.0
    ensures w / (w / ratio) == ratio
  {
    assert (w / ratio) * ratio == w;
  }

  /** Pointer-move to (`x`, `y`). Outside a drag, with nothing selected or
      with the selection gone from the list, nothing changes. Otherwise the
      first sticker carrying the selected id drives the update, which is
      applied to every sticker with that id:
      - move: the pointer delta, rotated by the sticker's rotation, is added
        to the center;
      - resize: width and height change, the center does not;
      - rotate: the change in pointer angle around the center is added to
        the rotation, and the sum is reduced with JavaScript's `%` 360.
      The drag origin then becomes the current pointer. */
  function PointerMove(ed: Editor, x: real, y: real, trig: Trig): (r: Editor)
    requires WellFormed(ed)
    ensures ed.dragging.None? || ed.selected.None? ==> r == ed
    ensures ed.selected.Some? && (forall k :: 0 <= k < |ed.stickers| ==> ed.stickers[k].id != ed.selected.value) ==> r == ed
    ensures r.selected == ed.selected && r.dragging == ed.dragging && r.resizeHandle == ed.resizeHandle
    ensures |r.stickers| == |ed.stickers|
    ensures forall k :: 0 <= k < |ed.stickers| ==>
      && r.stickers[k].id == ed.stickers[k].id
      && r.stickers[k].image == ed.stickers[k].image
      && (Some(ed.stickers[k].id) != ed.selected ==> r.stickers[k] == ed.stickers[k])
    ensures WellFormed(r)
  {
    if ed.dragging.None? || ed.selected.None? then ed
    else
      var id := ed.selected.value;
      match FindIndex(ed.stickers, (t: Sticker) => t.id == id)
      case None => ed
      case Some(k) =>
        var s := ed.stickers[k];
        var updated := UpdateId(ed.stickers, id, (t: Sticker) => DragStep(ed, s, x, y, trig, t));
        ed.(stickers := updated, startX := x, startY := y)
  }

  /** What the current drag does to a sticker `t` carrying the selected id
      when the pointer moves to (`x`, `y`) and `s` is the driving sticker. */
  function DragStep(ed: Editor, s: Sticker, x: real, y: real, trig: Trig, t: Sticker): (u: Sticker)
    requires ed.dragging.Some? && s.width > 0.0 && s.height > 0.0
    ensures u.id == t.id && u.image == t.image
    ensures t.width > 0.0 && t.height > 0.0 ==> u.width > 0.0 && u.height > 0.0
  {
    var dx := x - ed.startX;
    var dy := y - ed.startY;
    var c := trig.cosDeg(s.rotation);
    var sn := trig.sinDeg(s.rotation);
    match ed.dragging.value
    case Move =>
      var move := TurnBack(dx, dy, c, sn);
      t.(x := t.x + move.0, y := t.y + move.1)
    case Resize =>
      if ed.resizeHandle.None? then t
      else
        var wh := ResizedSize(s, ed.resizeHandle.value, dx, dy, c, sn);
        t.(width := wh.0, height := wh.1)
    case Rotate =>
      var startAngle := trig.atan2Deg(ed.startY - s.y, ed.startX - s.x);
      var currentAngle := trig.atan2Deg(y - s.y, x - s.x);
      var angleDiff := currentAngle - startAngle;
      t.(rotation := JsRem360(t.rotation + angleDiff))
  }

  /** Pointer-up ends any gesture: no drag mode, no corner, and the stickers,
      the selection and the drag origin are left as they are. */
  function PointerUp(ed: Editor): (r: Editor)
    ensures r.dragging.None? && r.resizeHandle.None?
    ensures r.stickers == ed.stickers && r.selected == ed.selected
    ensures r.startX == ed.startX && r.startY == ed.startY
  {
    ed.(dragging := None, resizeHandle := None)
  }

  /** The Delete key removes every sticker with the selected id and clears the
      selection; with nothing selected, or for any other key, nothing changes. */
  function KeyDown(ed: Editor, key: string): (r: Editor)
    ensures key != "Delete" || ed.selected.None? ==> r == ed
    ensures key == "Delete" && ed.selected.Some? ==>
      && r.selected.None?
      && r.dragging == ed.dragging
      && (forall k :: 0 <= k < |r.stickers| ==> Some(r.stickers[k].id) != ed.selected)
      && (forall t: Sticker :: t.id != ed.selected.value ==> multiset(r.stickers)[t] == multiset(ed.stickers)[t])
      && IsSubsequence(r.stickers, ed.stickers)
    ensures r.(stickers := ed.stickers, selected := ed.selected) == ed
    ensures WellFormed(ed) ==> WellFormed(r)
  {
    if key == "Delete" && ed.selected.Some? then
      var rest := RemoveId(ed.stickers, ed.selected.value);
      SubsequenceKeepsAll(rest, ed.stickers, (t: Sticker) => t.width > 0.0 && t.height > 0.0);
      ed.(stickers := rest, selected := None)
    else ed
  }
}

/** Properties of the gesture handlers that relate an event to the sticker it
    lands on, and the concrete gestures that tell this engine's behaviour
    apart from a naive reading of "drag to move, drag a corner to resize". */
module StickerGestures {
  import opened Common
  import opened StickerEngine

  /** Pointer-down acts on the first sticker the pointer touches: on its
      delete handle it removes that id (exactly what the Delete key does with
      it selected) and keeps the drag state; anywhere else it selects it,
      records the drag origin and picks the drag mode, a corner winning over
      the rotate handle and the rotate handle over the body. */
  lemma PointerDownActsOnFirstHit(ed: Editor, x: real, y: real, trig: Trig, k: nat)
    requires FirstHit(ed.stickers, x, y, trig, k)
    ensures var r := PointerDown(ed, x, y, trig);
      var id := ed.stickers[k].id;
      var hit := HitTest(x, y, ed.stickers[k], trig);
      && (hit.atDelete ==>
            && r.selected.None?
            && r.dragging == ed.dragging
            && r.stickers == KeyDown(ed.(selected := Some(id)), "Delete").stickers
            && |r.stickers| < |ed.stickers|)
      && (!hit.atDelete ==>
            && r.stickers == ed.stickers
            && r.selected == Some(id)
            && r.startX == x && r.startY == y
            && (hit.resizeHandle.Some? ==> r.dragging == Some(Resize) && r.resizeHandle == hit.resizeHandle)
            && (hit.resizeHandle.None? && hit.atRotate ==> r.dragging == Some(Rotate))
            && (hit.resizeHandle.None? && !hit.atRotate ==> r.dragging == Some(Move)))
  {
    FindIndexIsFirst(ed.stickers, (s: Sticker) => HitTest(x, y, s, trig).Any(), k);
    RemoveIdShrinks(ed.stickers, ed.stickers[k].id, k);
  }

  /** After pointer-up, moving the pointer changes nothing. */
  lemma MoveAfterUpIsInert(ed: Editor, x: real, y: real, trig: Trig)
    requires WellFormed(ed)
    ensures PointerMove(PointerUp(ed), x, y, trig) == PointerUp(ed)
  {
  }

  /** `k` is the first sticker carrying the selected id: the one whose
      rotation, size and center drive a drag. */
  predicate Driver(ed: Editor, k: nat) {
    && ed.selected.Some?
    && k < |ed.stickers|
    && ed.stickers[k].id == ed.selected.value
    && forall j :: 0 <= j < k ==> ed.stickers[j].id != ed.selected.value
  }

  lemma DriverFound(ed: Editor, k: nat)
    requires Driver(ed, k)
    ensures FindIndex(ed.stickers, (t: Sticker) => t.id == ed.selected.value) == Some(k)
  {
  }

  /** During a drag every sticker with the selected id takes the step that
      the driving sticker `k` determines. */
  lemma DriverDrags(ed: Editor, x: real, y: real, trig: Trig, k: nat, j: nat)
    requires WellFormed(ed) && ed.dragging.Some? && Driver(ed, k)
    requires j < |ed.stickers| && ed.stickers[j].id == ed.selected.value
    ensures PointerMove(ed, x, y, trig).stickers[j] == DragStep(ed, ed.stickers[k], x, y, trig, ed.stickers[j])
    ensures PointerMove(ed, x, y, trig).startX == x && PointerMove(ed, x, y, trig).startY == y
  {
    DriverFound(ed, k);
  }

  /** A move drag adds the pointer delta, rotated by the driving sticker's
      rotation, to the center of every sticker with the selected id. With
      rotation 0 that is the raw pointer delta; at a quarter turn a drag to
      the right moves the sticker up. */
  lemma MoveStep(ed: Editor, s: Sticker, x: real, y: real, trig: Trig, t: Sticker)
    requires ed.dragging == Some(Move) && s.width > 0.0 && s.height > 0.0
    ensures var u := DragStep(ed, s, x, y, trig, t);
      var dx := x - ed.startX;
      var dy := y - ed.startY;
      && u == t.(x := t.x + dx * trig.cosDeg(s.rotation) + dy * trig.sinDeg(s.rotation),
                 y := t.y - dx * trig.sinDeg(s.rotation) + dy * trig.cosDeg(s.rotation))
      && (trig.cosDeg(s.rotation) == 1.0 && trig.sinDeg(s.rotation) == 0.0 ==>
            u.x == t.x + dx && u.y == t.y + dy)
      && (trig.cosDeg(s.rotation) == 0.0 && trig.sinDeg(s.rotation) == 1.0 ==>
            u.x == t.x + dy && u.y == t.y - dx)
  {
    TurnSpecial(x - ed.startX, y - ed.startY, trig.cosDeg(s.rotation), trig.sinDeg(s.rotation));
  }

  /** A resize drag keeps the center and rotation of a sticker and gives it
      a size that depends only on the driving sticker and the pointer: at
      least `MinWidth` wide, with the driving sticker's aspect ratio, so
      every sticker with the selected id gets the same size. */
  lemma ResizeStep(ed: Editor, s: Sticker, x: real, y: real, trig: Trig, t: Sticker)
    requires ed.dragging == Some(Resize) && ed.resizeHandle.Some? && s.width > 0.0 && s.height > 0.0
    ensures var u := DragStep(ed, s, x, y, trig, t);
      var local := (x - ed.startX) * trig.cosDeg(s.rotation) + (y - ed.startY) * trig.sinDeg(s.rotation);
      && u.x == t.x && u.y == t.y && u.rotation == t.rotation
      && u.width == Max(MinWidth, s.width + HandleSign(ed.resizeHandle.value) * local)
      && u.width / u.height == s.width / s.height
  {
  }

  /** A rotate drag adds the change of the pointer's angle around the driving
      sticker's center to a sticker's rotation, reduced by JavaScript's `%`:
      the result is congruent to the sum modulo 360, lies strictly between
      -360 and 360, and is negative when the sum is. */
  lemma RotateStep(ed: Editor, s: Sticker, x: real, y: real, trig: Trig, t: Sticker)
    requires ed.dragging == Some(Rotate) && s.width > 0.0 && s.height > 0.0
    ensures var u := DragStep(ed, s, x, y, trig, t);
      var sum := t.rotation + (trig.atan2Deg(y - s.y, x - s.x) - trig.atan2Deg(ed.startY - s.y, ed.startX - s.x));
      && u == t.(rotation := u.rotation)
      && -360.0 < u.rotation < 360.0
      && ((sum - u.rotation) / 360.0).Floor as real == (sum - u.rotation) / 360.0
      && (sum < 0.0 ==> u.rotation <= 0.0)
      && (-360.0 < sum < 360.0 ==> u.rotation == sum)
  {
  }
}

/** Two concrete drags that show where the engine departs from a
    fixed-opposite-corner resize and from a rotation kept in [0, 360). */
module StickerScenarios {
  import opened Common
  import opened StickerEngine

  /** Host trigonometry for an unrotated sticker and a pointer that swings
      from straight right of the center to straight above it. */
  const Flat := Trig((t: real) => 1.0, (t: real) => 0.0,
                     (dy: real, dx: real) => if dy < 0.0 then -90.0 else 0.0)

  const Card := Sticker(1, ImageRef(0), 100.0, 100.0, 100.0, 50.0, 0.0)

  /** Dragging the bottom-right corner of a 100x50 sticker centred at
      (100, 100) by 20 to the right gives a 120x60 sticker with the same
      center, so the bottom-left corner moves from (50, 125) to (40, 130). */
  lemma ResizeMovesOppositeCorner()
    ensures var ed := Editor([Card], Some(1), Some(Resize), 150.0, 125.0, Some(2));
      var t := PointerMove(ed, 170.0, 125.0, Flat).stickers[0];
      && t.width == 120.0 && t.height == 60.0
      && (t.x, t.y) == (Card.x, Card.y)
      && (Card.x - Card.width / 2.0, Card.y + Card.height / 2.0) == (50.0, 125.0)
      && (t.x - t.width / 2.0, t.y + t.height / 2.0) == (40.0, 130.0)
  {
    var ed := Editor([Card], Some(1), Some(Resize), 150.0, 125.0, Some(2));
    var wh := ResizedSize(Card, 2, 20.0, 0.0, 1.0, 0.0);
    assert wh.0 == 120.0;
    assert 120.0 / wh.1 == 2.0;
    assert PointerMove(ed, 170.0, 125.0, Flat).stickers[0] == Card.(width := wh.0, height := wh.1);
  }

  /** Swinging the pointer a quarter turn counter-clockwise around an
      unrotated sticker leaves it at rotation -90, outside [0, 360). */
  lemma RotationCanTurnNegative()
    ensures var ed := Editor([Card], Some(1), Some(Rotate), 200.0, 100.0, None);
      PointerMove(ed, 100.0, 0.0, Flat).stickers[0].rotation == -90.0
  {
  }
}
