/** The stand-alone canvas strip editor: a fixed 400-pixel-wide canvas whose
    height grows with the number of photos, photos stacked top to bottom with
    a constant gap, and new stickers dropped in the middle of the photo
    column. Its pointer handlers and Delete key are those of `StickerEngine`. */
module RefStrip {
  import opened Common
  import opened StickerEngine
  import StripGeometry

  const CanvasWidth: real := 400.0
  const PhotoHeight: real := 300.0
  const Padding: real := 20.0
  const Gap: real := 10.0
  /** Width of a drawn photo: the canvas minus the left and right padding. */
  const PhotoWidth: real := CanvasWidth - Padding - Padding

  /** Canvas height for `n` photos: both paddings, the photos, and a gap
      between consecutive photos. */
  function CanvasHeight(n: nat): (h: real)
    ensures n == 0 ==> h == Padding + Padding
    ensures n >= 1 ==> h == PhotoTop(n - 1) + PhotoHeight + Padding
  {
    Padding + Padding + n as real * PhotoHeight + (if n > 1 then (n - 1) as real * Gap else 0.0)
  }

  /** Top edge of photo `i`. */
  function PhotoTop(i: nat): real {
    Padding + i as real * (PhotoHeight + Gap)
  }

  /** Photos are stacked in order with exactly one gap between neighbours,
      starting one padding below the top of the canvas, and all of them lie
      inside the canvas. */
  lemma PhotosStack(n: nat, i: nat)
    requires i < n
    ensures PhotoTop(0) == Padding
    ensures i + 1 < n ==> PhotoTop(i + 1) == PhotoTop(i) + PhotoHeight + Gap
    ensures Padding <= PhotoTop(i) && PhotoTop(i) + PhotoHeight <= CanvasHeight(n) - Padding
  {
    assert PhotoTop(i) + PhotoHeight <= PhotoTop(n - 1) + PhotoHeight by {
      assert (i as real) * (PhotoHeight + Gap) <= ((n - 1) as real) * (PhotoHeight + Gap);
    }
  }

  /** The photo column as drawn: photo `i` occupies `PhotoRect(i)`. */
  function PhotoRect(i: nat): (r: (real, real, real, real))
    ensures r.0 == Padding && r.2 == PhotoWidth && r.0 + r.2 == CanvasWidth - Padding
    ensures r.1 == PhotoTop(i) && r.3 == PhotoHeight
    ensures i > 0 ==> r.1 == PhotoTop(i - 1) + PhotoHeight + Gap
  {
    (Padding, PhotoTop(i), PhotoWidth, PhotoHeight)
  }

  /** Adds a 100x100 unrotated sticker with id `now` (the host clock) and
      selects it. It is centred horizontally on the canvas and vertically on
      the photo column, or at half a photo's height when there are no photos. */
  function AddSticker(ed: Editor, photoCount: nat, image: ImageRef, now: int): (r: Editor)
    ensures |r.stickers| == |ed.stickers| + 1 && r.stickers[..|ed.stickers|] == ed.stickers
    ensures r.selected == Some(now)
    ensures var s := r.stickers[|ed.stickers|];
      && s.id == now && s.image == image
      && s.width == 100.0 && s.height == 100.0 && s.rotation == 0.0
      && s.x == CanvasWidth / 2.0
      && (photoCount == 0 ==> s.y == PhotoHeight / 2.0)
      && (photoCount > 0 ==> s.y - PhotoTop(0) == PhotoTop(photoCount - 1) + PhotoHeight - s.y)
    ensures r.dragging == ed.dragging && r.resizeHandle == ed.resizeHandle
    ensures WellFormed(ed) ==> WellFormed(r)
  {
    var n := photoCount as real;
    var y := if photoCount > 0 then Padding + (n * PhotoHeight + (n - 1.0) * Gap) / 2.0 else PhotoHeight / 2.0;
    var s := Sticker(now, image, CanvasWidth / 2.0, y, 100.0, 100.0, 0.0);
    ed.(stickers := ed.stickers + [s], selected := Some(now))
  }

  /** An added sticker is hit at its center, so the next pointer-down there
      selects it unless an earlier sticker covers the same spot. */
  lemma AddedStickerIsReachable(ed: Editor, photoCount: nat, image: ImageRef, now: int, trig: Trig)
    ensures var r := AddSticker(ed, photoCount, image, now);
      var s := r.stickers[|ed.stickers|];
      HitTest(s.x, s.y, s, trig).inBounds
  {
    var r := AddSticker(ed, photoCount, image, now);
    CenterHitsBody(r.stickers[|ed.stickers|], trig);
  }

  /** Photos are cropped to the drawn photo's 6:5 aspect ratio. */
  lemma CropMatchesPhotoAspect(imgW: real, imgH: real)
    requires imgW > 0.0 && imgH > 0.0
    ensures var r := StripGeometry.CenterCrop(imgW, imgH, PhotoWidth, PhotoHeight);
      r.width / r.height == 6.0 / 5.0
  {
  }
}
