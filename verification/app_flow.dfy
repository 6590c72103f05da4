/** The application's top-level state and its handlers: capturing photos up
    to the layout's capacity, moving on to customising once the strip is
    full, resetting, switching layouts while nothing is captured, adding
    stickers and removing photos. */
module AppFlow {
  import opened Common
  import opened Layouts

  /** The three stages of the flow, in order. */
  datatype Step = LayoutStep | Customize | Download

  /** A sticker as the application stores it; `x`, `y` and `src` come from
      the request, the rest is filled in on insertion. */
  datatype AppSticker = AppSticker(
    id: int, src: string, x: real, y: real, rotate: real, width: real, height: real)

  /** What a control asks to add: the image and where to put it. */
  datatype StickerRequest = StickerRequest(src: string, x: real, y: real)

  datatype App = App(
    hasPermission: bool,
    photos: seq<Photo>,
    frameColor: string,
    background: Option<string>,
    textOverlay: string,
    stickers: seq<AppSticker>,
    fullStrip: bool,
    layout: int,
    step: Step)

  /** The state on first render (before the camera permission arrives, or
      after it if `hasPermission`). */
  function Initial(hasPermission: bool): (a: App)
    ensures Valid(a) && a.hasPermission == hasPermission
    ensures a.photos == [] && a.stickers == [] && a.step == LayoutStep
    ensures a.layout in Catalog && MaxPhotos(a.layout) == 4
  {
    App(hasPermission, [], "#000000", None, "", [], false, DefaultLayoutId, LayoutStep)
  }

  /** The layout is a catalog entry and the strip is not over-full. */
  predicate Valid(a: App) {
    a.layout in Catalog && |a.photos| <= MaxPhotos(a.layout)
  }

  lemma InitialIsValid(hasPermission: bool)
    ensures Valid(Initial(hasPermission))
  {
  }

  /** `resetAll`: everything back to how the application started, except the
      camera permission, which it keeps. */
  function ResetAll(a: App): (r: App)
    ensures r == Initial(a.hasPermission)
    ensures Valid(r)
  {
    a.(photos := [], frameColor := "#000000", background := None, textOverlay := "",
       stickers := [], fullStrip := false, layout := 1, step := LayoutStep)
  }

  /** `handlePhotoCapture` with `id` the fresh UUID: below capacity the photo
      is appended, and the capture that fills the strip moves the flow on to
      customising; at capacity nothing changes. */
  function HandlePhotoCapture(a: App, id: string, url: string): (r: App)
    requires a.layout in Catalog
    ensures |a.photos| < MaxPhotos(a.layout) ==> r.photos == a.photos + [Photo(id, url)]
    ensures |a.photos| >= MaxPhotos(a.layout) ==> r == a
    ensures r.step == a.step || r.step == Customize
    ensures |a.photos| < MaxPhotos(a.layout) == |r.photos| ==> r.step == Customize
    ensures |r.photos| < MaxPhotos(a.layout) ==> r.step == a.step
    ensures r.(photos := a.photos, step := a.step) == a
    ensures Valid(a) ==> Valid(r)
  {
    var max := Catalog[a.layout].maxPhotos;
    if |a.photos| < max then
      var b := a.(photos := a.photos + [Photo(id, url)]);
      if |a.photos| + 1 == max then b.(step := Customize) else b
    else a
  }

  /** A run of captures, one `(id, url)` shot at a time. */
  function CaptureAll(a: App, shots: seq<(string, string)>): App
    requires a.layout in Catalog
    decreases |shots|
  {
    if |shots| == 0 then a
    else CaptureAll(HandlePhotoCapture(a, shots[0].0, shots[0].1), shots[1..])
  }

  function AsPhotos(shots: seq<(string, string)>): (r: seq<Photo>)
    ensures |r| == |shots|
    ensures forall k :: 0 <= k < |shots| ==> r[k] == Photo(shots[k].0, shots[k].1)
  {
    seq(|shots|, k requires 0 <= k < |shots| => Photo(shots[k].0, shots[k].1))
  }

  /** However many shots arrive, the strip keeps the first ones that fit,
      drops the rest, and never goes over capacity. */
  lemma {:induction false} CaptureKeepsFirst(a: App, shots: seq<(string, string)>)
    requires Valid(a)
    ensures var r := CaptureAll(a, shots);
      var room := MaxPhotos(a.layout) - |a.photos|;
      var taken := if |shots| < room then |shots| else room;
      Valid(r) && r.photos == a.photos + AsPhotos(shots[..taken])
    decreases |shots|
  {
    var max := MaxPhotos(a.layout);
    if |shots| == 0 {
      assert shots[..0] == [];
    } else if |a.photos| == max {
      CaptureWhenFull(a, shots);
      assert shots[..0] == [];
    } else {
      var b := HandlePhotoCapture(a, shots[0].0, shots[0].1);
      var room := max - |a.photos|;
      var taken := if |shots| < room then |shots| else room;
      assert b.photos == a.photos + [Photo(shots[0].0, shots[0].1)];
      CaptureKeepsFirst(b, shots[1..]);
      AsPhotosStep(shots, taken);
      AppendAssoc(a.photos, [Photo(shots[0].0, shots[0].1)], AsPhotos(shots[1..][..taken - 1]));
    }
  }

  /** The flow moves on to customising exactly when a run of captures fills
      the strip; a run that leaves room keeps the step. */
  lemma {:induction false} CaptureReachesCustomize(a: App, shots: seq<(string, string)>)
    requires Valid(a)
    ensures var r := CaptureAll(a, shots);
      && (|a.photos| < MaxPhotos(a.layout) <= |a.photos| + |shots| ==> r.step == Customize)
      && (|a.photos| + |shots| < MaxPhotos(a.layout) ==> r.step == a.step)
    decreases |shots|
  {
    if |shots| > 0 && |a.photos| < MaxPhotos(a.layout) {
      var b := HandlePhotoCapture(a, shots[0].0, shots[0].1);
      if |b.photos| == MaxPhotos(a.layout) {
        CaptureWhenFull(b, shots[1..]);
      } else {
        CaptureReachesCustomize(b, shots[1..]);
      }
    }
  }

  /** At capacity a run of captures changes nothing. */
  lemma {:induction false} CaptureWhenFull(a: App, shots: seq<(string, string)>)
    requires a.layout in Catalog && |a.photos| >= MaxPhotos(a.layout)
    ensures CaptureAll(a, shots) == a
    decreases |shots|
  {
    if |shots| > 0 {
      CaptureWhenFull(a, shots[1..]);
    }
  }

  lemma AppendAssoc(x: seq<Photo>, y: seq<Photo>, z: seq<Photo>)
    ensures (x + y) + z == x + (y + z)
  {
  }

  lemma AsPhotosStep(shots: seq<(string, string)>, t: nat)
    requires 1 <= t <= |shots|
    ensures AsPhotos(shots[..t]) == [Photo(shots[0].0, shots[0].1)] + AsPhotos(shots[1..][..t - 1])
  {
    assert shots[1..][..t - 1] == shots[1..t];
  }

  /** The layout picker's `onLayoutChange`: applied only while choosing a
      layout and before any photo exists. */
  function OnLayoutChange(a: App, newLayout: int): (r: App)
    requires newLayout in Catalog
    ensures r.layout == newLayout || r == a
    ensures r.layout != a.layout ==> a.step == LayoutStep && |a.photos| == 0
    ensures a.step == LayoutStep && |a.photos| == 0 ==> r.layout == newLayout
    ensures r.(layout := a.layout) == a
    ensures Valid(a) ==> Valid(r)
  {
    if a.step == LayoutStep && |a.photos| == 0 then a.(layout := newLayout) else a
  }

  /** Without the guard, a layout change could leave more photos than the
      new layout holds: four photos under layout 1, then layout 3. */
  lemma UnguardedLayoutChangeOverfills()
    ensures var a := Initial(true).(photos := [Photo("a", ""), Photo("b", ""), Photo("c", ""), Photo("d", "")]);
      Valid(a) && !Valid(a.(layout := 3)) && OnLayoutChange(a, 3) == a
  {
  }

  /** `onStickerAdd` with `now` the clock reading used as id: the request
      is stored unrotated at 100 by 100 after the existing stickers. */
  function OnStickerAdd(a: App, req: StickerRequest, now: int): (r: App)
    ensures |r.stickers| == |a.stickers| + 1 && r.stickers[..|a.stickers|] == a.stickers
    ensures var s := r.stickers[|a.stickers|];
      && s.id == now && s.src == req.src && s.x == req.x && s.y == req.y
      && s.rotate == 0.0 && s.width == 100.0 && s.height == 100.0
    ensures r.(stickers := a.stickers) == a
  {
    var s := AppSticker(now, req.src, req.x, req.y, 0.0, 100.0, 100.0);
    a.(stickers := a.stickers + [s])
  }

  /** `onPhotoRemove`: the photos with that id go, the others stay in order. */
  function OnPhotoRemove(a: App, id: string): (r: App)
    ensures !HasId(r.photos, id)
    ensures IsSubsequence(r.photos, a.photos)
    ensures forall p: Photo :: p.id != id ==> multiset(r.photos)[p] == multiset(a.photos)[p]
    ensures r.(photos := a.photos) == a
    ensures Valid(a) ==> Valid(r)
  {
    a.(photos := WithoutId(a.photos, id))
  }

  /** After removing a photo the strip has room again, and the next capture
      is taken. */
  lemma RemoveMakesRoom(a: App, id: string, newId: string, url: string)
    requires Valid(a) && HasId(a.photos, id)
    ensures var b := OnPhotoRemove(a, id);
      HandlePhotoCapture(b, newId, url).photos == b.photos + [Photo(newId, url)]
  {
    WithoutIdShrinks(a.photos, id);
  }
}
