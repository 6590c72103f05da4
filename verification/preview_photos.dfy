/** The preview gallery: photos offered for the strip and the ones picked
    for it. A click toggles a preview in or out of the selection, which is
    capped at the strip's capacity; a delete removes a photo from both. */
module PreviewPhotos {
  import opened Common

  /** `previewPhotos` and `selectedPhotos`, each in display order. */
  datatype Gallery = Gallery(previews: seq<Photo>, selected: seq<Photo>)

  /** `toggleFromStrip`. In view-only mode nothing happens. A selected id is
      deselected (every entry with it goes). Otherwise, while the selection
      is below `maxPhotos`, the first preview with that id is appended; a
      full selection, or an id no preview has, changes nothing (the full case
      only raises an alert). */
  function ToggleFromStrip(g: Gallery, viewOnly: bool, maxPhotos: int, id: string): (r: Gallery)
    ensures r.previews == g.previews
    ensures viewOnly ==> r == g
    ensures !viewOnly && HasId(g.selected, id) ==>
      && !HasId(r.selected, id)
      && IsSubsequence(r.selected, g.selected)
      && forall p: Photo :: p.id != id ==> multiset(r.selected)[p] == multiset(g.selected)[p]
    ensures !viewOnly && !HasId(g.selected, id) && |g.selected| < maxPhotos && HasId(g.previews, id) ==>
      exists k :: 0 <= k < |g.previews| && g.previews[k].id == id
        && (forall j :: 0 <= j < k ==> g.previews[j].id != id)
        && r.selected == g.selected + [g.previews[k]]
    ensures !HasId(g.selected, id) && (|g.selected| >= maxPhotos || !HasId(g.previews, id)) ==> r == g
    ensures |g.selected| <= maxPhotos ==> |r.selected| <= maxPhotos
  {
    if viewOnly then g
    else if HasId(g.selected, id) then g.(selected := WithoutId(g.selected, id))
    else if |g.selected| < maxPhotos then
      match FindIndex(g.previews, (p: Photo) => p.id == id)
      case Some(k) => g.(selected := g.selected + [g.previews[k]])
      case None => g
    else g
  }

  /** A toggle flips membership whenever it can: afterwards the id is
      selected exactly when it was not, there was room, and some preview
      carries it. */
  lemma ToggleFlipsMembership(g: Gallery, maxPhotos: int, id: string)
    ensures HasId(ToggleFromStrip(g, false, maxPhotos, id).selected, id) <==>
      !HasId(g.selected, id) && |g.selected| < maxPhotos && HasId(g.previews, id)
  {
    var r := ToggleFromStrip(g, false, maxPhotos, id);
    if !HasId(g.selected, id) && |g.selected| < maxPhotos && HasId(g.previews, id) {
      var k :| 0 <= k < |g.previews| && g.previews[k].id == id && r.selected == g.selected + [g.previews[k]];
      assert r.selected[|g.selected|].id == id;
    }
  }

  /** Selecting a photo and then clicking it again gives back the selection
      it started from. */
  lemma ToggleTwiceRestores(g: Gallery, maxPhotos: int, id: string)
    requires !HasId(g.selected, id) && |g.selected| < maxPhotos && HasId(g.previews, id)
    ensures ToggleFromStrip(ToggleFromStrip(g, false, maxPhotos, id), false, maxPhotos, id) == g
  {
    var r := ToggleFromStrip(g, false, maxPhotos, id);
    var k :| 0 <= k < |g.previews| && g.previews[k].id == id && r.selected == g.selected + [g.previews[k]];
    ToggleFlipsMembership(g, maxPhotos, id);
    var keep := (p: Photo) => p.id != id;
    FilterAppend(g.selected, [g.previews[k]], keep);
    assert Filter([g.previews[k]], keep) == [];
    assert WithoutId(g.selected, id) == g.selected;
  }

  /** `deletePreviewPhoto`: the id leaves the previews, and the selection
      too when it holds it. */
  function DeletePreviewPhoto(g: Gallery, id: string): (r: Gallery)
    ensures !HasId(r.previews, id) && !HasId(r.selected, id)
    ensures IsSubsequence(r.previews, g.previews) && IsSubsequence(r.selected, g.selected)
    ensures forall p: Photo :: p.id != id ==>
      multiset(r.previews)[p] == multiset(g.previews)[p] &&
      multiset(r.selected)[p] == multiset(g.selected)[p]
    ensures |r.selected| <= |g.selected|
  {
    var selected := if HasId(g.selected, id) then WithoutId(g.selected, id) else g.selected;
    assert selected == WithoutId(g.selected, id);
    Gallery(WithoutId(g.previews, id), selected)
  }

  /** The `includes` check before filtering the selection is redundant:
      the result is the selection filtered either way. */
  lemma DeleteFiltersBoth(g: Gallery, id: string)
    ensures DeletePreviewPhoto(g, id) == Gallery(WithoutId(g.previews, id), WithoutId(g.selected, id))
  {
  }

  /** Deleting the same photo twice is the same as deleting it once. */
  lemma DeleteIdempotent(g: Gallery, id: string)
    ensures DeletePreviewPhoto(DeletePreviewPhoto(g, id), id) == DeletePreviewPhoto(g, id)
  {
  }

  /** Neither operation can push the selection past the capacity. */
  lemma SelectionStaysWithinCapacity(g: Gallery, viewOnly: bool, maxPhotos: int, id: string, del: string)
    requires |g.selected| <= maxPhotos
    ensures |ToggleFromStrip(g, viewOnly, maxPhotos, id).selected| <= maxPhotos
    ensures |DeletePreviewPhoto(g, del).selected| <= maxPhotos
  {
  }
}
