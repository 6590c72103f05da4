# Photobooth strip editor — a Dafny model

This project models the logic core of a browser photobooth: a user picks a
strip layout, captures or uploads photos into its slots, decorates the strip
with stickers that can be dragged, resized, rotated, restacked and deleted,
and picks frame colours. The model covers:

- **the layout catalog** (`Layouts`): the three strip layouts and their photo
  capacities;
- **canvas strip geometry** (`StripGeometry`): default paddings and gap, the
  photo size for grid, vertical and horizontal arrangements, the slot
  rectangles drawn for each photo or placeholder, and the centre crop that
  fits a captured image to a slot; the catalog's inch sizes are used as
  canvas pixels unchanged, which the model records and then corrects by
  converting at 96 pixels per inch;
- **the fixed-size reference strip** (`RefStrip`): its canvas height, photo
  positions and where a new sticker lands;
- **the canvas sticker gesture engine** (`StickerEngine`, `StickerGestures`,
  `StickerScenarios`): hit-testing a point against a rotated sticker and its
  resize, rotate and delete handles, and the pointer-down / pointer-move /
  pointer-up / Delete-key state machine that moves, resizes, rotates and
  removes stickers;
- **the DOM strip editor** (`DomStrip`, `EngineSort`): photo reordering by
  drag and drop, grid snapping and alignment guides, sticker drag, resize
  (with and without Shift), rotate (with 15° snapping), position bounding,
  bring-to-front / send-to-back, and the strip's CSS padding. In the
  shipped component the sticker elements that call the drag, resize and
  rotate handlers and bring-to-front are commented out
  (src/components/PhotoStrip.tsx:396-580) and send-to-back is never called,
  so these handlers are modelled as written but are not reachable from the
  live interface;
- **colour utilities** (`Colors`): hex to RGB and back, the black/white
  contrast colour, and colour-format classification;
- **the preview gallery** (`PreviewPhotos`): toggling a preview in and out of
  the selection and deleting previews;
- **the application flow** (`AppFlow`): capture up to capacity, moving on to
  customising, reset, guarded layout change, adding stickers and removing
  photos;
- **the frame controls** (`FrameControls`): the layout picker's labels and
  options, its change handler, and where a sticker added from the panel
  lands.

Shared helpers (`Common`) hold the option type, photo records, filtering with
its multiset and subsequence facts, and the JavaScript numeric operations the
source relies on (`Math.round`, truncating `%` with 360, `Math.trunc`).

Numbers are JavaScript doubles in the source; the model uses exact reals.
`Math.cos`, `Math.sin` and `Math.atan2` enter as a `Trig` record of functions
over degrees supplied by the caller, so every statement about rotation holds
for whatever values those functions return. A distance test
`sqrt(d) < 10` is stated as `d < 100`, which is the same condition for the
non-negative `d` the source computes. `parseInt(s, 16)` follows ECMAScript
(leading white space, an optional sign, an optional `0x`, the longest run of
hex digits, `NaN` as `None`).

Four behaviours of the code worth knowing:

- a MOVE drag rotates the pointer delta into the sticker's frame before
  adding it; a RESIZE keeps the sticker's centre fixed, so the opposite
  corner moves too (`StickerScenarios.ResizeMovesOppositeCorner`);
- when stickers overlap, the first one in list order is hit, not the one
  drawn on top;
- rotation is reduced with a truncating `% 360`, so it can be negative
  (`StickerScenarios.RotationCanTurnNegative`);
- a pointer-down on a delete handle still records the start point.

## Model

| member | source | states |
|---|---|---|
| StripGeometry.OrReal | src/components/PhotoStrip/index.tsx:65-69 | a `||` fallback yields the default unless the value is present and non-zero |
| StripGeometry.OrNat | src/components/PhotoStrip/index.tsx:73-74 | the grid template fallback yields 1 unless a non-zero count is given |
| StripGeometry.Resolve | src/components/PhotoStrip/index.tsx:61-74 | a configured non-zero gap, padding side, column count or row count is the one used, while a missing or zero one falls back (14.4 px paddings, a 9.6 px gap, one row and one column), as `||` does; the layout's own size, capacity and arrangement are kept |
| StripGeometry.Share | src/components/PhotoStrip/index.tsx:84-98 | n equal shares plus n-1 gaps fill the total exactly |
| StripGeometry.PhotoSize | src/components/PhotoStrip/index.tsx:76-100 | per arrangement, the photos and gaps fill the padded strip exactly along the stacking axis, and the photo spans the padded strip across it |
| StripGeometry.SlotCount | src/components/PhotoStrip/index.tsx:243-247 | a strip draws at least one and at most capacity slots |
| StripGeometry.ContentAt | src/components/PhotoStrip/index.tsx:251-253 | a slot shows a photo exactly when an image is loaded at that index, otherwise a placeholder |
| StripGeometry.RowColOfIndex | src/components/PhotoStrip/index.tsx:246 | the grid index row*columns+col gives back its row and column |
| StripGeometry.RowBelow | src/components/PhotoStrip/index.tsx:244-246 | every index of a rows-by-columns grid lies in one of its rows |
| StripGeometry.GridCellRect | src/components/PhotoStrip/index.tsx:249-250 | the grid cell at row, col sits at the padding plus whole photo-and-gap steps |
| StripGeometry.PlanSlots | src/components/PhotoStrip/index.tsx:243-293 | the drawing pass visits one slot per index up to the slot count, each with its rectangle and its content |
| StripGeometry.PlanGridSlots | src/components/PhotoStrip/index.tsx:243-283 | the nested row/column loop with its early break visits exactly the first min(rows*columns, capacity) indices in order |
| StripGeometry.PlanLineSlots | src/components/PhotoStrip/index.tsx:285-293 | a vertical or horizontal strip visits exactly capacity slots in order |
| StripGeometry.VerticalSlotsTile | src/components/PhotoStrip/index.tsx:89-93 | vertical slots start at the top padding, follow one another a gap apart, never overlap, and the last one ends at the bottom padding |
| StripGeometry.VerticalSlotsDisjoint | src/components/PhotoStrip/index.tsx:290-293 | any earlier vertical slot ends above any later one |
| StripGeometry.HorizontalSlotsTile | src/components/PhotoStrip/index.tsx:94-98 | horizontal slots start at the left padding and the last ends at the right padding |
| StripGeometry.GridSlotInside | src/components/PhotoStrip/index.tsx:243-250 | every grid slot lies inside the padded strip |
| StripGeometry.GridCellInside | src/components/PhotoStrip/index.tsx:249-250 | the cell at a row and column lies inside the padded strip |
| StripGeometry.GridColumnInside | src/components/PhotoStrip/index.tsx:249 | every grid column lies between the left and right paddings |
| StripGeometry.GridRowInside | src/components/PhotoStrip/index.tsx:250 | every grid row lies between the top and bottom paddings |
| StripGeometry.AxisInside | src/components/PhotoStrip/index.tsx:80-88 | the i-th of n cells with gaps that fill a span lies within that span |
| StripGeometry.CenterCrop | src/components/PhotoStrip/index.tsx:132-146 | for any slot with a positive aspect ratio, including the both-negative slots of the catalog layouts, the crop has the slot's aspect ratio, lies inside the image, is centred in it, and uses the image's full width or full height |
| StripGeometry.CropArithmetic | src/components/PhotoStrip/index.tsx:136-146 | for any slot with a positive aspect ratio, in each branch the computed crop side is positive, fits the image and keeps the slot ratio |
| StripGeometry.CropIsLargest | src/components/PhotoStrip/index.tsx:132-146 | for any slot with a positive aspect ratio, no crop with the slot's ratio that fits the image is wider or taller than the centre crop |
| StripGeometry.CropWidePhotoExample | src/components/PhotoStrip/index.tsx:136-140 | a 1600x900 photo in a 4:3 slot is cropped to the middle 1200x900 |
| StripGeometry.CatalogSlotsAreNegative | src/components/PhotoStrip/index.tsx:63-69 | every catalog layout, its 3 by 9 inch size taken as pixels next to 14.4-pixel paddings, gets a vertical strip whose paddings exceed its width and whose photo width and height are negative, though their ratio is positive |
| StripGeometry.InPixels | src/constants/index.ts:11-28 | a layout in inches becomes one in pixels at 96 per inch, width, height and gap alike; a layout already in pixels is unchanged |
| StripGeometry.PixelFrame | src/components/PhotoStrip/index.tsx:63-69 | a catalog layout converted to pixels is a well-formed vertical 288 by 864 strip with a positive gap and a photo of positive width and height |
| StripGeometry.PixelSlotsTile | src/components/PhotoStrip/index.tsx:286-293 | on a converted catalog layout the slots stack down the strip one gap apart, each earlier slot ends above every later one, and all stay within the paddings |
| RefStrip.CanvasHeight | src/components/ref.tsx:83-87 | the canvas is exactly tall enough for the last photo plus the bottom padding, or two paddings when empty |
| RefStrip.PhotosStack | src/components/ref.tsx:99-108 | photos stack from the top padding one photo height plus a gap apart, each inside the padded canvas |
| RefStrip.PhotoRect | src/components/ref.tsx:100-107 | photo i is drawn at the left padding and the display width, ending at the right padding, with the fixed photo height, and starts one photo height plus one gap below photo i-1 |
| RefStrip.AddSticker | src/components/ref.tsx:301-316 | a new 100x100 unrotated sticker is appended and selected, centred across the canvas and vertically midway between the first photo's top and the last photo's bottom |
| RefStrip.AddedStickerIsReachable | src/components/ref.tsx:301-316 | the new sticker is hit at its own centre |
| RefStrip.CropMatchesPhotoAspect | src/components/ref.tsx:205-222 | the reference strip crops every image to the 6:5 photo shape |
| StickerEngine.TurnSpecial | src/components/PhotoStrip/index.tsx:431-436 | turning by a zero angle changes nothing, a quarter turn back swaps axes, and the centre stays put |
| StickerEngine.FirstCorner | src/components/PhotoStrip/index.tsx:449-461 | the reported resize handle is near the point and no earlier corner is; none is reported exactly when no corner is near |
| StickerEngine.HitTest | src/components/PhotoStrip/index.tsx:430-473 | any hit lies within the sticker's box grown by its handles, and the resize handle is the first corner near the point |
| StickerEngine.HitWithinReach | src/components/PhotoStrip/index.tsx:443-470 | a point that hits the body or any handle lies in the sticker's reach |
| StickerEngine.DeleteWithinReach | src/components/PhotoStrip/index.tsx:467-470 | a delete hit lies inside the square around the delete handle |
| StickerEngine.CornerWithinReach | src/components/PhotoStrip/index.tsx:449-460 | a corner hit lies within one handle size of the body |
| StickerEngine.CenterHitsBody | src/components/PhotoStrip/index.tsx:443-447 | a sticker's own centre always hits its body, whatever the rotation |
| StickerEngine.UnrotatedBodyHit | src/components/PhotoStrip/index.tsx:430-447 | for an unrotated sticker the body is hit exactly inside its axis-aligned box |
| StickerEngine.RemoveId | src/components/PhotoStrip/index.tsx:497 | removal keeps every other sticker, in order, and no sticker with the id |
| StickerEngine.RemoveIdShrinks | src/components/PhotoStrip/index.tsx:497 | removing an id that is present shortens the list |
| StickerEngine.UpdateId | src/components/PhotoStrip/index.tsx:535-541 | the update touches exactly the stickers with the id |
| StickerEngine.PointerDown | src/components/PhotoStrip/index.tsx:475-513 | a press that hits nothing only clears the selection; otherwise the selection is the first hit sticker, stickers only ever disappear, and well-formedness is kept |
| StickerEngine.RemoveKeepsWellFormed | src/components/PhotoStrip/index.tsx:496-498 | deleting a sticker keeps the editor well formed |
| StickerEngine.HandleSign | src/components/PhotoStrip/index.tsx:543-549 | a handle's horizontal sign is -1 or +1 |
| StickerEngine.ResizedSize | src/components/PhotoStrip/index.tsx:551-555 | the new width is at least 20, the height positive, and the aspect ratio unchanged |
| StickerEngine.PointerMove | src/components/PhotoStrip/index.tsx:515-582 | without a drag or selection, or when no sticker carries the selected id, nothing changes; otherwise only the selected sticker changes, ids and images stay, and well-formedness is kept |
| StickerEngine.DragStep | src/components/PhotoStrip/index.tsx:532-577 | a drag step keeps a sticker's identity and image and keeps positive sizes positive |
| StickerEngine.PointerUp | src/components/PhotoStrip/index.tsx:584-587 | releasing ends the drag and forgets the handle, keeping stickers, selection and start point |
| StickerEngine.KeyDown | src/components/ref.tsx:59-64 | Delete with a selection removes exactly the selected sticker's entries and clears the selection, and changes nothing else in the editor; any other key does nothing |
| StickerGestures.PointerDownActsOnFirstHit | src/components/PhotoStrip/index.tsx:492-509 | on the first hit sticker, a delete-handle press deletes it like the Delete key, and any other press selects it and starts a resize, rotate or move, in that priority |
| StickerGestures.MoveAfterUpIsInert | src/components/PhotoStrip/index.tsx:516-587 | after release, pointer moves change nothing |
| StickerGestures.DriverFound | src/components/PhotoStrip/index.tsx:523 | the sticker driving a drag is the first with the selected id |
| StickerGestures.DriverDrags | src/components/PhotoStrip/index.tsx:523-580 | every sticker with the selected id takes the step computed from the driving sticker, and the start point follows the pointer |
| StickerGestures.MoveStep | src/components/PhotoStrip/index.tsx:532-541 | a move adds the pointer delta rotated by the sticker's angle: unchanged at 0°, axes swapped at 90° |
| StickerGestures.ResizeStep | src/components/PhotoStrip/index.tsx:542-563 | a resize keeps the centre and angle, sets the width from the handle's projected delta floored at 20, and keeps the aspect ratio |
| StickerGestures.RotateStep | src/components/PhotoStrip/index.tsx:564-577 | a rotation adds the swept angle and reduces it by whole turns toward zero, keeping its sign |
| StickerScenarios.ResizeMovesOppositeCorner | src/components/PhotoStrip/index.tsx:542-563 | dragging the bottom-right handle grows the sticker about its centre, so the bottom-left corner moves as well |
| StickerScenarios.RotationCanTurnNegative | src/components/PhotoStrip/index.tsx:564-577 | sweeping a quarter turn counter-clockwise leaves the rotation at -90 |
| Common.Filter | src/components/PhotoStrip/index.tsx:497 | filtering keeps only passing elements, in their original order |
| Common.FilterCounts | src/App.tsx:159-163 | filtering keeps every passing element as often as it occurs and drops every failing one |
| Common.FilterKeepsAll | src/components/PreviewPhotos/index.tsx:61-66 | a filter that every element passes changes nothing |
| Common.FindIndex | src/components/PhotoStrip/index.tsx:482-490 | `find` returns the first element that passes, and nothing exactly when none does |
| Common.FindIndexIsFirst | src/components/PhotoStrip/index.tsx:523 | the first passing index is what `find` returns |
| Common.WithoutId | src/App.tsx:159-163 | removing an id drops every photo with it and keeps the others, in order and with their multiplicities; a missing id changes nothing |
| Common.WithoutIdShrinks | src/App.tsx:159-163 | removing a present id shortens the list |
| Common.FilterAppend | src/components/PreviewPhotos/index.tsx:50-54 | filtering distributes over concatenation |
| Common.JsRound | src/components/PhotoStrip.tsx:179-190 | `Math.round` lands within half a unit of its argument |
| Common.JsRem360 | src/components/PhotoStrip/index.tsx:573 | `% 360` differs from its argument by whole turns, keeps its sign and lies strictly between -360 and 360 |
| DomStrip.RemoveAt | src/components/PhotoStrip.tsx:102 | splicing one element out shifts the later ones down by one |
| DomStrip.InsertAt | src/components/PhotoStrip.tsx:103 | splicing one element in at an index (clamped to the end) shifts the later ones up by one |
| DomStrip.OnDragEnd | src/components/PhotoStrip.tsx:97-121 | a drop without a destination changes nothing; otherwise the dragged photo lands at the destination, the others keep their relative order, and no photo is gained or lost |
| DomStrip.SpliceMoves | src/components/PhotoStrip.tsx:101-103 | the remove-then-insert pair moves exactly one photo |
| DomStrip.RemoveAtCounts | src/components/PhotoStrip.tsx:102 | the removed element plus the rest is the original multiset |
| DomStrip.InsertAtCounts | src/components/PhotoStrip.tsx:103 | inserting adds exactly one occurrence |
| DomStrip.IndexOf | src/components/PhotoStrip.tsx:113-114 | `find` on positions returns the first position of the photo |
| DomStrip.GridCompare | src/components/PhotoStrip.tsx:106-117 | the row-then-column comparison is negative exactly when the first photo comes earlier in the list, and zero exactly for the same photo |
| DomStrip.GridCompareFollowsPosition | src/components/PhotoStrip.tsx:106-117 | the row-then-column comparator orders photos exactly by their position in the list |
| DomStrip.GridResortIsIdentity | src/components/PhotoStrip.tsx:105-118 | the grid re-sort of distinct photos can only return the list it was given |
| DomStrip.AtMostOnce | src/components/PhotoStrip.tsx:105-118 | a list of distinct photos holds each at most once |
| DomStrip.SnapToGrid | src/components/PhotoStrip.tsx:189-190 | the snapped value is a multiple of 10 within half a cell of the input |
| DomStrip.SnapIdempotent | src/components/PhotoStrip.tsx:189-190 | snapping twice is snapping once |
| DomStrip.Guides | src/components/PhotoStrip.tsx:192-203 | at most two guides per other sticker, and none when no other sticker is within 10 px on either axis |
| DomStrip.GuidesComeFromNeighbours | src/components/PhotoStrip.tsx:192-203 | every guide runs through another sticker within 10 px of the dragged one on that axis |
| DomStrip.GuidesComplete | src/components/PhotoStrip.tsx:192-203 | every other sticker within 10 px of the dragged one on x gives its vertical guide, and on y its horizontal guide |
| DomStrip.UpdateId | src/components/PhotoStrip.tsx:124-133 | the update touches exactly the stickers with the id |
| DomStrip.HandleStickerDrag | src/components/PhotoStrip.tsx:123-136 | the dragged sticker moves to the snapped point and to the top z-index, the others stay, the guides are those of the first sticker with the id after the move (none for an empty list), and an unknown id in a non-empty list is an error |
| DomStrip.ClampSize | src/components/PhotoStrip.tsx:147-150 | a size is clamped into 20..2000 and kept when already inside |
| DomStrip.ResizedTo | src/components/PhotoStrip.tsx:147-150 | the width is clamped; without Shift so is the height, with Shift the aspect ratio is kept |
| DomStrip.HandleStickerResize | src/components/PhotoStrip.tsx:138-164 | an unknown id changes nothing; otherwise only the resized sticker's width, height and z-index change, as clamped, with Shift every sticker with the id takes the aspect ratio of the first one, and the guides are those of the first one after the resize |
| DomStrip.ShiftResizeKeepsAspect | src/components/PhotoStrip.tsx:148-149 | a Shift resize keeps the sticker's aspect ratio |
| DomStrip.BoundStickerPosition | src/components/PhotoStrip.tsx:205-219 | the position is pulled into the padded strip above the text space, left alone when already inside, and pinned to the padding when the sticker does not fit |
| DomStrip.BoundIsIdempotent | src/components/PhotoStrip.tsx:205-219 | a bounded position is left where it is by a second bounding |
| DomStrip.SnapAngle | src/components/PhotoStrip.tsx:179 | a snapped angle is a multiple of 15° in the half-open interval (angle − 7.5°, angle + 7.5°] |
| DomStrip.SnapAngleIdempotent | src/components/PhotoStrip.tsx:179 | snapping a snapped angle changes nothing |
| DomStrip.HandleStickerRotate | src/components/PhotoStrip.tsx:166-187 | only the selected sticker rotates: to the pointer angle plus 90°, snapped to 15° with Shift, and raised to the top z-index |
| DomStrip.SplitById | src/components/PhotoStrip.tsx:225-237 | the stickers with and without the id, each in order, together the whole list |
| DomStrip.Renumber | src/components/PhotoStrip.tsx:228-235 | z-indices are renumbered 1..n in list order |
| DomStrip.BringToFront | src/components/PhotoStrip.tsx:225-230 | the others keep their order, followed by the target, renumbered 1..n |
| DomStrip.SendToBack | src/components/PhotoStrip.tsx:232-237 | the intended order: the target entries first, in their order, then the others in order, renumbered 1..n; as written under V8 the target entries come out reversed (EngineSort.HostSendToBackReversesTargets) |
| DomStrip.PhotoPadding | src/components/PhotoStrip.tsx:239-262 | the padding is 0.15 of the layout's own unit on three sides and 1.15 units on the caption side, which is the bottom exactly for vertical strips and portrait grids and the right otherwise; the unit carried is the layout's |
| EngineSort.HostSort | src/components/PhotoStrip.tsx:227-234 | V8's sort of fewer than 64 elements returns a rearrangement of its input, whatever the comparator |
| EngineSort.HostBringToFront | src/components/PhotoStrip.tsx:225-230 | the comparator as written, run through V8's sort (Chrome, Edge, Node), renumbers 1..n |
| EngineSort.HostSendToBack | src/components/PhotoStrip.tsx:232-237 | the send-to-back comparator as written, run through V8's sort (Chrome, Edge, Node), renumbers 1..n |
| EngineSort.HostSortSplits | src/components/PhotoStrip.tsx:227-234 | under V8's sort, a comparator that ignores its second argument sorts the low elements reversed to the front and keeps the others in order behind them |
| EngineSort.HostBringToFrontReversesOthers | src/components/PhotoStrip.tsx:225-230 | as written and sorted by V8, bring-to-front puts the target last but reverses the order of the other stickers |
| EngineSort.HostSendToBackReversesTargets | src/components/PhotoStrip.tsx:232-237 | as written and sorted by V8, send-to-back puts the target entries first, in reverse, and keeps the others in order |
| EngineSort.HostSendToBackAgreesForUniqueIds | src/components/PhotoStrip.tsx:232-237 | with unique ids, send-to-back as written and sorted by V8 equals the intended stable version |
| EngineSort.BringToFrontCounterexample | src/components/PhotoStrip.tsx:225-230 | for stickers a, b, t, bringing t to front yields b, a, t as written under V8, but a, b, t as intended |
| Colors.HexChar | src/utils/colors.tsx:14 | each digit value has a lower-case hex digit that reads back as that value |
| Colors.ParseInt16 | src/utils/colors.tsx:5-7 | `parseInt(s, 16)` is NaN exactly when no hexadecimal digit follows the leading white space, the optional sign and the optional `0x`; the empty string is NaN |
| Colors.TrimStartSpec | src/utils/colors.tsx:95 | `trimStart` removes exactly the leading white space |
| Colors.TrimEndSpec | src/utils/colors.tsx:95 | `trimEnd` removes exactly the trailing white space |
| Colors.HexPrefixSpec | src/utils/colors.tsx:5-7 | `parseInt` reads the longest run of hex digits |
| Colors.ParseToString16 | src/utils/colors.tsx:14 | parsing a number's base-16 text gives the number back |
| Colors.ToString16 | src/utils/colors.tsx:14 | base-16 text is non-empty lower-case hex, one digit below 16 and at most two below 256 |
| Colors.Clamp255 | src/utils/colors.tsx:14 | a channel is clamped into 0..255 and kept when already inside |
| Colors.ToHex | src/utils/colors.tsx:13-16 | a channel is clamped to [0, 255] and written as exactly two lower-case hexadecimal digits, a single digit padded with `0` |
| Colors.Hex2 | src/utils/colors.tsx:14-15 | a byte is written as exactly two lower-case hex digits |
| Colors.RgbToHex | src/utils/colors.tsx:12-18 | the result is `#` and three two-digit channels, each channel clamped |
| Colors.HexToRgb | src/utils/colors.tsx:4-9 | with hexadecimal digits at positions 1 to 6, the channels are the bytes the three digit pairs denote; a text of at most 5 characters has a NaN blue, one of at most 3 a NaN green too |
| Colors.RgbToHexClamps | src/utils/colors.tsx:14 | out-of-range channels are written as `00` or `ff` |
| Colors.Hex2ReadsBack | src/utils/colors.tsx:5-15 | a written byte parses back to itself |
| Colors.HexRoundTrip | src/utils/colors.tsx:4-18 | converting in-range channels to hex and back returns them |
| Colors.RgbRoundTrip | src/utils/colors.tsx:4-18 | a colour with six hex digits after the first character decodes to bytes that re-encode to its lower-cased form |
| Colors.ShorthandNotExpanded | src/utils/colors.tsx:4-8 | `#fff` decodes to 255, 15 and no blue: shorthand is not expanded |
| Colors.ParseEmpty | src/utils/colors.tsx:5-7 | parsing empty text is not a number |
| Colors.ContrastColor | src/utils/colors.tsx:121-127 | black exactly when all channels parse and the weighted luminance exceeds one half, white otherwise |
| Colors.GetColorFormat | src/utils/colors.tsx:93-119 | invalid exactly when the cleaned text matches none of the five patterns |
| Colors.Trim | src/utils/colors.tsx:95 | the trimmed text is the slice of the input between an all-white-space prefix and an all-white-space suffix, and neither starts nor ends with white space |
| Colors.Clean | src/utils/colors.tsx:95 | the cleaned text is as long as the trimmed one, holds no upper-case letter and neither starts nor ends with white space |
| Colors.CleanIdempotent | src/utils/colors.tsx:95 | cleaning a cleaned text changes nothing |
| Colors.HexPatternExactly | src/utils/colors.tsx:98 | the hex pattern accepts `#` followed by 3, 4, 6 or 8 hex digits and nothing else |
| Colors.HexFormatExactly | src/utils/colors.tsx:95-101 | a colour is classified hex exactly when its cleaned text is such a hex colour |
| Colors.FormatIgnoresSpaceAndCase | src/utils/colors.tsx:95 | surrounding white space and letter case do not change the classification |
| Colors.RgbClassified | src/utils/colors.tsx:104-108 | every `rgb(a,b,c)` text with 1-3 digit numbers and spaces after the commas is classified RGB |
| Colors.ScanSound | src/utils/colors.tsx:98-112 | a pattern match splits the text into pieces each accepted by its token |
| Colors.ScanComplete | src/utils/colors.tsx:98-112 | pieces accepted by well-separated tokens are found again by the matcher |
| Colors.PatternsSeparated | src/utils/colors.tsx:98-112 | in the hex, rgba, hsl and hsla patterns every repeated part is followed by a literal it cannot swallow, or is white space before a number |
| Colors.FormatPatternComplete | src/utils/colors.tsx:98-112 | each of the five colour patterns matches every text built from pieces its parts accept, and the matcher returns those pieces |
| Colors.ClassifiedAsRgba | src/utils/colors.tsx:104-108 | a clean `rgba(…)` text the rgba pattern matches is classified RGB |
| Colors.ClassifiedAsHsl | src/utils/colors.tsx:110-114 | a clean `hsl(…)` or `hsla(…)` text either HSL pattern matches is classified HSL |
| Colors.LiteralMismatch | src/utils/colors.tsx:104-112 | a pattern opening with a literal never matches text that starts with another character |
| Colors.TrimLower | src/utils/colors.tsx:95 | trimming and lower-casing commute |
| Colors.LowerTwice | src/utils/colors.tsx:95 | lower-casing is idempotent |
| PreviewPhotos.ToggleFromStrip | src/components/PreviewPhotos/index.tsx:46-59 | view-only does nothing; a selected id is deselected; otherwise, with room, the first preview with the id is appended; a full selection or unknown id changes nothing; the capacity is never exceeded |
| PreviewPhotos.ToggleFlipsMembership | src/components/PreviewPhotos/index.tsx:46-59 | afterwards the id is selected exactly when it was not, there was room, and a preview carries it |
| PreviewPhotos.ToggleTwiceRestores | src/components/PreviewPhotos/index.tsx:46-59 | selecting and then deselecting a photo restores the selection |
| PreviewPhotos.DeletePreviewPhoto | src/components/PreviewPhotos/index.tsx:61-66 | the id leaves both the previews and the selection, everything else stays in order |
| PreviewPhotos.DeleteFiltersBoth | src/components/PreviewPhotos/index.tsx:63-65 | the membership check before filtering the selection makes no difference |
| PreviewPhotos.DeleteIdempotent | src/components/PreviewPhotos/index.tsx:61-66 | deleting twice is deleting once |
| PreviewPhotos.SelectionStaysWithinCapacity | src/components/PreviewPhotos/index.tsx:46-66 | neither handler pushes the selection past capacity |
| AppFlow.Initial | src/App.tsx:16-36 | the first state is valid: layout 1 with room for four photos, no photos and no stickers, at the layout step, with the given camera permission |
| AppFlow.InitialIsValid | src/App.tsx:17-36 | the starting state uses a catalog layout and holds no more photos than it allows |
| AppFlow.ResetAll | src/App.tsx:51-60 | reset returns to the starting state, keeping only the camera permission |
| AppFlow.HandlePhotoCapture | src/App.tsx:62-70 | below capacity the photo is appended and the capture that fills the strip moves on to customising; at capacity nothing changes |
| AppFlow.CaptureKeepsFirst | src/App.tsx:62-70 | a run of captures keeps the first shots that fit, in order, and never overfills |
| AppFlow.CaptureReachesCustomize | src/App.tsx:66-68 | the flow moves on to customising exactly when the run fills the strip |
| AppFlow.CaptureWhenFull | src/App.tsx:63 | at capacity, captures change nothing |
| AppFlow.OnLayoutChange | src/App.tsx:133-137 | the layout changes only while choosing a layout with no photos, and nothing else changes |
| AppFlow.UnguardedLayoutChangeOverfills | src/App.tsx:133-137 | without the guard four photos could sit in a two-photo layout; with it the change is refused |
| AppFlow.OnStickerAdd | src/App.tsx:118-129 | the request is appended unrotated at 100x100 with the clock as id, nothing else changes |
| AppFlow.OnPhotoRemove | src/App.tsx:159-163 | the photos with the id go, the others stay in order, and validity is kept |
| AppFlow.RemoveMakesRoom | src/App.tsx:62-163 | after removing a photo the next capture is accepted |
| FrameControls.DigitChar | src/components/FrameControls/index.tsx:63 | each decimal digit has a character that reads back as it |
| FrameControls.Decimal | src/components/FrameControls/index.tsx:64 | a number's decimal text is non-empty digits, a single digit exactly below 10 |
| FrameControls.DecimalRoundTrip | src/components/FrameControls/index.tsx:63-64 | reading a number's decimal text gives the number back |
| FrameControls.DigitPrefix | src/components/FrameControls/index.tsx:157 | `parseInt` reads the leading run of digits |
| FrameControls.DigitPrefixOf | src/components/FrameControls/index.tsx:157 | the leading digits of a numeral followed by a non-digit are that numeral |
| FrameControls.UpperChar | src/components/FrameControls/index.tsx:65 | `toUpperCase` maps a to z onto A to Z and leaves other characters |
| FrameControls.Capitalize | src/components/FrameControls/index.tsx:65 | only the first character is upper-cased |
| FrameControls.LayoutLabel | src/components/FrameControls/index.tsx:64-66 | the label is the count's digits, " Photo", an "s" for more than one and the bracketed arrangement, so it is 9 or 10 characters longer than the digits and the arrangement together |
| FrameControls.LabelCount | src/components/FrameControls/index.tsx:64 | a layout label starts with its photo count |
| FrameControls.LabelWords | src/components/FrameControls/index.tsx:64-66 | after the count comes " Photo", an "s" exactly for more than one photo, and the capitalised arrangement in brackets |
| FrameControls.LabelsTellCountsApart | src/components/FrameControls/index.tsx:64-66 | layouts with different counts get different labels |
| FrameControls.OptionFor | src/components/FrameControls/index.tsx:62-68 | an option carries its layout's id and capacity |
| FrameControls.LayoutOptions | src/components/FrameControls/index.tsx:62-68 | one option per catalog layout, in increasing id order, with that layout's capacity |
| FrameControls.OptionLabelsDistinct | src/components/FrameControls/index.tsx:62-68 | no two options share a label |
| FrameControls.OptionLabel | src/components/FrameControls/index.tsx:62-68 | the options read "4 Photos (Vertical)", "3 Photos (Vertical)", "2 Photos (Vertical)" |
| FrameControls.VerticalLabel | src/components/FrameControls/index.tsx:64-66 | a vertical layout of n photos is labelled "n Photos (Vertical)" |
| FrameControls.SelectLayout | src/components/FrameControls/index.tsx:156-161 | a choice is forwarded exactly when no photo has been captured |
| FrameControls.SelectForwardsOptionId | src/components/FrameControls/index.tsx:156-168 | picking an option forwards that option's layout id |
| FrameControls.AddStickerToCanvas | src/components/FrameControls/index.tsx:123-134 | a new 100x100 unrotated sticker is appended at x 144 and y 96 per captured photo, or 96 with none |
| FrameControls.AddedStickerIsHitAtCenter | src/components/FrameControls/index.tsx:123-134 | the added sticker sits at least one inch down and is hit at its centre |

## Left out

- Drawing, image loading and download: canvas painting, `html2canvas`, `FileReader`, object URLs and `handlePhotoUpload`/`downloadImage` are I/O; the model keeps the geometry they use and leaves the pixels out.
- Camera access, capture timing, the GIF component and the colour/gradient pickers are outside the modelled core.
- The "Next" and "Download" buttons (src/App.tsx:175-196) only set the step; the model does not include them.
- `Math.cos`, `Math.sin` and `Math.atan2` are not computed: they are a `Trig` parameter, so statements about rotation hold for any such functions.
- Floating-point rounding is not modelled: all arithmetic is on exact reals, including the contrast luminance.
- HSL conversions and the colour picker's helpers (src/utils/colors.tsx:20-87) are not modelled.
- `toLowerCase` and `toUpperCase` are modelled for ASCII letters only; every pattern in the classifier is ASCII, so the classification of ASCII input is exact.
- Colors.HexToRgb and the other colour members count string positions in Unicode scalar values, where JavaScript counts UTF-16 code units; the two differ only for characters outside the Basic Multilingual Plane, which no colour text of the application contains.
- Colors.RgbToHex takes integer channels; the source would render a fractional channel with a base-16 fraction.
- Colors.ParseInt16 reads `-0` as 0; JavaScript keeps a negative zero.
- PreviewPhotos.ToggleFromStrip takes the capacity as a parameter, because the component reads `LAYOUTS[layout].rectangles.length` and no layout has a `rectangles` field.
- StripGeometry.Resolve takes `paddings` and `gridTemplate` as parameters, because the layout catalog declares neither field.
- FrameControls is modelled on its own: the properties App.tsx passes to it differ from the ones it declares.
- FrameControls.SelectLayout accepts digit strings only, the values its options produce.
- DomStrip.HandleStickerResize requires positive sticker sizes, because a zero width would make the Shift branch divide by zero.
- StripGeometry.VerticalSlotsDisjoint requires a non-negative gap and photo height; the catalog layouts as written have a negative photo height (StripGeometry.CatalogSlotsAreNegative), so their slots overlap, and disjointness is stated for the converted layouts by StripGeometry.PixelSlotsTile.
- DomStrip.PhotoPadding requires a non-zero layout height, because the grid branch divides by it.
- DomStrip.HandleStickerDrag reports an unknown id in a non-empty list as an error (`None`), where the source would throw while computing the guides.
- EngineSort.HostBringToFront models the sort of the V8 engine (Chrome, Edge, Node) only, and only for lists shorter than 64, where it is a binary insertion sort after an initial run; longer lists use a merge phase that is not modelled. The comparator is inconsistent, so the standard leaves the order to the engine: other engines, such as SpiderMonkey in Firefox, may keep `a, b, t` where V8 gives `b, a, t`.
- EngineSort.HostSendToBack models V8's sort only for lists shorter than 64, for the same reason as EngineSort.HostBringToFront.
- EngineSort.HostSort is V8's sort only for lists shorter than 64; its merge phase for longer lists is not modelled.
- EngineSort.HostSortSplits is stated only for lists shorter than 64, the range EngineSort.HostSort covers.
- EngineSort.HostBringToFrontReversesOthers is stated only for fewer than 64 stickers, the range EngineSort.HostSort covers.
- EngineSort.HostSendToBackReversesTargets is stated only for fewer than 64 stickers, the range EngineSort.HostSort covers.
- EngineSort.HostSendToBackAgreesForUniqueIds is stated only for fewer than 64 stickers, the range EngineSort.HostSort covers.
- DomStrip.GridResortIsIdentity states that the grid re-sort in `onDragEnd` can only return its input for distinct photos; the sort itself is not re-run.
- The commented-out layouts 4 to 6 and commented-out JSX are not modelled.
- Rendering, CSS and React state scheduling: every handler is modelled as a pure function from the state before to the state after.

## Findings

| source | as written | input that shows it | evidently intended | confidence | as-written member | corrected member |
|---|---|---|---|---|---|---|
| src/components/PhotoStrip.tsx:225-230 | `bringToFront` sorts with `(a, b) => a.id === id ? 1 : -1`, a comparator that ignores `b`; the V8 engine's sort (Chrome, Edge, Node) then reverses the order of the other stickers, while other engines may keep it; the handler is called only from sticker markup that is commented out (lines 396-580), so the live interface does not show the reversal | stickers `a, b, t`, bring `t` to front under V8: the result is `b, a, t` | the target moves to the top and the other stickers keep their stacking order: `a, b, t` | not executed | EngineSort.BringToFrontCounterexample | DomStrip.BringToFront |
| src/components/PhotoStrip/index.tsx:63-69 | the strip size is taken from the catalog's `width` and `height`, which are inches (`unit: "in"`), and used as canvas pixels next to paddings of `0.15 * 96` pixels | any catalog layout: the 3-pixel-wide strip has 28.8 pixels of side padding, so the photo width is 3 − 28.8 = −25.8 | convert the catalog sizes to pixels at 96 per inch, as the default paddings already are, giving a 288 by 864 strip whose slots tile it | not executed | StripGeometry.CatalogSlotsAreNegative | StripGeometry.PixelSlotsTile |
