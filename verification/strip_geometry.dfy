/** Slot geometry of the canvas photo strip: the effective paddings and gap of
    a layout, the size every photo slot gets, where each slot sits, which
    slots show a photo and which a placeholder, and the symmetric center-crop
    that fits a source photo to a slot. All quantities are canvas pixels;
    the catalog's sizes are in inches but are used as pixels unchanged
    (`CatalogSlotsAreNegative`), and `PixelFrame` is the frame with those
    sizes converted at 96 pixels per inch. */
module StripGeometry {
  import opened Common
  import opened Layouts

  /** Fallback padding, 0.15 inch at 96 dpi. */
  const DefaultPadding: real := 14.4
  /** Fallback gap between slots, 0.1 inch at 96 dpi. */
  const DefaultGap: real := 9.6

  /** Optional per-side paddings of a layout (`layout.paddings`). */
  datatype Paddings = Paddings(top: Option<real>, left: Option<real>, bottom: Option<real>, right: Option<real>)

  /** Optional grid shape of a layout (`layout.gridTemplate`). */
  datatype GridTemplate = GridTemplate(columns: Option<nat>, rows: Option<nat>)

  /** The effective geometry of one strip once every default is applied. */
  datatype Frame = Frame(
    stripWidth: real, stripHeight: real,
    top: real, left: real, bottom: real, right: real,
    gap: real, columns: int, rows: int,
    maxPhotos: int, arrangement: Arrangement)

  datatype Rect = Rect(x: real, y: real, width: real, height: real)

  datatype Size = Size(width: real, height: real)

  /** What a slot shows: a decoded photo, or the dashed "+" placeholder. */
  datatype SlotContent = Filled(image: ImageRef) | Placeholder

  datatype Slot = Slot(index: nat, rect: Rect, content: SlotContent)

  /** `v || d` for an optional number: both a missing value and `0` fall back. */
  function OrReal(v: Option<real>, d: real): (r: real)
    ensures r == d || (v == Some(r) && r != 0.0)
  {
    if v.Some? && v.value != 0.0 then v.value else d
  }

  /** `v || d` for an optional count. */
  function OrNat(v: Option<nat>, d: nat): (r: nat)
    ensures r == d || (v == Some(r) && r != 0)
  {
    if v.Some? && v.value != 0 then v.value else d
  }

  function SideOf(p: Option<Paddings>, side: Paddings -> Option<real>): Option<real> {
    if p.Some? then side(p.value) else None
  }

  /** The effective strip geometry of a layout. The layout record itself has
      no paddings or grid shape, so those arrive as parameters. */
  function Resolve(layout: Layout, paddings: Option<Paddings>, grid: Option<GridTemplate>): (f: Frame)
    ensures f.top != 0.0 && f.left != 0.0 && f.bottom != 0.0 && f.right != 0.0 && f.gap != 0.0
    ensures f.columns >= 1 && f.rows >= 1
    ensures paddings.None? ==>
      f.top == f.left == f.bottom == f.right == DefaultPadding
    ensures layout.gap.None? ==> f.gap == DefaultGap
    ensures layout.gap.Some? && layout.gap.value != 0.0 ==> f.gap == layout.gap.value
    ensures layout.gap == Some(0.0) ==> f.gap == DefaultGap
    ensures paddings.Some? && paddings.value.top.Some? && paddings.value.top.value != 0.0 ==>
      f.top == paddings.value.top.value
    ensures paddings.Some? && paddings.value.left.Some? && paddings.value.left.value != 0.0 ==>
      f.left == paddings.value.left.value
    ensures paddings.Some? && paddings.value.bottom.Some? && paddings.value.bottom.value != 0.0 ==>
      f.bottom == paddings.value.bottom.value
    ensures paddings.Some? && paddings.value.right.Some? && paddings.value.right.value != 0.0 ==>
      f.right == paddings.value.right.value
    ensures grid.Some? && grid.value.columns.Some? && grid.value.columns.value != 0 ==>
      f.columns == grid.value.columns.value
    ensures grid.Some? && grid.value.rows.Some? && grid.value.rows.value != 0 ==>
      f.rows == grid.value.rows.value
    ensures grid.None? ==> f.columns == 1 && f.rows == 1
    ensures f.stripWidth == layout.width && f.stripHeight == layout.height
    ensures f.maxPhotos == layout.maxPhotos && f.arrangement == layout.arrangement
  {
    Frame(
      layout.width, layout.height,
      OrReal(SideOf(paddings, (p: Paddings) => p.top), DefaultPadding),
      OrReal(SideOf(paddings, (p: Paddings) => p.left), DefaultPadding),
      OrReal(SideOf(paddings, (p: Paddings) => p.bottom), DefaultPadding),
      OrReal(SideOf(paddings, (p: Paddings) => p.right), DefaultPadding),
      OrReal(layout.gap, DefaultGap),
      OrNat(if grid.Some? then grid.value.columns else None, 1),
      OrNat(if grid.Some? then grid.value.rows else None, 1),
      layout.maxPhotos, layout.arrangement)
  }

  /** A frame the slot formulas can divide by: at least one photo, one row
      and one column. */
  predicate WellFormed(f: Frame) {
    f.maxPhotos >= 1 && f.columns >= 1 && f.rows >= 1
  }

  /** `n` equal parts of `total - (n-1)*gap`. */
  function Share(total: real, n: int, gap: real): (r: real)
    requires n >= 1
    ensures (n as real) * r + ((n - 1) as real) * gap == total
  {
    var avail := total - ((n - 1) as real) * gap;
    assert (n as real) * (avail / (n as real)) == avail;
    avail / (n as real)
  }

  /** The size of every photo slot. Along the axis the slots are laid out on,
      `n` slots and the `n - 1` gaps between them exactly fill the padded
      strip; across it, a slot takes the whole padded extent. */
  function PhotoSize(f: Frame): (s: Size)
    requires WellFormed(f)
    ensures f.arrangement == Grid ==>
      && (f.columns as real) * s.width + ((f.columns - 1) as real) * f.gap
         == f.stripWidth - f.left - f.right
      && (f.rows as real) * s.height + ((f.rows - 1) as real) * f.gap
         == f.stripHeight - f.top - f.bottom
    ensures f.arrangement == Vertical ==>
      && s.width == f.stripWidth - f.left - f.right
      && (f.maxPhotos as real) * s.height + ((f.maxPhotos - 1) as real) * f.gap
         == f.stripHeight - f.top - f.bottom
    ensures f.arrangement == Horizontal ==>
      && (f.maxPhotos as real) * s.width + ((f.maxPhotos - 1) as real) * f.gap
         == f.stripWidth - f.left - f.right
      && s.height == f.stripHeight - f.top - f.bottom
  {
    match f.arrangement
    case Grid =>
      Size(Share(f.stripWidth - f.left - f.right, f.columns, f.gap),
           Share(f.stripHeight - f.top - f.bottom, f.rows, f.gap))
    case Vertical =>
      Size(f.stripWidth - f.left - f.right,
           Share(f.stripHeight - f.top - f.bottom, f.maxPhotos, f.gap))
    case Horizontal =>
      Size(Share(f.stripWidth - f.left - f.right, f.maxPhotos, f.gap),
           f.stripHeight - f.top - f.bottom)
  }

  /** Where slot `k` goes. In a grid, slot `k` is in row `k / columns` and
      column `k % columns`; a vertical strip stacks slots downwards and a
      horizontal one places them left to right. */
  function SlotRect(f: Frame, k: nat): Rect
    requires WellFormed(f)
  {
    var s := PhotoSize(f);
    match f.arrangement
    case Grid =>
      Rect(f.left + ((k % f.columns) as real) * (s.width + f.gap),
           f.top + ((k / f.columns) as real) * (s.height + f.gap),
           s.width, s.height)
    case Vertical =>
      Rect(f.left, f.top + (k as real) * (s.height + f.gap), s.width, s.height)
    case Horizontal =>
      Rect(f.left + (k as real) * (s.width + f.gap), f.top, s.width, s.height)
  }

  /** How many slots a redraw visits: a grid stops at `maxPhotos` even when it
      has more cells. */
  function SlotCount(f: Frame): (n: int)
    requires WellFormed(f)
    ensures 1 <= n <= f.maxPhotos
  {
    if f.arrangement == Grid then MinInt(f.rows * f.columns, f.maxPhotos) else f.maxPhotos
  }

  /** A slot shows its photo once a cropped bitmap is ready at its index;
      an index past the end of the list, or a `null` entry, is a placeholder. */
  function ContentAt(images: seq<Option<ImageRef>>, k: nat): (c: SlotContent)
    ensures c.Filled? <==> k < |images| && images[k].Some?
    ensures c.Filled? ==> c.image == images[k].value
  {
    if k < |images| && images[k].Some? then Filled(images[k].value) else Placeholder
  }

  /** Row and column of a grid cell are recovered from its running index. */
  lemma RowColOfIndex(row: int, col: int, columns: int)
    requires columns >= 1 && row >= 0 && 0 <= col < columns
    ensures (row * columns + col) / columns == row
    ensures (row * columns + col) % columns == col
  {
    var a := row * columns + col;
    var q := a / columns;
    var r := a % columns;
    assert a == columns * q + r;
    var d := q - row;
    assert columns * d == col - r;
    if d > 0 {
      MulMonotone(columns, 1, d);
      assert false;
    } else if d < 0 {
      MulMonotone(columns, 1, -d);
      assert false;
    }
  }

  /** Multiplying by a non-negative factor keeps an order. */
  lemma MulMonotone(c: int, a: int, b: int)
    requires c >= 0 && a <= b
    ensures c * a <= c * b
  {
    assert c * b - c * a == c * (b - a);
  }

  /** An index below `rows * columns` lies in a row below `rows`. */
  lemma RowBelow(k: nat, columns: int, rows: int)
    requires columns >= 1 && k < rows * columns
    ensures k / columns < rows
  {
    var q := k / columns;
    assert k == columns * q + k % columns;
    if q >= rows {
      MulMonotone(columns, rows, q);
      assert false;
    }
  }

  /** Slot `row * columns + col` of a grid is drawn at row `row`, column `col`. */
  lemma GridCellRect(f: Frame, row: nat, col: nat)
    requires WellFormed(f) && f.arrangement == Grid && col < f.columns
    ensures SlotRect(f, row * f.columns + col) ==
      Rect(f.left + (col as real) * (PhotoSize(f).width + f.gap),
           f.top + (row as real) * (PhotoSize(f).height + f.gap),
           PhotoSize(f).width, PhotoSize(f).height)
  {
    RowColOfIndex(row, col, f.columns);
  }

  /** The slot-placement pass of a redraw: which slot indices are visited, in
      what order, where each is drawn and whether it gets a photo or a
      placeholder. */
  method PlanSlots(f: Frame, images: seq<Option<ImageRef>>) returns (slots: seq<Slot>)
    requires WellFormed(f)
    ensures |slots| == SlotCount(f)
    ensures forall k :: 0 <= k < |slots| ==> slots[k].index == k < f.maxPhotos
    ensures forall k :: 0 <= k < |slots| ==> slots[k].rect == SlotRect(f, k)
    ensures forall k :: 0 <= k < |slots| ==> slots[k].content == ContentAt(images, k)
  {
    if f.arrangement == Grid {
      slots := PlanGridSlots(f, images);
    } else {
      slots := PlanLineSlots(f, images);
    }
  }

  /** A grid walks rows, then columns within a row, and leaves a row as soon
      as the running index reaches `maxPhotos`; so exactly the first
      `min(rows * columns, maxPhotos)` indices are drawn, in order. */
  method PlanGridSlots(f: Frame, images: seq<Option<ImageRef>>) returns (slots: seq<Slot>)
    requires WellFormed(f) && f.arrangement == Grid
    ensures |slots| == MinInt(f.rows * f.columns, f.maxPhotos)
    ensures forall k :: 0 <= k < |slots| ==>
      slots[k] == Slot(k, SlotRect(f, k), ContentAt(images, k))
  {
    var size := PhotoSize(f);
    slots := [];
    var row := 0;
    while row < f.rows
      invariant 0 <= row <= f.rows
      invariant |slots| == MinInt(row * f.columns, f.maxPhotos)
      invariant forall k :: 0 <= k < |slots| ==>
        slots[k] == Slot(k, SlotRect(f, k), ContentAt(images, k))
    {
      var col := 0;
      while col < f.columns
        invariant 0 <= col <= f.columns
        invariant |slots| == MinInt(row * f.columns + col, f.maxPhotos)
        invariant forall k :: 0 <= k < |slots| ==>
          slots[k] == Slot(k, SlotRect(f, k), ContentAt(images, k))
      {
        var index := row * f.columns + col;
        if index >= f.maxPhotos {
          break;
        }
        var x := f.left + (col as real) * (size.width + f.gap);
        var y := f.top + (row as real) * (size.height + f.gap);
        GridCellRect(f, row, col);
        slots := slots + [Slot(index, Rect(x, y, size.width, size.height), ContentAt(images, index))];
        col := col + 1;
      }
      assert (row + 1) * f.columns == row * f.columns + f.columns;
      row := row + 1;
    }
  }

  /** A vertical or horizontal strip visits every index below `maxPhotos`. */
  method PlanLineSlots(f: Frame, images: seq<Option<ImageRef>>) returns (slots: seq<Slot>)
    requires WellFormed(f) && f.arrangement != Grid
    ensures |slots| == f.maxPhotos
    ensures forall k :: 0 <= k < |slots| ==>
      slots[k] == Slot(k, SlotRect(f, k), ContentAt(images, k))
  {
    var size := PhotoSize(f);
    slots := [];
    var index := 0;
    while index < f.maxPhotos
      invariant 0 <= index <= f.maxPhotos
      invariant |slots| == index
      invariant forall k :: 0 <= k < |slots| ==>
        slots[k] == Slot(k, SlotRect(f, k), ContentAt(images, k))
    {
      var x := if f.arrangement == Vertical then f.left
               else f.left + (index as real) * (size.width + f.gap);
      var y := if f.arrangement == Vertical then f.top + (index as real) * (size.height + f.gap)
               else f.top;
      slots := slots + [Slot(index, Rect(x, y, size.width, size.height), ContentAt(images, index))];
      index := index + 1;
    }
  }

  // ---------------------------------------------------------------------
  // Tiling of a vertical strip
  // ---------------------------------------------------------------------

  /** In a vertical strip the first slot starts at the top padding, each
      next slot starts one gap below the previous one's bottom edge, and the
      last slot ends exactly at the bottom padding. */
  lemma VerticalSlotsTile(f: Frame, i: nat)
    requires WellFormed(f) && f.arrangement == Vertical
    requires i + 1 < f.maxPhotos
    ensures SlotRect(f, 0).y == f.top
    ensures SlotRect(f, i).y + SlotRect(f, i).height + f.gap == SlotRect(f, i + 1).y
    ensures f.gap >= 0.0 ==> SlotRect(f, i).y + SlotRect(f, i).height <= SlotRect(f, i + 1).y
    ensures SlotRect(f, f.maxPhotos - 1).y + SlotRect(f, f.maxPhotos - 1).height
            == f.stripHeight - f.bottom
  {
    var s := PhotoSize(f);
    var n := f.maxPhotos;
    assert ((i + 1) as real) * (s.height + f.gap) == (i as real) * (s.height + f.gap) + s.height + f.gap;
    assert ((n - 1) as real) * (s.height + f.gap) + s.height
        == (n as real) * s.height + ((n - 1) as real) * f.gap;
  }

  /** No two slots of a vertical strip overlap when the gap is non-negative
      and the slots have non-negative height: an earlier slot ends above
      where any later one starts. */
  lemma VerticalSlotsDisjoint(f: Frame, i: nat, j: nat)
    requires WellFormed(f) && f.arrangement == Vertical
    requires i < j < f.maxPhotos
    requires f.gap >= 0.0 && PhotoSize(f).height >= 0.0
    ensures SlotRect(f, i).y + SlotRect(f, i).height <= SlotRect(f, j).y
  {
    StepBelow(i, j, PhotoSize(f).height, f.gap);
  }

  // ---------------------------------------------------------------------
  // Catalog layouts on the canvas
  // ---------------------------------------------------------------------

  /** Canvas pixels per inch, the factor the default paddings and gap use. */
  const PixelsPerInch: real := 96.0

  /** The frame the canvas strip resolves for a catalog layout: the layout's
      numbers are taken as they stand, with no paddings or grid template. */
  function CatalogFrame(id: int): Frame
    requires id in Catalog
  {
    Resolve(Catalog[id], None, None)
  }

  /** As written, every catalog layout is 3 by 9 *inches* read as 3 by 9
      pixels, while the default paddings are 14.4 pixels: the paddings alone
      are wider than the strip, and every photo slot has negative width and
      negative height. The slot ratio is still positive, so the crop runs. */
  lemma CatalogSlotsAreNegative(id: int)
    requires id in Catalog
    ensures var f := CatalogFrame(id);
      && WellFormed(f) && f.arrangement == Vertical
      && f.left + f.right > f.stripWidth
      && PhotoSize(f).width < 0.0 && PhotoSize(f).height < 0.0
      && PhotoSize(f).width / PhotoSize(f).height > 0.0
  {
    var f := CatalogFrame(id);
    var s := PhotoSize(f);
    assert s.width == 3.0 - 28.8;
    assert (f.maxPhotos as real) * s.height + ((f.maxPhotos - 1) as real) * f.gap == 9.0 - 28.8;
    assert f.gap > 0.0;
  }

  /** A layout with its size and gap converted to canvas pixels. */
  function InPixels(l: Layout): (p: Layout)
    ensures p.unit == Px && p.maxPhotos == l.maxPhotos && p.arrangement == l.arrangement
    ensures l.unit == Px ==> p == l
    ensures l.unit == In ==>
      && p.width == l.width * PixelsPerInch && p.height == l.height * PixelsPerInch
      && (l.gap.None? <==> p.gap.None?)
      && (l.gap.Some? ==> p.gap.value == l.gap.value * PixelsPerInch)
  {
    if l.unit == Px then l
    else
      Layout(l.maxPhotos, l.width * PixelsPerInch, l.height * PixelsPerInch, l.arrangement, Px,
             if l.gap.Some? then Some(l.gap.value * PixelsPerInch) else None)
  }

  /** The frame of a catalog layout once its inches are converted: a 288 by
      864 pixel strip whose slots have positive size. */
  function PixelFrame(id: int): (f: Frame)
    requires id in Catalog
    ensures WellFormed(f) && f.arrangement == Vertical && f.gap > 0.0
    ensures f.stripWidth == Catalog[id].width * PixelsPerInch
    ensures f.stripHeight == Catalog[id].height * PixelsPerInch
    ensures PhotoSize(f).width > 0.0 && PhotoSize(f).height > 0.0
  {
    var f := Resolve(InPixels(Catalog[id]), None, None);
    var s := PhotoSize(f);
    assert s.width == 288.0 - 28.8;
    assert (f.maxPhotos as real) * s.height + ((f.maxPhotos - 1) as real) * f.gap == 864.0 - 28.8;
    assert ((f.maxPhotos - 1) as real) * f.gap <= 3.0 * 9.6;
    f
  }

  /** With sizes in pixels, the slots of every catalog layout run down the
      strip inside its paddings, one gap apart and without overlapping. */
  lemma PixelSlotsTile(id: int, i: nat, j: nat)
    requires id in Catalog && i < j < Catalog[id].maxPhotos
    ensures var f := PixelFrame(id);
      && SlotRect(f, i).y + SlotRect(f, i).height <= SlotRect(f, j).y
      && (j == i + 1 ==> SlotRect(f, i).y + SlotRect(f, i).height + f.gap == SlotRect(f, j).y)
      && f.top <= SlotRect(f, i).y
      && SlotRect(f, j).y + SlotRect(f, j).height <= f.stripHeight - f.bottom
      && SlotRect(f, i).x == f.left && SlotRect(f, i).x + SlotRect(f, i).width == f.stripWidth - f.right
  {
    var f := PixelFrame(id);
    var s := PhotoSize(f);
    VerticalSlotsDisjoint(f, i, j);
    VerticalSlotsTile(f, i);
    AxisInside(f.top, j, f.maxPhotos, s.height, f.gap, f.stripHeight - f.bottom);
    CellFits(i, f.maxPhotos, s.height, f.gap);
  }

  /** A later slot of a non-negative step starts at least one slot height
      and gap further on. */
  lemma StepBelow(a: nat, b: nat, h: real, g: real)
    requires a < b && h >= 0.0 && g >= 0.0
    ensures (a as real) * (h + g) + h <= (b as real) * (h + g)
  {
    assert (b as real) * (h + g) - (a as real) * (h + g) - (h + g) == ((b - a - 1) as real) * (h + g);
  }

  /** In a horizontal strip the last slot ends exactly at the right padding. */
  lemma HorizontalSlotsTile(f: Frame)
    requires WellFormed(f) && f.arrangement == Horizontal
    ensures SlotRect(f, 0).x == f.left
    ensures SlotRect(f, f.maxPhotos - 1).x + SlotRect(f, f.maxPhotos - 1).width
            == f.stripWidth - f.right
  {
    var s := PhotoSize(f);
    var n := f.maxPhotos;
    assert ((n - 1) as real) * (s.width + f.gap) + s.width
        == (n as real) * s.width + ((n - 1) as real) * f.gap;
  }

  /** Every visited grid cell lies inside the padded area when slot sizes
      and the gap are non-negative. */
  lemma GridSlotInside(f: Frame, k: nat)
    requires WellFormed(f) && f.arrangement == Grid
    requires k < f.rows * f.columns
    requires f.gap >= 0.0 && PhotoSize(f).width >= 0.0 && PhotoSize(f).height >= 0.0
    ensures f.left <= SlotRect(f, k).x
    ensures SlotRect(f, k).x + SlotRect(f, k).width <= f.stripWidth - f.right
    ensures f.top <= SlotRect(f, k).y
    ensures SlotRect(f, k).y + SlotRect(f, k).height <= f.stripHeight - f.bottom
  {
    var col, row := k % f.columns, k / f.columns;
    RowBelow(k, f.columns, f.rows);
    assert k == row * f.columns + col;
    GridCellInside(f, row, col);
  }

  /** The cell at row `row`, column `col` lies inside the padded area. */
  lemma GridCellInside(f: Frame, row: nat, col: nat)
    requires WellFormed(f) && f.arrangement == Grid && row < f.rows && col < f.columns
    requires f.gap >= 0.0 && PhotoSize(f).width >= 0.0 && PhotoSize(f).height >= 0.0
    ensures var r := SlotRect(f, row * f.columns + col);
      && f.left <= r.x && r.x + r.width <= f.stripWidth - f.right
      && f.top <= r.y && r.y + r.height <= f.stripHeight - f.bottom
  {
    GridCellRect(f, row, col);
    GridColumnInside(f, col);
    GridRowInside(f, row);
  }

  lemma GridColumnInside(f: Frame, col: nat)
    requires WellFormed(f) && f.arrangement == Grid && col < f.columns
    requires f.gap >= 0.0 && PhotoSize(f).width >= 0.0
    ensures f.left <= f.left + (col as real) * (PhotoSize(f).width + f.gap)
    ensures f.left + (col as real) * (PhotoSize(f).width + f.gap) + PhotoSize(f).width
      <= f.stripWidth - f.right
  {
    var s := PhotoSize(f);
    AxisInside(f.left, col, f.columns, s.width, f.gap, f.stripWidth - f.right);
  }

  lemma GridRowInside(f: Frame, row: nat)
    requires WellFormed(f) && f.arrangement == Grid && row < f.rows
    requires f.gap >= 0.0 && PhotoSize(f).height >= 0.0
    ensures f.top <= f.top + (row as real) * (PhotoSize(f).height + f.gap)
    ensures f.top + (row as real) * (PhotoSize(f).height + f.gap) + PhotoSize(f).height
      <= f.stripHeight - f.bottom
  {
    var s := PhotoSize(f);
    AxisInside(f.top, row, f.rows, s.height, f.gap, f.stripHeight - f.bottom);
  }

  /** Along one axis: cell `i` of `n` stays between the two margins when
      the `n` cells and `n - 1` gaps fill the space between them. */
  lemma AxisInside(lo: real, i: int, n: int, w: real, g: real, hi: real)
    requires 0 <= i < n && w >= 0.0 && g >= 0.0
    requires (n as real) * w + ((n - 1) as real) * g == hi - lo
    ensures lo <= lo + (i as real) * (w + g)
    ensures lo + (i as real) * (w + g) + w <= hi
  {
    CellFits(i, n, w, g);
  }

  /** The cell at position `i` of `n` (sizes `w`, gaps `g`) ends no later than
      `n` cells and `n - 1` gaps. */
  lemma CellFits(i: int, n: int, w: real, g: real)
    requires 0 <= i < n && w >= 0.0 && g >= 0.0
    ensures 0.0 <= (i as real) * (w + g)
    ensures (i as real) * (w + g) + w <= (n as real) * w + ((n - 1) as real) * g
  {
    assert (i as real) * (w + g) <= ((n - 1) as real) * (w + g);
  }

  // ---------------------------------------------------------------------
  // Center-crop
  // ---------------------------------------------------------------------

  /** The source region copied into a slot of size `slotW × slotH` from an
      image of size `imgW × imgH`: the image is trimmed on its relatively
      longer axis, equally on both sides, so that the region has exactly the
      slot's aspect ratio and fills it without letterboxing. Only the ratio
      of the slot matters: a slot with both sides negative, as every catalog
      layout produces (see `CatalogSlotsAreNegative`), is cropped like the
      positive slot of the same ratio. */
  function CenterCrop(imgW: real, imgH: real, slotW: real, slotH: real): (r: Rect)
    requires imgW > 0.0 && imgH > 0.0 && slotH != 0.0 && slotW / slotH > 0.0
    ensures r.width > 0.0 && r.height > 0.0
    ensures r.width / r.height == slotW / slotH
    ensures 0.0 <= r.x && r.x + r.width <= imgW
    ensures 0.0 <= r.y && r.y + r.height <= imgH
    ensures r.x == imgW - r.x - r.width && r.y == imgH - r.y - r.height
    ensures r.width == imgW || r.height == imgH
  {
    var aspect := slotW / slotH;
    var imgAspect := imgW / imgH;
    CropArithmetic(imgW, imgH, slotW, slotH);
    if imgAspect > aspect then
      var sHeight := imgH;
      var sWidth := sHeight * aspect;
      Rect((imgW - sWidth) / 2.0, 0.0, sWidth, sHeight)
    else
      var sWidth := imgW;
      var sHeight := sWidth / aspect;
      Rect(0.0, (imgH - sHeight) / 2.0, sWidth, sHeight)
  }

  /** The ratio facts `CenterCrop` rests on. */
  lemma CropArithmetic(imgW: real, imgH: real, slotW: real, slotH: real)
    requires imgW > 0.0 && imgH > 0.0 && slotH != 0.0 && slotW / slotH > 0.0
    ensures slotW / slotH > 0.0
    ensures imgW / imgH > slotW / slotH ==>
      0.0 < imgH * (slotW / slotH) < imgW && (imgH * (slotW / slotH)) / imgH == slotW / slotH
    ensures imgW / imgH <= slotW / slotH ==>
      0.0 < imgW / (slotW / slotH) <= imgH && imgW / (imgW / (slotW / slotH)) == slotW / slotH
  {
    var a := slotW / slotH;
    var t := imgW / imgH;
    assert imgW == t * imgH;
    if t > a {
      assert imgH * a < imgH * t;
    } else {
      assert imgH * a >= imgH * t;
      assert imgW / a <= imgH by {
        assert (imgW / a) * a == imgW;
      }
    }
  }

  /** The crop is the largest region of the slot's aspect ratio that fits in
      the image: any such region is no wider and no taller. */
  lemma CropIsLargest(imgW: real, imgH: real, slotW: real, slotH: real, w: real, h: real)
    requires imgW > 0.0 && imgH > 0.0 && slotH != 0.0 && slotW / slotH > 0.0
    requires w > 0.0 && h > 0.0 && w / h == slotW / slotH
    requires w <= imgW && h <= imgH
    ensures w <= CenterCrop(imgW, imgH, slotW, slotH).width
    ensures h <= CenterCrop(imgW, imgH, slotW, slotH).height
  {
    var r := CenterCrop(imgW, imgH, slotW, slotH);
    var a := slotW / slotH;
    assert w == a * h;
    assert r.width == a * r.height;
    if r.width == imgW {
      assert a * h <= a * r.height;
    } else {
      assert r.height == imgH;
      assert a * h <= a * imgH;
    }
  }

  /** A wide 1600×900 photo going into a 400×300 slot loses 200 pixels on the
      left and on the right and keeps its full height. */
  lemma CropWidePhotoExample()
    ensures CenterCrop(1600.0, 900.0, 400.0, 300.0) == Rect(200.0, 0.0, 1200.0, 900.0)
  {
  }
}
