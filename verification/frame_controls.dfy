/** The control panel's data logic: the labels of the layout picker, the
    guard that keeps the layout fixed once photos exist, and where a sticker
    picked from the tray lands on the strip. */
module FrameControls {
  import opened Common
  import opened Layouts
  import opened StickerEngine

  // ---------------------------------------------------------------------
  // Decimal numerals
  // ---------------------------------------------------------------------

  function DigitChar(d: nat): (c: char)
    requires d < 10
    ensures IsDigit(c) && DigitValue(c) == d
  {
    ('0' as int + d) as char
  }

  function DigitValue(c: char): (d: nat)
    requires IsDigit(c)
    ensures d < 10
  {
    c as int - '0' as int
  }

  /** A template literal's `${n}` for a non-negative integer: its decimal
      digits, most significant first, without leading zeros. */
  function Decimal(n: nat): (r: string)
    ensures 1 <= |r| && forall i :: 0 <= i < |r| ==> IsDigit(r[i])
    ensures n < 10 <==> |r| == 1
  {
    if n < 10 then [DigitChar(n)] else Decimal(n / 10) + [DigitChar(n % 10)]
  }

  /** The number a string of decimal digits denotes. */
  function DecimalValue(w: string): nat
    requires forall i :: 0 <= i < |w| ==> IsDigit(w[i])
    decreases |w|
  {
    if |w| == 0 then 0 else 10 * DecimalValue(w[..|w| - 1]) + DigitValue(w[|w| - 1])
  }

  /** Reading back the digits `Decimal` writes gives the number. */
  lemma {:induction false} DecimalRoundTrip(n: nat)
    ensures DecimalValue(Decimal(n)) == n
  {
    var w := Decimal(n);
    if n >= 10 {
      DecimalRoundTrip(n / 10);
      assert w[..|w| - 1] == Decimal(n / 10);
    } else {
      assert w[..0] == [];
    }
  }

  /** The longest run of decimal digits at the front of `s`. */
  function DigitPrefix(s: string): (r: string)
    ensures |r| <= |s| && r == s[..|r|]
    ensures forall i :: 0 <= i < |r| ==> IsDigit(r[i])
    decreases |s|
  {
    if |s| > 0 && IsDigit(s[0]) then
      var rest := DigitPrefix(s[1..]);
      assert s[..|rest| + 1] == [s[0]] + rest;
      [s[0]] + rest
    else []
  }

  /** A digit string followed by a non-digit: the digit prefix is exactly
      the digit string. */
  lemma {:induction false} DigitPrefixOf(w: string, tail: string)
    requires forall i :: 0 <= i < |w| ==> IsDigit(w[i])
    requires |tail| > 0 && !IsDigit(tail[0])
    ensures DigitPrefix(w + tail) == w
    decreases |w|
  {
    if |w| > 0 {
      assert (w + tail)[1..] == w[1..] + tail;
      DigitPrefixOf(w[1..], tail);
      assert [w[0]] + w[1..] == w;
    } else {
      assert w + tail == tail;
    }
  }

  // ---------------------------------------------------------------------
  // Layout picker
  // ---------------------------------------------------------------------

  /** The catalog's `arrangement` string. */
  function ArrangementName(a: Arrangement): string {
    match a
    case Vertical => "vertical"
    case Horizontal => "horizontal"
    case Grid => "grid"
  }

  /** `toUpperCase` on one character, for the ASCII letters the catalog uses. */
  function UpperChar(c: char): (d: char)
    ensures 'a' <= c <= 'z' ==> 'A' <= d <= 'Z' && d as int == c as int - 32
    ensures !('a' <= c <= 'z') ==> d == c
  {
    if 'a' <= c <= 'z' then (c as int - 32) as char else c
  }

  /** `s.charAt(0).toUpperCase() + s.slice(1)`; the empty string stays
      empty. */
  function Capitalize(s: string): (r: string)
    ensures |r| == |s|
    ensures |s| > 0 ==> r[0] == UpperChar(s[0]) && r[1..] == s[1..]
  {
    if |s| == 0 then [] else [UpperChar(s[0])] + s[1..]
  }

  /** The option text for a layout holding `n` photos:
      `${n} Photo${n > 1 ? "s" : ""} (${Capitalize(arrangement)})`. */
  function LayoutLabel(n: nat, arrangement: string): (r: string)
    ensures |r| == |Decimal(n)| + |arrangement| + (if n > 1 then 10 else 9)
  {
    Decimal(n) + LabelTail(n, arrangement)
  }

  function LabelTail(n: nat, arrangement: string): (t: string)
    ensures |t| == 6 + (if n > 1 then 1 else 0) + |arrangement| + 3
  {
    " Photo" + ((if n > 1 then "s" else "") + (" (" + (Capitalize(arrangement) + ")")))
  }

  /** The label starts with the count, which reads back as `n`. */
  lemma LabelCount(n: nat, arrangement: string)
    ensures DecimalValue(DigitPrefix(LayoutLabel(n, arrangement))) == n
  {
    var w, tail := Decimal(n), LabelTail(n, arrangement);
    assert tail[0] == ' ';
    DigitPrefixOf(w, tail);
    DecimalRoundTrip(n);
  }

  /** After the count the label says "Photo", with an "s" exactly when
      there is more than one, and ends with the capitalised arrangement in
      parentheses. */
  lemma LabelWords(n: nat, arrangement: string)
    ensures var text := LayoutLabel(n, arrangement);
      var d := |Decimal(n)|;
      && text[d..d + 6] == " Photo"
      && (n > 1 <==> text[d + 6] == 's')
      && text[|text| - |arrangement| - 3..] == " (" + Capitalize(arrangement) + ")"
  {
    var text, w, t := LayoutLabel(n, arrangement), Decimal(n), LabelTail(n, arrangement);
    AppendSlices(text, w, t, |arrangement| + 3);
    TailParts(n, arrangement);
  }

  lemma TailParts(n: nat, arrangement: string)
    ensures var t := LabelTail(n, arrangement);
      && t[0] == ' ' && t[..6] == " Photo"
      && (n > 1 <==> t[6] == 's')
      && t[|t| - |arrangement| - 3..] == " (" + Capitalize(arrangement) + ")"
  {
    var c := Capitalize(arrangement);
    var p := if n > 1 then "s" else "";
    var t := LabelTail(n, arrangement);
    var q := " (" + (c + ")");
    assert t == " Photo" + (p + q);
    assert t[..6] == " Photo";
    assert t[6..] == p + q;
    assert t[|t| - |q|..] == q;
    assert q == " (" + c + ")";
    if n <= 1 {
      assert t[6] == q[0] == ' ';
    }
  }

  /** Slices of `w + t` past `w` are slices of `t`. */
  lemma AppendSlices(s: string, w: string, t: string, m: nat)
    requires s == w + t && 7 <= |t| && m <= |t|
    ensures s[|w|..|w| + 6] == t[..6]
    ensures s[|w| + 6] == t[6]
    ensures s[|s| - m..] == t[|t| - m..]
  {
  }

  /** Layouts with different capacities get different labels. */
  lemma LabelsTellCountsApart(n: nat, m: nat, a: string, b: string)
    requires n != m
    ensures LayoutLabel(n, a) != LayoutLabel(m, b)
  {
    LabelCount(n, a);
    LabelCount(m, b);
  }

  /** One entry of the picker: the catalog id, its label and capacity. */
  datatype LayoutOption = LayoutOption(id: int, name: string, maxPhotos: int)

  function OptionFor(id: int): (o: LayoutOption)
    requires id in Catalog
    ensures o.id == id && o.maxPhotos == Catalog[id].maxPhotos
  {
    var l := Catalog[id];
    LayoutOption(id, LayoutLabel(l.maxPhotos, ArrangementName(l.arrangement)), l.maxPhotos)
  }

  /** `Object.entries(LAYOUTS)`, which lists integer keys in ascending
      order, mapped to options: one per catalog entry, ids increasing. */
  function LayoutOptions(): (r: seq<LayoutOption>)
    ensures |r| == |Catalog.Keys|
    ensures forall k :: 0 <= k < |r| ==> r[k].id in Catalog && r[k].maxPhotos == Catalog[r[k].id].maxPhotos
    ensures forall k :: 0 < k < |r| ==> r[k - 1].id < r[k].id
  {
    CatalogKeys();
    [OptionFor(1), OptionFor(2), OptionFor(3)]
  }

  lemma CatalogKeys()
    ensures Catalog.Keys == {1, 2, 3} && |Catalog.Keys| == 3
  {
  }

  /** The picker's entries all read differently. */
  lemma OptionLabelsDistinct(j: nat, k: nat)
    requires j < k < |LayoutOptions()|
    ensures LayoutOptions()[j].name != LayoutOptions()[k].name
  {
    OptionLabel(j);
    OptionLabel(k);
    assert LayoutOptions()[j].name[0] != LayoutOptions()[k].name[0];
  }

  /** The picker reads "4 Photos (Vertical)", "3 Photos (Vertical)" and
      "2 Photos (Vertical)": every catalog entry is vertical, with capacity
      4, 3 and 2 in id order. */
  lemma OptionLabel(k: nat)
    requires k < 3
    ensures LayoutOptions()[k].name == [DigitChar(4 - k)] + " Photos (Vertical)"
  {
    var id := k + 1;
    assert LayoutOptions()[k] == OptionFor(id);
    OptionName(id);
    VerticalLabel(4 - k);
  }

  /** A catalog entry's option is labelled from its capacity as a vertical
      layout. */
  lemma OptionName(id: int)
    requires id in Catalog
    ensures OptionFor(id).name == LayoutLabel(Catalog[id].maxPhotos, "vertical")
  {
    assert Catalog[id].arrangement == Vertical;
  }

  /** A one-digit plural count of vertical slots. */
  lemma VerticalLabel(n: nat)
    requires 2 <= n < 10
    ensures LayoutLabel(n, "vertical") == [DigitChar(n)] + " Photos (Vertical)"
  {
    assert Capitalize("vertical") == "Vertical";
    assert LabelTail(n, "vertical") == " Photos (Vertical)";
  }

  /** The select's `onChange`: `parseInt` of the chosen option's value
      (the id's decimal digits), forwarded only when no photo is captured. */
  function SelectLayout(capturedCount: nat, value: string): (r: Option<int>)
    requires |value| > 0 && forall i :: 0 <= i < |value| ==> IsDigit(value[i])
    ensures r.Some? <==> capturedCount == 0
  {
    if capturedCount == 0 then Some(DecimalValue(value)) else None
  }

  /** Choosing an option with nothing captured forwards exactly its id. */
  lemma SelectForwardsOptionId(k: nat)
    requires k < |LayoutOptions()|
    ensures var o := LayoutOptions()[k];
      o.id >= 0 && SelectLayout(0, Decimal(o.id)) == Some(o.id)
  {
    var o := LayoutOptions()[k];
    assert o.id in Catalog;
    DecimalRoundTrip(o.id);
  }

  // ---------------------------------------------------------------------
  // Adding a sticker
  // ---------------------------------------------------------------------

  /** Pixels per inch of the strip. */
  const Dpi: real := 96.0

  /** `addStickerToCanvas` with `now` the clock reading used as id: an
      unrotated 100 by 100 sticker, centred across a 3-inch strip, at half
      the height of `capturedCount` 2-inch photos, or one inch down when
      there are none (`0 || 96`), after the existing stickers. */
  function AddStickerToCanvas(stickers: seq<Sticker>, image: ImageRef, capturedCount: nat, now: int): (r: seq<Sticker>)
    ensures |r| == |stickers| + 1 && r[..|stickers|] == stickers
    ensures var s := r[|stickers|];
      && s.id == now && s.image == image
      && s.width == 100.0 && s.height == 100.0 && s.rotation == 0.0
      && s.x == 144.0
      && s.y == (if capturedCount > 0 then capturedCount as real else 1.0) * Dpi
  {
    var half := (capturedCount as real * 2.0 * Dpi) / 2.0;
    var y := if half != 0.0 then half else Dpi;
    stickers + [Sticker(now, image, (3.0 * Dpi) / 2.0, y, 100.0, 100.0, 0.0)]
  }

  /** A freshly added sticker lies below the top inch of the strip and is
      hit by a click at its centre. */
  lemma AddedStickerIsHitAtCenter(stickers: seq<Sticker>, image: ImageRef, capturedCount: nat, now: int, trig: Trig)
    ensures var s := AddStickerToCanvas(stickers, image, capturedCount, now)[|stickers|];
      s.y >= Dpi && HitTest(s.x, s.y, s, trig).inBounds
  {
    var s := AddStickerToCanvas(stickers, image, capturedCount, now)[|stickers|];
    CenterHitsBody(s, trig);
  }
}
