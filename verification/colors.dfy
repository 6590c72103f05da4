/** Colour helpers of `src/utils/colors.tsx`: `#rrggbb` decoding with
    `parseInt(…, 16)`, encoding with `toString(16)`, the colour-format
    classifier and the black-or-white contrast pick. Strings here are
    sequences of Unicode scalar values, while JavaScript strings are
    sequences of UTF-16 code units; the two agree on every string without
    characters outside the Basic Multilingual Plane. */
module Colors {
  import opened Common

  // ---------------------------------------------------------------------
  // Characters
  // ---------------------------------------------------------------------

  /** White space and line terminators as JavaScript knows them: what
      `String.prototype.trim` strips, what the regex class `\s` matches and
      what `parseInt` skips before the number. */
  predicate IsJsSpace(c: char) {
    c == ' ' || c == '\t' || c == '\n' || c == '\U{B}' || c == '\U{C}' || c == '\r'
    || c == '\U{A0}' || c == '\U{1680}' || ('\U{2000}' <= c <= '\U{200A}')
    || c == '\U{2028}' || c == '\U{2029}' || c == '\U{202F}' || c == '\U{205F}'
    || c == '\U{3000}' || c == '\U{FEFF}'
  }

  predicate IsHexDigit(c: char) {
    IsDigit(c) || 'a' <= c <= 'f' || 'A' <= c <= 'F'
  }

  /** What `toString(16)` writes: a digit or a lower-case `a`-`f`. */
  predicate IsLowerHexDigit(c: char) {
    IsDigit(c) || 'a' <= c <= 'f'
  }

  /** The value of one hexadecimal digit, either case. */
  function HexValue(c: char): (v: nat)
    requires IsHexDigit(c)
    ensures v < 16
  {
    if IsDigit(c) then c as nat - '0' as nat
    else if 'a' <= c <= 'f' then c as nat - 'a' as nat + 10
    else c as nat - 'A' as nat + 10
  }

  /** The lower-case digit `Number.prototype.toString(16)` writes for `v`. */
  function HexChar(v: nat): (c: char)
    requires v < 16
    ensures IsHexDigit(c) && IsLowerHexDigit(c) && HexValue(c) == v && LowerChar(c) == c
  {
    if v < 10 then ('0' as int + v) as char else ('a' as int + v - 10) as char
  }

  /** `toLowerCase` on one character; only ASCII letters change. */
  function LowerChar(c: char): (d: char)
    ensures 'A' <= c <= 'Z' ==> d as int == c as int + 32
    ensures !('A' <= c <= 'Z') ==> d == c
  {
    if 'A' <= c <= 'Z' then (c as int + 32) as char else c
  }

  function Lower(s: seq<char>): (r: seq<char>)
    ensures |r| == |s| && forall i :: 0 <= i < |s| ==> r[i] == LowerChar(s[i])
  {
    seq(|s|, i requires 0 <= i < |s| => LowerChar(s[i]))
  }

  /** Writing a digit back after reading it gives the digit in lower case. */
  lemma HexCharOfValue(c: char)
    requires IsHexDigit(c)
    ensures HexChar(HexValue(c)) == LowerChar(c)
  {
  }

  // ---------------------------------------------------------------------
  // String primitives
  // ---------------------------------------------------------------------

  /** `s` without its leading white space. */
  function TrimStart(s: seq<char>): (r: seq<char>)
    ensures |r| <= |s|
    decreases |s|
  {
    if |s| > 0 && IsJsSpace(s[0]) then TrimStart(s[1..]) else s
  }

  /** `TrimStart` removes a prefix that is all white space, and what is left
      does not start with white space. */
  lemma {:induction false} TrimStartSpec(s: seq<char>)
    ensures var r := TrimStart(s);
      && r == s[|s| - |r|..]
      && (forall i :: 0 <= i < |s| - |r| ==> IsJsSpace(s[i]))
      && (|r| > 0 ==> !IsJsSpace(r[0]))
    decreases |s|
  {
    if |s| > 0 && IsJsSpace(s[0]) {
      TrimStartSpec(s[1..]);
      var r := TrimStart(s);
      assert s[1..][|s| - 1 - |r|..] == s[|s| - |r|..];
      forall i | 1 <= i < |s| - |r| ensures IsJsSpace(s[i]) {
        assert s[i] == s[1..][i - 1];
      }
    }
  }

  /** `s` without its trailing white space. */
  function TrimEnd(s: seq<char>): (r: seq<char>)
    ensures |r| <= |s|
    decreases |s|
  {
    if |s| > 0 && IsJsSpace(s[|s| - 1]) then TrimEnd(s[..|s| - 1]) else s
  }

  /** `TrimEnd` removes a suffix that is all white space, and what is left
      does not end with white space. */
  lemma {:induction false} TrimEndSpec(s: seq<char>)
    ensures var r := TrimEnd(s);
      && r == s[..|r|]
      && (forall i :: |r| <= i < |s| ==> IsJsSpace(s[i]))
      && (|r| > 0 ==> !IsJsSpace(r[|r| - 1]))
    decreases |s|
  {
    if |s| > 0 && IsJsSpace(s[|s| - 1]) {
      TrimEndSpec(s[..|s| - 1]);
      var r := TrimEnd(s);
      assert s[..|s| - 1][..|r|] == s[..|r|];
      forall i | |r| <= i < |s| - 1 ensures IsJsSpace(s[i]) {
        assert s[i] == s[..|s| - 1][i];
      }
    }
  }

  /** `String.prototype.trim`: the part of `s` between a white-space prefix
      and a white-space suffix, starting and ending with other characters. */
  function Trim(s: seq<char>): (r: seq<char>)
    ensures var k := |s| - |TrimStart(s)|;
      && k + |r| <= |s| && r == s[k..k + |r|]
      && (forall i :: 0 <= i < k ==> IsJsSpace(s[i]))
      && (forall i :: k + |r| <= i < |s| ==> IsJsSpace(s[i]))
    ensures |r| > 0 ==> !IsJsSpace(r[0]) && !IsJsSpace(r[|r| - 1])
  {
    var t := TrimStart(s);
    TrimStartSpec(s);
    TrimEndSpec(t);
    var r := TrimEnd(t);
    assert |r| > 0 ==> r[0] == t[0];
    r
  }

  /** `String.prototype.slice(start, end)` for non-negative `start <= end`:
      both ends are cut back to the length of the string. */
  function Slice(s: seq<char>, start: nat, end: nat): (r: seq<char>)
    requires start <= end
    ensures |s| >= end ==> r == s[start..end]
    ensures |s| <= start ==> r == []
  {
    var a := if start <= |s| then start else |s|;
    var b := if end <= |s| then end else |s|;
    s[a..b]
  }

  // ---------------------------------------------------------------------
  // parseInt(s, 16) and toString(16)
  // ---------------------------------------------------------------------

  /** The longest prefix of `s` made of hexadecimal digits. */
  function HexPrefix(s: seq<char>): (r: seq<char>)
    ensures forall i :: 0 <= i < |r| ==> IsHexDigit(r[i])
    decreases |s|
  {
    if |s| > 0 && IsHexDigit(s[0]) then
      var rest := HexPrefix(s[1..]);
      assert ([s[0]] + rest)[1..] == rest;
      [s[0]] + rest
    else []
  }

  /** `HexPrefix` is a prefix, and the character after it (if any) is not a
      hexadecimal digit. */
  lemma {:induction false} HexPrefixSpec(s: seq<char>)
    ensures var r := HexPrefix(s);
      |r| <= |s| && r == s[..|r|] && (|r| < |s| ==> !IsHexDigit(s[|r|]))
    decreases |s|
  {
    if |s| > 0 && IsHexDigit(s[0]) {
      HexPrefixSpec(s[1..]);
      var rest := HexPrefix(s[1..]);
      assert s[..|rest| + 1] == [s[0]] + s[1..][..|rest|];
      if |rest| + 1 < |s| {
        assert s[|rest| + 1] == s[1..][|rest|];
      }
    }
  }

  /** The number a string of hexadecimal digits denotes, most significant
      digit first. */
  function HexNumber(z: seq<char>): (v: nat)
    requires forall i :: 0 <= i < |z| ==> IsHexDigit(z[i])
    decreases |z|
  {
    if |z| == 0 then 0 else 16 * HexNumber(z[..|z| - 1]) + HexValue(z[|z| - 1])
  }

  /** `parseInt(s, 16)`: skip leading white space, take one optional sign,
      drop a `0x`/`0X` prefix, then read the longest run of hexadecimal
      digits; no digits at all is `NaN` (`None`). */
  function ParseInt16(s: seq<char>): (r: Option<int>)
    ensures var v := AfterHexPrefix(AfterSign(TrimStart(s)));
      r.None? <==> |v| == 0 || !IsHexDigit(v[0])
    ensures |s| == 0 ==> r.None?
  {
    var t := TrimStart(s);
    var z := HexPrefix(AfterHexPrefix(AfterSign(t)));
    if |z| == 0 then None
    else if |t| > 0 && t[0] == '-' then Some(-(HexNumber(z) as int))
    else Some(HexNumber(z))
  }

  /** The string after one optional `+` or `-`. */
  function AfterSign(t: seq<char>): (u: seq<char>)
    ensures |t| > 0 && (t[0] == '-' || t[0] == '+') ==> u == t[1..]
    ensures |t| == 0 || (t[0] != '-' && t[0] != '+') ==> u == t
  {
    if |t| > 0 && (t[0] == '-' || t[0] == '+') then t[1..] else t
  }

  /** The string after one optional `0x` or `0X`. */
  function AfterHexPrefix(u: seq<char>): (v: seq<char>)
    ensures |u| >= 2 && u[0] == '0' && (u[1] == 'x' || u[1] == 'X') ==> v == u[2..]
    ensures |u| < 2 || u[0] != '0' || (u[1] != 'x' && u[1] != 'X') ==> v == u
  {
    if |u| >= 2 && u[0] == '0' && (u[1] == 'x' || u[1] == 'X') then u[2..] else u
  }

  /** `n.toString(16)` for a non-negative integer: lower-case digits, no
      leading zeros. */
  function ToString16(n: nat): (r: seq<char>)
    ensures 1 <= |r|
    ensures forall i :: 0 <= i < |r| ==> IsHexDigit(r[i]) && LowerChar(r[i]) == r[i]
    ensures n < 16 <==> |r| == 1
    ensures n < 256 ==> |r| <= 2
  {
    if n < 16 then [HexChar(n)] else ToString16(n / 16) + [HexChar(n % 16)]
  }

  /** A non-empty string of hexadecimal digits is read whole. */
  lemma ParseDigits(w: seq<char>)
    requires |w| >= 1 && forall i :: 0 <= i < |w| ==> IsHexDigit(w[i])
    ensures ParseInt16(w) == Some(HexNumber(w))
  {
    assert !IsJsSpace(w[0]);
    assert TrimStart(w) == w;
    assert AfterSign(w) == w;
    assert |w| >= 2 ==> IsHexDigit(w[1]);
    assert AfterHexPrefix(w) == w;
    HexPrefixSpec(w);
    assert HexPrefix(w) == w;
  }

  /** The digits `toString(16)` writes denote the number. */
  lemma {:induction false} HexNumberOfToString16(n: nat)
    ensures HexNumber(ToString16(n)) == n
  {
    var w := ToString16(n);
    if n >= 16 {
      HexNumberOfToString16(n / 16);
      assert w[..|w| - 1] == ToString16(n / 16);
      assert HexNumber(w) == 16 * (n / 16) + n % 16;
    } else {
      assert w[..0] == [];
    }
  }

  /** Reading back what `toString(16)` wrote gives the number again. */
  lemma ParseToString16(n: nat)
    ensures ParseInt16(ToString16(n)) == Some(n)
  {
    HexNumberOfToString16(n);
    ParseDigits(ToString16(n));
  }

  /** Two hexadecimal digits are read as `16 * first + second`. */
  lemma ParseTwoDigits(w: seq<char>)
    requires |w| == 2 && IsHexDigit(w[0]) && IsHexDigit(w[1])
    ensures ParseInt16(w) == Some(16 * HexValue(w[0]) + HexValue(w[1]))
  {
    HexNumberOne(w[0]);
    assert w[..1] == [w[0]];
    assert HexNumber(w) == 16 * HexValue(w[0]) + HexValue(w[1]);
    ParseDigits(w);
  }

  lemma HexNumberOne(c: char)
    requires IsHexDigit(c)
    ensures HexNumber([c]) == HexValue(c)
  {
    assert [c][..0] == [];
  }

  // ---------------------------------------------------------------------
  // hexToRgb and rgbToHex
  // ---------------------------------------------------------------------

  /** The `{ r, g, b }` object `hexToRgb` returns; `None` is `NaN`. */
  datatype Rgb = Rgb(r: Option<int>, g: Option<int>, b: Option<int>)

  /** `hexToRgb`: characters 1-2, 3-4 and 5-6 of the string, each read with
      `parseInt(…, 16)`. The character at index 0 is never looked at. */
  function HexToRgb(hex: seq<char>): (c: Rgb)
    ensures |hex| >= 7 && (forall i :: 1 <= i < 7 ==> IsHexDigit(hex[i])) ==>
      c == Rgb(Some(ByteAt(hex, 1)), Some(ByteAt(hex, 3)), Some(ByteAt(hex, 5)))
    ensures |hex| <= 5 ==> c.b.None?
    ensures |hex| <= 3 ==> c.g.None? && c.b.None?
  {
    if |hex| >= 7 && (forall i :: 1 <= i < 7 ==> IsHexDigit(hex[i])) then
      ReadByteAt(hex, 1);
      ReadByteAt(hex, 3);
      ReadByteAt(hex, 5);
      Rgb(ParseInt16(Slice(hex, 1, 3)), ParseInt16(Slice(hex, 3, 5)), ParseInt16(Slice(hex, 5, 7)))
    else
      Rgb(ParseInt16(Slice(hex, 1, 3)), ParseInt16(Slice(hex, 3, 5)), ParseInt16(Slice(hex, 5, 7)))
  }

  function Clamp255(n: int): (c: nat)
    ensures c <= 255
    ensures 0 <= n <= 255 ==> c == n
    ensures n < 0 ==> c == 0
    ensures n > 255 ==> c == 255
  {
    if n < 0 then 0 else if n > 255 then 255 else n
  }

  /** Fixed-width two-digit lower-case hexadecimal for a byte value. */
  function Hex2(v: nat): (w: seq<char>)
    requires v < 256
    ensures |w| == 2 && IsLowerHexDigit(w[0]) && IsLowerHexDigit(w[1])
  {
    [HexChar(v / 16), HexChar(v % 16)]
  }

  /** `toHex` inside `rgbToHex`: clamp to [0, 255], `toString(16)`, and pad
      a single digit with a leading `0`. The result is the fixed-width
      two-digit form. */
  function ToHex(n: int): (w: seq<char>)
    ensures w == Hex2(Clamp255(n))
  {
    var c := Clamp255(n);
    var h := ToString16(c);
    if |h| == 1 then
      assert h == [HexChar(c)];
      ['0'] + h
    else
      assert ToString16(c / 16) == [HexChar(c / 16)];
      assert h == ToString16(c / 16) + [HexChar(c % 16)];
      h
  }

  /** `rgbToHex` on integer components: `#` and the three clamped components,
      each as two lower-case hexadecimal digits. */
  function RgbToHex(r: int, g: int, b: int): (s: seq<char>)
    ensures |s| == 7 && s[0] == '#'
    ensures s[1..3] == Hex2(Clamp255(r)) && s[3..5] == Hex2(Clamp255(g)) && s[5..7] == Hex2(Clamp255(b))
  {
    var x, y, z := ToHex(r), ToHex(g), ToHex(b);
    var s := ['#'] + x + y + z;
    assert s[1..3] == x;
    assert s[3..5] == y;
    assert s[5..7] == z;
    s
  }

  /** `rgbToHex` always writes `#` and exactly six lower-case hexadecimal
      digits. */
  lemma RgbToHexDigits(r: int, g: int, b: int)
    ensures var s := RgbToHex(r, g, b);
      |s| == 7 && s[0] == '#' && forall i :: 1 <= i < 7 ==> IsLowerHexDigit(s[i])
  {
    HexSlices(RgbToHex(r, g, b));
  }

  lemma HexSlices(s: seq<char>)
    requires |s| == 7
    requires IsLowerHexDigit(s[1..3][0]) && IsLowerHexDigit(s[1..3][1])
    requires IsLowerHexDigit(s[3..5][0]) && IsLowerHexDigit(s[3..5][1])
    requires IsLowerHexDigit(s[5..7][0]) && IsLowerHexDigit(s[5..7][1])
    ensures forall i :: 1 <= i < 7 ==> IsLowerHexDigit(s[i])
  {
    assert s[1] == s[1..3][0] && s[2] == s[1..3][1];
    assert s[3] == s[3..5][0] && s[4] == s[3..5][1];
    assert s[5] == s[5..7][0] && s[6] == s[5..7][1];
  }

  /** Out-of-range components saturate: below 0 is written `00`, above 255
      is written `ff`. */
  lemma RgbToHexClamps(r: int, g: int, b: int)
    ensures r < 0 ==> RgbToHex(r, g, b)[1..3] == "00"
    ensures r > 255 ==> RgbToHex(r, g, b)[1..3] == "ff"
    ensures g < 0 ==> RgbToHex(r, g, b)[3..5] == "00"
    ensures g > 255 ==> RgbToHex(r, g, b)[3..5] == "ff"
    ensures b < 0 ==> RgbToHex(r, g, b)[5..7] == "00"
    ensures b > 255 ==> RgbToHex(r, g, b)[5..7] == "ff"
  {
    Hex2Extremes();
  }

  lemma Hex2Extremes()
    ensures Hex2(0) == "00" && Hex2(255) == "ff"
  {
    assert HexChar(0) == '0';
    assert HexChar(15) == 'f';
  }

  /** A byte written with `Hex2` reads back as the byte. */
  lemma Hex2ReadsBack(v: nat)
    requires v < 256
    ensures ParseInt16(Hex2(v)) == Some(v)
  {
    var w := Hex2(v);
    assert HexValue(w[0]) == v / 16 && HexValue(w[1]) == v % 16;
    assert 16 * HexValue(w[0]) + HexValue(w[1]) == v;
    ParseTwoDigits(w);
  }

  /** Encoding then decoding in-range components gives them back. */
  lemma HexRoundTrip(r: int, g: int, b: int)
    requires 0 <= r <= 255 && 0 <= g <= 255 && 0 <= b <= 255
    ensures HexToRgb(RgbToHex(r, g, b)) == Rgb(Some(r), Some(g), Some(b))
  {
    var s := RgbToHex(r, g, b);
    assert Slice(s, 1, 3) == Hex2(r);
    assert Slice(s, 3, 5) == Hex2(g);
    assert Slice(s, 5, 7) == Hex2(b);
    Hex2ReadsBack(r);
    Hex2ReadsBack(g);
    Hex2ReadsBack(b);
  }

  /** The byte written as the two hexadecimal digits at `i` and `i + 1`. */
  function ByteAt(s: seq<char>, i: nat): (v: nat)
    requires i + 2 <= |s| && IsHexDigit(s[i]) && IsHexDigit(s[i + 1])
    ensures v < 256
  {
    16 * HexValue(s[i]) + HexValue(s[i + 1])
  }

  /** `parseInt` reads the two digits at `i` as their byte. */
  lemma ReadByteAt(s: seq<char>, i: nat)
    requires i + 2 <= |s| && IsHexDigit(s[i]) && IsHexDigit(s[i + 1])
    ensures ParseInt16(Slice(s, i, i + 2)) == Some(ByteAt(s, i))
  {
    var w := Slice(s, i, i + 2);
    assert w == s[i..i + 2] && w[0] == s[i] && w[1] == s[i + 1];
    assert 16 * HexValue(w[0]) + HexValue(w[1]) == ByteAt(s, i);
    ParseTwoDigits(w);
  }

  /** Writing the byte at `i` back gives the two digits in lower case. */
  lemma WriteByteAt(s: seq<char>, i: nat)
    requires i + 2 <= |s| && IsHexDigit(s[i]) && IsHexDigit(s[i + 1])
    ensures Hex2(ByteAt(s, i)) == [LowerChar(s[i]), LowerChar(s[i + 1])]
  {
    var v := ByteAt(s, i);
    assert v / 16 == HexValue(s[i]) && v % 16 == HexValue(s[i + 1]);
    HexCharOfValue(s[i]);
    HexCharOfValue(s[i + 1]);
  }

  /** Decoding a string whose characters 1 to 6 are hexadecimal digits gives
      three bytes, and encoding them gives `#` and those digits in lower
      case; for a well-formed `#rrggbb` that is the input lower-cased. */
  lemma RgbRoundTrip(s: seq<char>)
    requires |s| >= 7 && forall i :: 1 <= i < 7 ==> IsHexDigit(s[i])
    ensures var c := HexToRgb(s);
      && c.r.Some? && c.g.Some? && c.b.Some?
      && 0 <= c.r.value <= 255 && 0 <= c.g.value <= 255 && 0 <= c.b.value <= 255
      && RgbToHex(c.r.value, c.g.value, c.b.value) == "#" + Lower(s[1..7])
      && (|s| == 7 && s[0] == '#' ==> RgbToHex(c.r.value, c.g.value, c.b.value) == Lower(s))
  {
    DecodeBytes(s);
    ReencodeBytes(s, HexToRgb(s));
  }

  lemma ReencodeBytes(s: seq<char>, c: Rgb)
    requires |s| >= 7 && forall i :: 1 <= i < 7 ==> IsHexDigit(s[i])
    requires c == Rgb(Some(ByteAt(s, 1)), Some(ByteAt(s, 3)), Some(ByteAt(s, 5)))
    ensures && c.r.Some? && c.g.Some? && c.b.Some?
      && 0 <= c.r.value <= 255 && 0 <= c.g.value <= 255 && 0 <= c.b.value <= 255
      && RgbToHex(c.r.value, c.g.value, c.b.value) == "#" + Lower(s[1..7])
      && (|s| == 7 && s[0] == '#' ==> RgbToHex(c.r.value, c.g.value, c.b.value) == Lower(s))
  {
    if |s| == 7 && s[0] == '#' {
      LowerAfterHash(s);
    }
    EncodeBytes(s);
  }

  lemma LowerAfterHash(s: seq<char>)
    requires |s| == 7 && s[0] == '#'
    ensures Lower(s) == "#" + Lower(s[1..7])
  {
    assert Lower(s)[0] == '#';
    assert forall k :: 1 <= k < 7 ==> Lower(s)[k] == Lower(s[1..7])[k - 1];
  }

  lemma DecodeBytes(s: seq<char>)
    requires |s| >= 7 && forall i :: 1 <= i < 7 ==> IsHexDigit(s[i])
    ensures HexToRgb(s) == Rgb(Some(ByteAt(s, 1)), Some(ByteAt(s, 3)), Some(ByteAt(s, 5)))
  {
    ReadByteAt(s, 1);
    ReadByteAt(s, 3);
    ReadByteAt(s, 5);
  }

  lemma EncodeBytes(s: seq<char>)
    requires |s| >= 7 && forall i :: 1 <= i < 7 ==> IsHexDigit(s[i])
    ensures RgbToHex(ByteAt(s, 1), ByteAt(s, 3), ByteAt(s, 5)) == "#" + Lower(s[1..7])
  {
    WriteByteAt(s, 1);
    WriteByteAt(s, 3);
    WriteByteAt(s, 5);
    EncodeDigits(ByteAt(s, 1), ByteAt(s, 3), ByteAt(s, 5), s);
  }

  lemma EncodeDigits(x: nat, y: nat, z: nat, s: seq<char>)
    requires x < 256 && y < 256 && z < 256 && |s| >= 7
    requires Hex2(x) == [LowerChar(s[1]), LowerChar(s[2])]
    requires Hex2(y) == [LowerChar(s[3]), LowerChar(s[4])]
    requires Hex2(z) == [LowerChar(s[5]), LowerChar(s[6])]
    ensures RgbToHex(x, y, z) == "#" + Lower(s[1..7])
  {
    LowerFromSlices(RgbToHex(x, y, z), s);
  }

  /** A seven-character string whose three two-character slices after `#`
      are characters 1 to 6 of `s` lower-cased is `#` and those characters
      lower-cased. */
  lemma LowerFromSlices(y: seq<char>, s: seq<char>)
    requires |y| == 7 && y[0] == '#' && |s| >= 7
    requires y[1..3] == [LowerChar(s[1]), LowerChar(s[2])]
    requires y[3..5] == [LowerChar(s[3]), LowerChar(s[4])]
    requires y[5..7] == [LowerChar(s[5]), LowerChar(s[6])]
    ensures y == "#" + Lower(s[1..7])
  {
    var z := "#" + Lower(s[1..7]);
    assert y[1] == y[1..3][0] && y[2] == y[1..3][1];
    assert y[3] == y[3..5][0] && y[4] == y[3..5][1];
    assert y[5] == y[5..7][0] && y[6] == y[5..7][1];
    assert forall k :: 1 <= k < 7 ==> z[k] == LowerChar(s[k]);
    assert forall k :: 0 <= k < 7 ==> y[k] == z[k];
  }

  /** The three-digit shorthand is not expanded: `#fff` decodes to 255, 15
      and `NaN`. */
  lemma ShorthandNotExpanded()
    ensures HexToRgb("#fff") == Rgb(Some(255), Some(15), None)
  {
    var x := "#fff";
    assert Slice(x, 3, 5) == ['f'] && Slice(x, 5, 7) == [];
    assert ByteAt(x, 1) == 255;
    assert HexValue('f') == 15;
    HexNumberOne('f');
    ParseEmpty();
    ParseDigits(['f']);
    ReadByteAt(x, 1);
  }

  /** An empty string is `NaN`. */
  lemma ParseEmpty()
    ensures ParseInt16([]) == None
  {
    assert TrimStart([]) == [] && AfterSign([]) == [] && AfterHexPrefix([]) == [];
    assert HexPrefix([]) == [];
  }

  // ---------------------------------------------------------------------
  // getContrastColor
  // ---------------------------------------------------------------------

  /** `getContrastColor`: black on light colours, white on dark ones. Any
      `NaN` component makes the comparison false, hence white. */
  function ContrastColor(hexColor: seq<char>): (r: seq<char>)
    ensures r == "#000000" || r == "#FFFFFF"
    ensures var c := HexToRgb(hexColor);
      r == "#000000" <==>
        && c.r.Some? && c.g.Some? && c.b.Some?
        && (0.299 * c.r.value as real + 0.587 * c.g.value as real + 0.114 * c.b.value as real) / 255.0 > 0.5
  {
    var c := HexToRgb(hexColor);
    if c.r.Some? && c.g.Some? && c.b.Some?
       && 299 * c.r.value + 587 * c.g.value + 114 * c.b.value > 127500
    then "#000000"
    else "#FFFFFF"
  }

  // ---------------------------------------------------------------------
  // getColorFormat
  // ---------------------------------------------------------------------

  /** The pieces the colour-format regular expressions are made of. Every
      quantified part of those patterns is followed by something it cannot
      swallow, so matching them greedily is exact. */
  datatype Token =
    | Lit(text: seq<char>)  // the characters themselves
    | Spaces                // `\s*`
    | Number                // `\d{1,3}`
    | Alpha                 // `(0?\.\d+|1(\.0+)?|0)`
    | HexRun                // `(?:[0-9a-fA-F]{3,4}|[0-9a-fA-F]{6}|[0-9a-fA-F]{8})`

  /** The characters a repeated token is made of. */
  predicate InClass(t: Token, c: char) {
    match t
    case Lit(_) => false
    case Spaces => IsJsSpace(c)
    case Number => IsDigit(c)
    case Alpha => IsDigit(c) || c == '.'
    case HexRun => IsHexDigit(c)
  }

  predicate AllDigits(w: seq<char>) {
    forall i :: 0 <= i < |w| ==> IsDigit(w[i])
  }

  /** `0?\.\d+|1(\.0+)?|0`. */
  predicate IsAlphaText(w: seq<char>) {
    || w == "0" || w == "1"
    || (|w| >= 3 && w[..2] == "1." && forall i :: 2 <= i < |w| ==> w[i] == '0')
    || (|w| >= 2 && w[0] == '.' && AllDigits(w[1..]))
    || (|w| >= 3 && w[..2] == "0." && AllDigits(w[2..]))
  }

  /** Whether `w` is a whole piece for token `t`. */
  predicate Accepts(t: Token, w: seq<char>) {
    match t
    case Lit(text) => w == text
    case Spaces => forall i :: 0 <= i < |w| ==> IsJsSpace(w[i])
    case Number => 1 <= |w| <= 3 && AllDigits(w)
    case Alpha => IsAlphaText(w)
    case HexRun => (|w| == 3 || |w| == 4 || |w| == 6 || |w| == 8)
                   && forall i :: 0 <= i < |w| ==> IsHexDigit(w[i])
  }

  /** A piece of a repeated token consists of characters of its class. */
  lemma AcceptedInClass(t: Token, w: seq<char>, i: nat)
    requires !t.Lit? && Accepts(t, w) && i < |w|
    ensures InClass(t, w[i])
  {
    if t == Alpha && i >= 2 && |w| >= 3 && w[..2] == "0." {
      assert w[i] == w[2..][i - 2];
    } else if t == Alpha && i >= 1 && |w| >= 2 && w[0] == '.' {
      assert w[i] == w[1..][i - 1];
    } else if t == Alpha && |w| >= 3 && i < 2 {
      assert w[i] == w[..2][i];
    }
  }

  /** How many leading characters of `s` are in the class of `t`. */
  function RunLength(t: Token, s: seq<char>): (n: nat)
    ensures n <= |s|
    ensures forall i :: 0 <= i < n ==> InClass(t, s[i])
    ensures n < |s| ==> !InClass(t, s[n])
    decreases |s|
  {
    if |s| > 0 && InClass(t, s[0]) then 1 + RunLength(t, s[1..]) else 0
  }

  /** The pieces concatenated. */
  function Concat(pieces: seq<seq<char>>): (s: seq<char>)
    decreases |pieces|
  {
    if |pieces| == 0 then [] else pieces[0] + Concat(pieces[1..])
  }

  /** Greedy matching of a whole string against a token list: each token
      takes its literal text or its longest run of class characters, and the
      run must then be an acceptable piece. On success, the pieces found. */
  function Scan(toks: seq<Token>, s: seq<char>): (r: Option<seq<seq<char>>>)
    ensures r.Some? ==> |r.value| == |toks|
    decreases |toks|
  {
    if |toks| == 0 then
      if |s| == 0 then Some([]) else None
    else
      var n := Cut(toks[0], s);
      if n <= |s| && Accepts(toks[0], s[..n]) then
        match Scan(toks[1..], s[n..])
        case None => None
        case Some(rest) => Some([s[..n]] + rest)
      else None
  }

  /** How many characters the first token takes: all of a literal, or the
      longest run of its class. */
  function Cut(t: Token, s: seq<char>): nat {
    if t.Lit? then |t.text| else RunLength(t, s)
  }

  /** A successful scan takes an accepted first piece and scans the rest. */
  lemma ScanHead(toks: seq<Token>, s: seq<char>)
    requires |toks| > 0 && Matches(toks, s)
    ensures var n := Cut(toks[0], s);
      && n <= |s| && Accepts(toks[0], s[..n]) && Matches(toks[1..], s[n..])
      && Scan(toks, s).value == [s[..n]] + Scan(toks[1..], s[n..]).value
  {
  }

  /** A successful scan cuts the whole string into pieces, one per token,
      each accepted by its token. */
  lemma {:induction false} ScanSound(toks: seq<Token>, s: seq<char>)
    requires Matches(toks, s)
    ensures var p := Scan(toks, s).value;
      && Concat(p) == s
      && forall i :: 0 <= i < |toks| ==> Accepts(toks[i], p[i])
    decreases |toks|
  {
    if |toks| > 0 {
      var n := Cut(toks[0], s);
      ScanHead(toks, s);
      var rest := Scan(toks[1..], s[n..]).value;
      var p := Scan(toks, s).value;
      ScanSound(toks[1..], s[n..]);
      ConcatCons(s[..n], rest);
      assert s == s[..n] + s[n..];
      forall i | 1 <= i < |toks| ensures Accepts(toks[i], p[i]) {
        assert p[i] == rest[i - 1] && toks[i] == toks[1..][i - 1];
      }
    }
  }

  predicate Matches(toks: seq<Token>, s: seq<char>) {
    Scan(toks, s).Some?
  }

  /** A repeated token never runs into the piece after it: a literal that
      starts outside its class, or (after `\s*`) a number or an alpha. */
  predicate Follows(a: Token, b: Token) {
    || a.Lit?
    || (b.Lit? && |b.text| > 0 && !InClass(a, b.text[0]))
    || (a == Spaces && (b == Number || b == Alpha))
  }

  predicate WellSeparated(toks: seq<Token>) {
    forall i :: 0 <= i < |toks| - 1 ==> Follows(toks[i], toks[i + 1])
  }

  /** One token more: a piece the token accepts, in front of a string the
      remaining tokens match, is split off again as long as the token cannot
      run on into that string. */
  lemma ScanStep(toks: seq<Token>, w: seq<char>, rest: seq<char>)
    requires |toks| > 0 && Accepts(toks[0], w) && Matches(toks[1..], rest)
    requires !toks[0].Lit? && |rest| > 0 ==> !InClass(toks[0], rest[0])
    ensures Scan(toks, w + rest) == Some([w] + Scan(toks[1..], rest).value)
  {
    var s := w + rest;
    if !toks[0].Lit? {
      forall i | 0 <= i < |w| ensures InClass(toks[0], s[i]) {
        AcceptedInClass(toks[0], w, i);
      }
      RunLengthIs(toks[0], s, |w|);
    }
    assert s[..|w|] == w && s[|w|..] == rest;
  }

  /** The last token alone matches any piece it accepts. */
  lemma ScanLast(toks: seq<Token>, w: seq<char>)
    requires |toks| == 1 && Accepts(toks[0], w)
    ensures Scan(toks, w) == Some([w])
  {
    assert w + [] == w && [w] + [] == [w];
    assert Scan(toks[1..], []) == Some([]);
    ScanStep(toks, w, []);
  }

  lemma ConcatCons(x: seq<char>, rest: seq<seq<char>>)
    ensures Concat([x] + rest) == x + Concat(rest)
  {
    assert ([x] + rest)[1..] == rest;
  }

  /** Pieces of a well-separated token list, concatenated, are split back
      into the same pieces: with `ScanSound`, a string matches the
      pattern exactly when it is such a concatenation. */
  lemma {:induction false} ScanComplete(toks: seq<Token>, pieces: seq<seq<char>>)
    requires |pieces| == |toks| && WellSeparated(toks)
    requires forall i :: 0 <= i < |toks| ==> Accepts(toks[i], pieces[i])
    ensures Scan(toks, Concat(pieces)) == Some(pieces)
    decreases |toks|
  {
    if |toks| > 0 {
      ScanComplete(toks[1..], pieces[1..]);
      if |toks| > 1 && !toks[0].Lit? {
        NextPieceStarts(toks, pieces);
      }
      ScanStep(toks, pieces[0], Concat(pieces[1..]));
      assert [pieces[0]] + pieces[1..] == pieces;
    }
  }

  /** After a repeated token, the next piece is non-empty and starts with
      a character outside the token's class. */
  lemma NextPieceStarts(toks: seq<Token>, pieces: seq<seq<char>>)
    requires |pieces| == |toks| > 1 && !toks[0].Lit? && Follows(toks[0], toks[1])
    requires Accepts(toks[1], pieces[1])
    ensures |pieces[1]| > 0 && !InClass(toks[0], pieces[1][0])
    ensures Concat(pieces[1..])[0] == pieces[1][0]
  {
    if toks[1] == Alpha {
      assert pieces[1][0] == '0' || pieces[1][0] == '1' || pieces[1][0] == '.' by {
        if |pieces[1]| >= 3 { assert pieces[1][0] == pieces[1][..2][0]; }
      }
    }
    assert Concat(pieces[1..]) == pieces[1] + Concat(pieces[2..]) by {
      assert pieces[1..][1..] == pieces[2..];
    }
  }

  /** A run of exactly `m` class characters that ends the string or is
      followed by a character outside the class has length `m`. */
  lemma RunLengthIs(t: Token, s: seq<char>, m: nat)
    requires m <= |s| && forall i :: 0 <= i < m ==> InClass(t, s[i])
    requires m < |s| ==> !InClass(t, s[m])
    ensures RunLength(t, s) == m
  {
  }

  const HexPattern: seq<Token> := [Lit("#"), HexRun]
  const RgbPattern: seq<Token> :=
    [Lit("rgb("), Number, Lit(","), Spaces, Number, Lit(","), Spaces, Number, Lit(")")]
  const RgbaPattern: seq<Token> :=
    [Lit("rgba("), Number, Lit(","), Spaces, Number, Lit(","), Spaces, Number,
     Lit(","), Spaces, Alpha, Lit(")")]
  const HslPattern: seq<Token> :=
    [Lit("hsl("), Number, Lit(","), Spaces, Number, Lit("%"), Spaces, Lit(","),
     Spaces, Number, Lit("%)")]
  const HslaPattern: seq<Token> :=
    [Lit("hsla("), Number, Lit(","), Spaces, Number, Lit("%"), Spaces, Lit(","),
     Spaces, Number, Lit("%"), Spaces, Lit(","), Spaces, Alpha, Lit(")")]

  datatype ColorFormat = Hex | RgbFormat | Hsl | Invalid

  /** The string the patterns are tested on: trimmed, then lower-cased. It
      holds no upper-case letter and neither starts nor ends with white
      space. */
  function Clean(color: seq<char>): (r: seq<char>)
    ensures |r| == |Trim(color)|
    ensures forall i :: 0 <= i < |r| ==> !('A' <= r[i] <= 'Z')
    ensures |r| > 0 ==> !IsJsSpace(r[0]) && !IsJsSpace(r[|r| - 1])
  {
    var t := Trim(color);
    if |t| == 0 then []
    else
      LowerSpace(t[0]);
      LowerSpace(t[|t| - 1]);
      Lower(t)
  }

  /** Cleaning a cleaned string changes nothing. */
  lemma CleanIdempotent(color: seq<char>)
    ensures Clean(Clean(color)) == Clean(color)
  {
    var c := Clean(color);
    if |c| > 0 {
      CleanIdentity(c);
    } else {
      assert TrimStart(c) == [] && TrimEnd([]) == [];
    }
  }

  /** `getColorFormat`: the first of hex, rgb/rgba, hsl/hsla whose pattern
      the cleaned string matches, or invalid. */
  function GetColorFormat(color: seq<char>): (f: ColorFormat)
    ensures f == Invalid <==>
      !Matches(HexPattern, Clean(color))
      && !Matches(RgbPattern, Clean(color)) && !Matches(RgbaPattern, Clean(color))
      && !Matches(HslPattern, Clean(color)) && !Matches(HslaPattern, Clean(color))
  {
    var c := Clean(color);
    if Matches(HexPattern, c) then Hex
    else if Matches(RgbPattern, c) || Matches(RgbaPattern, c) then RgbFormat
    else if Matches(HslPattern, c) || Matches(HslaPattern, c) then Hsl
    else Invalid
  }

  /** `#` followed by 3, 4, 6 or 8 hexadecimal digits. */
  predicate IsHexColor(c: seq<char>) {
    && (|c| == 4 || |c| == 5 || |c| == 7 || |c| == 9) && c[0] == '#'
    && forall i :: 1 <= i < |c| ==> IsHexDigit(c[i])
  }

  /** A string matches the hex pattern exactly when it is `#` and 3, 4, 6
      or 8 hexadecimal digits. */
  lemma HexPatternExactly(c: seq<char>)
    ensures Matches(HexPattern, c) <==> IsHexColor(c)
  {
    if Matches(HexPattern, c) {
      var p := Scan(HexPattern, c).value;
      ScanSound(HexPattern, c);
      assert p == [p[0]] + ([p[1]] + []);
      ConcatCons(p[0], [p[1]] + []);
      ConcatCons(p[1], []);
      assert c == "#" + p[1];
      assert forall i :: 1 <= i < |c| ==> c[i] == p[1][i - 1];
    }
    if IsHexColor(c) {
      var digits := c[1..];
      assert Accepts(HexRun, digits) by {
        assert forall i :: 0 <= i < |digits| ==> digits[i] == c[i + 1];
      }
      ScanLast(HexPattern[1..], digits);
      ScanStep(HexPattern, "#", digits);
      assert c == "#" + digits;
    }
  }

  /** A colour is classified as hex exactly when, cleaned, it is `#` and 3,
      4, 6 or 8 hexadecimal digits; so 5 or 7 digits never are. */
  lemma HexFormatExactly(color: seq<char>)
    ensures GetColorFormat(color) == Hex <==> IsHexColor(Clean(color))
    ensures |Clean(color)| == 6 || |Clean(color)| == 8 ==> GetColorFormat(color) != Hex
  {
    HexPatternExactly(Clean(color));
  }

  /** Surrounding white space and upper case make no difference. */
  lemma FormatIgnoresSpaceAndCase(color: seq<char>, before: seq<char>, after: seq<char>)
    requires forall i :: 0 <= i < |before| ==> IsJsSpace(before[i])
    requires forall i :: 0 <= i < |after| ==> IsJsSpace(after[i])
    ensures GetColorFormat(before + color + after) == GetColorFormat(color)
    ensures GetColorFormat(Lower(color)) == GetColorFormat(color)
  {
    TrimSurrounded(color, before, after);
    TrimLower(color);
    LowerTwice(Trim(color));
  }

  /** Trimming ignores extra white space around the string. */
  lemma TrimSurrounded(s: seq<char>, before: seq<char>, after: seq<char>)
    requires forall i :: 0 <= i < |before| ==> IsJsSpace(before[i])
    requires forall i :: 0 <= i < |after| ==> IsJsSpace(after[i])
    ensures Trim(before + s + after) == Trim(s)
  {
    var x := before + s + after;
    var b := TrimStart(s);
    TrimStartSpec(s);
    if |b| == 0 {
      forall i | 0 <= i < |x| ensures IsJsSpace(x[i]) {
        if |before| <= i < |before| + |s| {
          assert x[i] == s[i - |before|];
        } else if i >= |before| + |s| {
          assert x[i] == after[i - |before| - |s|];
        }
      }
      TrimStartFrom(x, 0);
    } else {
      TrimStartSurrounded(s, before, after);
      TrimEndSpaces(b, after);
    }
  }

  /** Trailing white space added to a string is trimmed away again. */
  lemma TrimEndSpaces(b: seq<char>, after: seq<char>)
    requires forall i :: 0 <= i < |after| ==> IsJsSpace(after[i])
    ensures TrimEnd(b + after) == TrimEnd(b)
  {
    var d := TrimEnd(b);
    var y := b + after;
    TrimEndSpec(b);
    forall i | |d| <= i < |y| ensures IsJsSpace(y[i]) {
      if i >= |b| {
        assert y[i] == after[i - |b|];
      }
    }
    if |d| > 0 {
      assert y[|d| - 1] == d[|d| - 1];
    }
    TrimEndFrom(y, |d|);
    assert y[..|d|] == d;
  }

  /** With something left after trimming `s`, trimming the start of
      `before + s + after` leaves that and `after`. */
  lemma TrimStartSurrounded(s: seq<char>, before: seq<char>, after: seq<char>)
    requires forall i :: 0 <= i < |before| ==> IsJsSpace(before[i])
    requires |TrimStart(s)| > 0
    ensures TrimStart(before + s + after) == TrimStart(s) + after
  {
    var x := before + s + after;
    var b := TrimStart(s);
    var k := |b| + |after|;
    TrimStartSpec(s);
    forall i | 0 <= i < |x| - k ensures IsJsSpace(x[i]) {
      if i >= |before| {
        assert x[i] == s[i - |before|];
      }
    }
    assert x[|x| - k] == b[0];
    TrimStartFrom(x, k);
    SuffixOfSurrounded(before, s, after, |s| - |b|);
  }

  lemma SuffixOfSurrounded(before: seq<char>, s: seq<char>, after: seq<char>, j: nat)
    requires j <= |s|
    ensures (before + s + after)[|before| + j..] == s[j..] + after
  {
  }

  /** The only `TrimStart` cut: `k` leading white-space characters followed
      by a non-white-space one (or nothing). */
  lemma {:induction false} TrimStartFrom(s: seq<char>, k: nat)
    requires k <= |s| && forall i :: 0 <= i < |s| - k ==> IsJsSpace(s[i])
    requires k > 0 ==> !IsJsSpace(s[|s| - k])
    ensures TrimStart(s) == s[|s| - k..]
    decreases |s|
  {
    if |s| > k {
      assert IsJsSpace(s[0]);
      var t := s[1..];
      forall i | 0 <= i < |t| - k ensures IsJsSpace(t[i]) {
        assert t[i] == s[i + 1];
      }
      if k > 0 {
        assert t[|t| - k] == s[|s| - k];
      }
      TrimStartFrom(t, k);
      assert t[|t| - k..] == s[|s| - k..];
    } else if |s| > 0 {
      assert s[0] == s[|s| - k];
    }
  }

  /** The only `TrimEnd` cut: everything from `k` on is white space and the
      character before it (if any) is not. */
  lemma {:induction false} TrimEndFrom(s: seq<char>, k: nat)
    requires k <= |s| && forall i :: k <= i < |s| ==> IsJsSpace(s[i])
    requires k > 0 ==> !IsJsSpace(s[k - 1])
    ensures TrimEnd(s) == s[..k]
    decreases |s|
  {
    if |s| > k {
      assert IsJsSpace(s[|s| - 1]);
      var t := s[..|s| - 1];
      forall i | k <= i < |t| ensures IsJsSpace(t[i]) {
        assert t[i] == s[i];
      }
      if k > 0 {
        assert t[k - 1] == s[k - 1];
      }
      TrimEndFrom(t, k);
      assert t[..k] == s[..k];
    } else if |s| > 0 {
      assert s[|s| - 1] == s[k - 1];
    }
  }

  /** Lower-casing turns no character into white space and no white space
      into anything else. */
  lemma LowerSpace(c: char)
    ensures IsJsSpace(LowerChar(c)) <==> IsJsSpace(c)
  {
    if 'A' <= c <= 'Z' {
      assert 'a' <= LowerChar(c) <= 'z';
    }
  }

  /** Lower-casing changes no white space, so it commutes with trimming. */
  lemma TrimLower(s: seq<char>)
    ensures Trim(Lower(s)) == Lower(Trim(s))
  {
    var b := TrimStart(s);
    TrimStartLower(s);
    TrimEndLower(b);
  }

  lemma TrimStartLower(s: seq<char>)
    ensures TrimStart(Lower(s)) == Lower(TrimStart(s))
  {
    var b, l := TrimStart(s), Lower(s);
    var k := |b|;
    TrimStartSpec(s);
    forall i | 0 <= i < |s| - k ensures IsJsSpace(l[i]) {
      LowerSpace(s[i]);
    }
    if k > 0 {
      LowerSpace(s[|s| - k]);
      assert s[|s| - k] == b[0];
    }
    TrimStartFrom(l, k);
    assert l[|s| - k..] == Lower(b);
  }

  lemma TrimEndLower(s: seq<char>)
    ensures TrimEnd(Lower(s)) == Lower(TrimEnd(s))
  {
    var d, l := TrimEnd(s), Lower(s);
    var k := |d|;
    TrimEndSpec(s);
    forall i | k <= i < |s| ensures IsJsSpace(l[i]) {
      LowerSpace(s[i]);
    }
    if k > 0 {
      LowerSpace(s[k - 1]);
      assert s[k - 1] == d[k - 1];
    }
    TrimEndFrom(l, k);
    assert l[..k] == Lower(d);
  }

  lemma LowerTwice(s: seq<char>)
    ensures Lower(Lower(s)) == Lower(s)
  {
  }

  /** A string with no leading or trailing white space and no upper-case
      letter is its own cleaned form. */
  lemma CleanIdentity(x: seq<char>)
    requires |x| > 0 && !IsJsSpace(x[0]) && !IsJsSpace(x[|x| - 1])
    requires forall i :: 0 <= i < |x| ==> !('A' <= x[i] <= 'Z')
    ensures Clean(x) == x
  {
    TrimStartFrom(x, |x|);
    TrimEndFrom(x, |x|);
  }

  /** `rgb(` with three 1-3 digit numbers, separated by commas that may be
      followed by white space, and `)` is classified as RGB. */
  lemma RgbClassified(a: seq<char>, b: seq<char>, c: seq<char>, s1: seq<char>, s2: seq<char>)
    requires Accepts(Number, a) && Accepts(Number, b) && Accepts(Number, c)
    requires Accepts(Spaces, s1) && Accepts(Spaces, s2)
    ensures GetColorFormat("rgb(" + (a + ("," + (s1 + (b + ("," + (s2 + (c + ")")))))))) == RgbFormat
  {
    var x := "rgb(" + (a + ("," + (s1 + (b + ("," + (s2 + (c + ")")))))));
    var p := ["rgb(", a, ",", s1, b, ",", s2, c, ")"];
    ConcatNine(p);
    RgbPieces(a, b, c, s1, s2);
    RgbPatternSeparated();
    ScanComplete(RgbPattern, p);
    NoUpperInRgb(a, b, c, s1, s2);
    assert x[0] == 'r';
    ClassifiedAsRgb(x);
  }

  /** A clean string that starts with `r` and matches the rgb pattern is
      classified as RGB. */
  lemma ClassifiedAsRgb(x: seq<char>)
    requires |x| > 0 && x[0] == 'r' && x[|x| - 1] == ')'
    requires forall i :: 0 <= i < |x| ==> !('A' <= x[i] <= 'Z')
    requires Matches(RgbPattern, x)
    ensures GetColorFormat(x) == RgbFormat
  {
    CleanIdentity(x);
    HexPatternExactly(x);
  }

  lemma RgbPatternSeparated()
    ensures WellSeparated(RgbPattern)
  {
    var t := RgbPattern;
    assert Follows(t[0], t[1]) && Follows(t[1], t[2]) && Follows(t[2], t[3]) && Follows(t[3], t[4]);
    assert Follows(t[4], t[5]) && Follows(t[5], t[6]) && Follows(t[6], t[7]) && Follows(t[7], t[8]);
  }

  /** The other four colour patterns are well separated too. */
  lemma PatternsSeparated()
    ensures WellSeparated(HexPattern) && WellSeparated(RgbaPattern)
    ensures WellSeparated(HslPattern) && WellSeparated(HslaPattern)
  {
    var t := RgbaPattern;
    assert Follows(t[0], t[1]) && Follows(t[1], t[2]) && Follows(t[2], t[3]) && Follows(t[3], t[4]);
    assert Follows(t[4], t[5]) && Follows(t[5], t[6]) && Follows(t[6], t[7]) && Follows(t[7], t[8]);
    assert Follows(t[8], t[9]) && Follows(t[9], t[10]) && Follows(t[10], t[11]);
    t := HslPattern;
    assert Follows(t[0], t[1]) && Follows(t[1], t[2]) && Follows(t[2], t[3]) && Follows(t[3], t[4]);
    assert Follows(t[4], t[5]) && Follows(t[5], t[6]) && Follows(t[6], t[7]) && Follows(t[7], t[8]);
    assert Follows(t[8], t[9]) && Follows(t[9], t[10]);
    t := HslaPattern;
    assert Follows(t[0], t[1]) && Follows(t[1], t[2]) && Follows(t[2], t[3]) && Follows(t[3], t[4]);
    assert Follows(t[4], t[5]) && Follows(t[5], t[6]) && Follows(t[6], t[7]) && Follows(t[7], t[8]);
    assert Follows(t[8], t[9]) && Follows(t[9], t[10]) && Follows(t[10], t[11]) && Follows(t[11], t[12]);
    assert Follows(t[12], t[13]) && Follows(t[13], t[14]) && Follows(t[14], t[15]);
  }

  /** Each colour pattern matches every text made of pieces its tokens
      accept, and the matcher finds those pieces again: the greedy matcher
      loses nothing the regular expressions match. */
  lemma FormatPatternComplete(toks: seq<Token>, pieces: seq<seq<char>>)
    requires toks == HexPattern || toks == RgbPattern || toks == RgbaPattern
          || toks == HslPattern || toks == HslaPattern
    requires |pieces| == |toks| && forall i :: 0 <= i < |toks| ==> Accepts(toks[i], pieces[i])
    ensures Matches(toks, Concat(pieces)) && Scan(toks, Concat(pieces)) == Some(pieces)
  {
    RgbPatternSeparated();
    PatternsSeparated();
    ScanComplete(toks, pieces);
  }

  /** A clean string that starts with `r` and matches the rgba pattern is
      classified as RGB. */
  lemma ClassifiedAsRgba(x: seq<char>)
    requires |x| > 0 && x[0] == 'r' && x[|x| - 1] == ')'
    requires forall i :: 0 <= i < |x| ==> !('A' <= x[i] <= 'Z')
    requires Matches(RgbaPattern, x)
    ensures GetColorFormat(x) == RgbFormat
  {
    CleanIdentity(x);
    HexPatternExactly(x);
  }

  /** A clean string that starts with `h` and matches the hsl or the hsla
      pattern is classified as HSL. */
  lemma ClassifiedAsHsl(x: seq<char>)
    requires |x| > 0 && x[0] == 'h' && x[|x| - 1] == ')'
    requires forall i :: 0 <= i < |x| ==> !('A' <= x[i] <= 'Z')
    requires Matches(HslPattern, x) || Matches(HslaPattern, x)
    ensures GetColorFormat(x) == Hsl
  {
    CleanIdentity(x);
    HexPatternExactly(x);
    LiteralMismatch(RgbPattern, x);
    LiteralMismatch(RgbaPattern, x);
  }

  /** A pattern that opens with a literal never matches a string whose first
      character differs from the literal's. */
  lemma LiteralMismatch(toks: seq<Token>, x: seq<char>)
    requires |toks| > 0 && toks[0].Lit? && |toks[0].text| > 0
    requires |x| > 0 && x[0] != toks[0].text[0]
    ensures !Matches(toks, x)
  {
    var n := |toks[0].text|;
    if n <= |x| {
      assert x[..n][0] == x[0];
    }
  }

  lemma RgbPieces(a: seq<char>, b: seq<char>, c: seq<char>, s1: seq<char>, s2: seq<char>)
    requires Accepts(Number, a) && Accepts(Number, b) && Accepts(Number, c)
    requires Accepts(Spaces, s1) && Accepts(Spaces, s2)
    ensures var p := ["rgb(", a, ",", s1, b, ",", s2, c, ")"];
      |p| == |RgbPattern| && forall i :: 0 <= i < |p| ==> Accepts(RgbPattern[i], p[i])
  {
  }

  lemma ConcatStep(p: seq<seq<char>>, k: nat)
    requires k < |p|
    ensures Concat(p[k..]) == p[k] + Concat(p[k + 1..])
  {
    assert p[k..][1..] == p[k + 1..];
  }

  lemma ConcatNine(p: seq<seq<char>>)
    requires |p| == 9
    ensures Concat(p) == p[0] + (p[1] + (p[2] + (p[3] + (p[4] + (p[5] + (p[6] + (p[7] + p[8])))))))
  {
    assert Concat(p[9..]) == [];
    ConcatStep(p, 8);
    ConcatStep(p, 7);
    ConcatStep(p, 6);
    ConcatStep(p, 5);
    ConcatStep(p, 4);
    ConcatStep(p, 3);
    ConcatStep(p, 2);
    ConcatStep(p, 1);
    ConcatStep(p, 0);
    assert p[0..] == p;
    assert p[8] + [] == p[8];
  }

  lemma NoUpperInRgb(a: seq<char>, b: seq<char>, c: seq<char>, s1: seq<char>, s2: seq<char>)
    requires Accepts(Number, a) && Accepts(Number, b) && Accepts(Number, c)
    requires Accepts(Spaces, s1) && Accepts(Spaces, s2)
    ensures var x := "rgb(" + (a + ("," + (s1 + (b + ("," + (s2 + (c + ")")))))));
      x[|x| - 1] == ')' && forall i :: 0 <= i < |x| ==> !('A' <= x[i] <= 'Z')
  {
    var x := "rgb(" + (a + ("," + (s1 + (b + ("," + (s2 + (c + ")")))))));
    assert forall i :: 0 <= i < |x| ==> !('A' <= x[i] <= 'Z');
  }
}
