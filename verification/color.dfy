/** The colour ramp: palette hex strings, channel interpolation with truncation, and the
    two-piece brightness-to-colour map of the half-block renderer. */
module Color {
  import opened Wrappers
  import opened Strings

  /** An RGB triple; channels are Python ints, so nothing bounds them by type. */
  datatype Rgb = Rgb(r: int, g: int, b: int)

  predicate IsChannel(x: int) {
    0 <= x <= 255
  }

  predicate ValidRgb(c: Rgb) {
    IsChannel(c.r) && IsChannel(c.g) && IsChannel(c.b)
  }

  // ---------------------------------------------------------------------------
  // hex_to_rgb
  // ---------------------------------------------------------------------------

  /** The value of one hexadecimal digit, either case, as `int(c, 16)` reads it. */
  function HexDigitValue(c: char): (v: Option<nat>)
    ensures v.Some? ==> v.value < 16
  {
    if '0' <= c <= '9' then Some(c as int - '0' as int)
    else if 'a' <= c <= 'f' then Some(c as int - 'a' as int + 10)
    else if 'A' <= c <= 'F' then Some(c as int - 'A' as int + 10)
    else None
  }

  predicate IsHexDigit(c: char) {
    HexDigitValue(c).Some?
  }

  predicate AllHex(s: string) {
    forall i :: 0 <= i < |s| ==> IsHexDigit(s[i])
  }

  /** `int(s, 16)` on a string of hex digits; `None` (a `ValueError`) when `s` is empty
      or holds anything else. */
  function ParseHex(s: string): (v: Option<nat>)
    ensures v.Some? <==> |s| > 0 && AllHex(s)
    ensures |s| == 1 && v.Some? ==> v.value < 16
    ensures |s| == 2 && v.Some? ==> v.value <= 255
    ensures |s| == 1 ==> v == HexDigitValue(s[0])
    ensures |s| == 2 && AllHex(s) ==> v == Some(Byte(s[0], s[1]))
  {
    if |s| == 0 then None
    else if |s| == 1 then HexDigitValue(s[0])
    else
      match (ParseHex(s[..|s| - 1]), HexDigitValue(s[|s| - 1]))
      case (Some(hi), Some(lo)) => Some(hi * 16 + lo)
      case _ => None
  }

  /** `hex_to_rgb`: strip every leading `#`, then read the slices `[0:2]`, `[2:4]` and
      `[4:6]` as hexadecimal; any slice that is empty or not hex raises. */
  function HexToRgb(hex: string): (c: Option<Rgb>)
    ensures c.Some? ==> ValidRgb(c.value)
    ensures var t := LStrip(hex, '#');
      c.Some? <==> |t| >= 5 && AllHex(t[..if |t| < 6 then |t| else 6])
  {
    HexFields(LStrip(hex, '#'))
  }

  /** The three two-character fields of a `#`-stripped entry. */
  function HexFields(t: string): (c: Option<Rgb>)
    ensures c.Some? ==> ValidRgb(c.value)
    ensures c.Some? <==> |t| >= 5 && AllHex(t[..if |t| < 6 then |t| else 6])
  {
    FieldsCoverPrefix(t);
    match (ParseHex(Slice(t, 0, 2)), ParseHex(Slice(t, 2, 4)), ParseHex(Slice(t, 4, 6)))
    case (Some(r), Some(g), Some(b)) => Some(Rgb(r, g, b))
    case _ => None
  }

  /** The three fields all parse exactly when the first six characters (at least five of
      them) are hex digits. */
  lemma FieldsCoverPrefix(t: string)
    ensures (ParseHex(Slice(t, 0, 2)).Some? && ParseHex(Slice(t, 2, 4)).Some?
             && ParseHex(Slice(t, 4, 6)).Some?)
        <==> |t| >= 5 && AllHex(t[..if |t| < 6 then |t| else 6])
  {
    var f0, f1, f2 := Slice(t, 0, 2), Slice(t, 2, 4), Slice(t, 4, 6);
    if |t| >= 5 {
      var m := if |t| < 6 then |t| else 6;
      var p := t[..m];
      assert p == f0 + f1 + f2;
      if AllHex(f0) && AllHex(f1) && AllHex(f2) {
        forall i | 0 <= i < |p| ensures IsHexDigit(p[i]) {
          if i < 2 { assert p[i] == f0[i]; }
          else if i < 4 { assert p[i] == f1[i - 2]; }
          else { assert p[i] == f2[i - 4]; }
        }
      }
      if AllHex(p) {
        assert forall i :: 0 <= i < |f0| ==> f0[i] == p[i];
        assert forall i :: 0 <= i < |f1| ==> f1[i] == p[i + 2];
        assert forall i :: 0 <= i < |f2| ==> f2[i] == p[i + 4];
      }
    }
  }

  /** A two-digit field reads as 16*hi + lo. */
  lemma ParseTwoDigits(s: string)
    requires |s| == 2 && AllHex(s)
    ensures ParseHex(s) == Some(Byte(s[0], s[1]))
  {
    assert s[..1] == [s[0]];
  }

  /** The lower-case digit for a value below 16. */
  function HexDigitChar(d: nat): (c: char)
    requires d < 16
    ensures HexDigitValue(c) == Some(d)
  {
    if d < 10 then ('0' as int + d) as char else ('a' as int + d - 10) as char
  }

  /** Reference encoder (the inverse direction): `#rrggbb` in lower case. */
  function RgbToHex(c: Rgb): (h: string)
    requires ValidRgb(c)
    ensures |h| == 7 && h[0] == '#'
  {
    "#" + [HexDigitChar(c.r / 16), HexDigitChar(c.r % 16),
           HexDigitChar(c.g / 16), HexDigitChar(c.g % 16),
           HexDigitChar(c.b / 16), HexDigitChar(c.b % 16)]
  }

  /** A hex digit in its lower-case spelling. */
  function LowerHexDigit(c: char): char
    requires IsHexDigit(c)
  {
    HexDigitChar(HexDigitValue(c).value)
  }

  /** The value of the two-digit field `hi lo`. */
  function Byte(hi: char, lo: char): nat
    requires IsHexDigit(hi) && IsHexDigit(lo)
  {
    16 * HexDigitValue(hi).value + HexDigitValue(lo).value
  }

  /** A six-digit palette entry yields each channel as 16*hi + lo of its digit pair,
      with or without the leading `#`. */
  lemma SixDigitHex(h: string)
    requires |h| == 6 && AllHex(h)
    ensures HexToRgb(h) == Some(Rgb(Byte(h[0], h[1]), Byte(h[2], h[3]), Byte(h[4], h[5])))
    ensures HexToRgb("#" + h) == HexToRgb(h)
  {
    StripDigits(h);
    ThreeFields(h);
  }

  /** Stripping `#` from a string of hex digits, with or without one `#` before it. */
  lemma StripDigits(h: string)
    requires |h| > 0 && AllHex(h)
    ensures LStrip(h, '#') == h && LStrip("#" + h, '#') == h
  {
    assert h[0] != '#' by { assert IsHexDigit(h[0]); }
    KeptByStrip(h);
    HashStripped(h);
  }

  /** A string that does not start with `#` is left alone by stripping. */
  lemma KeptByStrip(s: string)
    requires |s| > 0 && s[0] != '#'
    ensures LStrip(s, '#') == s
  {
  }

  /** One more leading `#` is stripped as well. */
  lemma HashStripped(s: string)
    ensures LStrip("#" + s, '#') == LStrip(s, '#')
  {
    assert ("#" + s)[1..] == s;
  }

  /** The three fields of a six-digit string. */
  lemma ThreeFields(h: string)
    requires |h| == 6 && AllHex(h)
    ensures ParseHex(Slice(h, 0, 2)) == Some(Byte(h[0], h[1]))
    ensures ParseHex(Slice(h, 2, 4)) == Some(Byte(h[2], h[3]))
    ensures ParseHex(Slice(h, 4, 6)) == Some(Byte(h[4], h[5]))
  {
    ParseTwoDigits(Slice(h, 0, 2));
    ParseTwoDigits(Slice(h, 2, 4));
    ParseTwoDigits(Slice(h, 4, 6));
  }

  /** The channel values of any entry that parses: after the leading `#` characters,
      each channel is the two-digit field at its offset, except that a five-digit entry's
      blue channel is its single fifth digit; characters past the sixth play no part. */
  lemma HexValues(hex: string)
    requires HexToRgb(hex).Some?
    ensures var t := LStrip(hex, '#');
      && |t| >= 5
      && IsHexDigit(t[0]) && IsHexDigit(t[1]) && IsHexDigit(t[2]) && IsHexDigit(t[3])
      && IsHexDigit(t[4]) && (|t| >= 6 ==> IsHexDigit(t[5]))
      && HexToRgb(hex).value == Rgb(Byte(t[0], t[1]), Byte(t[2], t[3]),
           if |t| == 5 then HexDigitValue(t[4]).value else Byte(t[4], t[5]))
  {
    FieldValues(LStrip(hex, '#'));
  }

  /** The values of the three fields of a `#`-stripped entry that parses. */
  lemma FieldValues(t: string)
    requires HexFields(t).Some?
    ensures && |t| >= 5
      && IsHexDigit(t[0]) && IsHexDigit(t[1]) && IsHexDigit(t[2]) && IsHexDigit(t[3])
      && IsHexDigit(t[4]) && (|t| >= 6 ==> IsHexDigit(t[5]))
      && HexFields(t).value == Rgb(Byte(t[0], t[1]), Byte(t[2], t[3]),
           if |t| == 5 then HexDigitValue(t[4]).value else Byte(t[4], t[5]))
  {
    var m := if |t| < 6 then |t| else 6;
    var p := t[..m];
    assert forall i :: 0 <= i < m ==> p[i] == t[i];
    assert IsHexDigit(p[0]) && IsHexDigit(p[1]) && IsHexDigit(p[2]) && IsHexDigit(p[3]) && IsHexDigit(p[4]);
    ParseTwoDigits(Slice(t, 0, 2));
    ParseTwoDigits(Slice(t, 2, 4));
    if |t| == 5 {
      assert Slice(t, 4, 6) == [t[4]];
    } else {
      assert IsHexDigit(p[5]);
      ParseTwoDigits(Slice(t, 4, 6));
    }
  }

  /** Leading `#` characters never change the result. */
  lemma HashIgnored(s: string)
    ensures HexToRgb("#" + s) == HexToRgb(s)
  {
    HashStripped(s);
  }

  /** Parsing the reference encoding gives the colour back. */
  lemma HexRoundTrip(c: Rgb)
    requires ValidRgb(c)
    ensures HexToRgb(RgbToHex(c)) == Some(c)
  {
    var h := RgbToHex(c);
    var t := h[1..];
    assert AllHex(t);
    assert Byte(t[0], t[1]) == c.r;
    assert Byte(t[2], t[3]) == c.g;
    assert Byte(t[4], t[5]) == c.b;
    assert h == "#" + t;
    SixDigitHex(t);
  }

  /** Encoding a parsed six-digit entry gives back its lower-case spelling. */
  lemma HexNormalises(h: string)
    requires |h| == 6 && AllHex(h)
    ensures HexToRgb(h).Some?
    ensures RgbToHex(HexToRgb(h).value)
         == "#" + seq(6, i requires 0 <= i < 6 => LowerHexDigit(h[i]))
  {
    SixDigitHex(h);
    LowerSpelling(h);
  }

  /** The reference encoding of the three fields of `h`, digit by digit. */
  lemma LowerSpelling(h: string)
    requires |h| == 6 && AllHex(h)
    ensures RgbToHex(Rgb(Byte(h[0], h[1]), Byte(h[2], h[3]), Byte(h[4], h[5])))
         == "#" + seq(6, i requires 0 <= i < 6 => LowerHexDigit(h[i]))
  {
    ByteDigits(h[0], h[1]);
    ByteDigits(h[2], h[3]);
    ByteDigits(h[4], h[5]);
    SpellOut(h);
  }

  lemma SpellOut(h: string)
    requires |h| == 6 && AllHex(h)
    ensures seq(6, i requires 0 <= i < 6 => LowerHexDigit(h[i]))
         == [LowerHexDigit(h[0]), LowerHexDigit(h[1]), LowerHexDigit(h[2]),
             LowerHexDigit(h[3]), LowerHexDigit(h[4]), LowerHexDigit(h[5])]
  {
  }

  /** Splitting a two-digit field's value recovers its digits in lower case. */
  lemma ByteDigits(hi: char, lo: char)
    requires IsHexDigit(hi) && IsHexDigit(lo)
    ensures HexDigitChar(Byte(hi, lo) / 16) == LowerHexDigit(hi)
    ensures HexDigitChar(Byte(hi, lo) % 16) == LowerHexDigit(lo)
  {
  }

  // ---------------------------------------------------------------------------
  // lerp_color
  // ---------------------------------------------------------------------------

  /** Python's `int()` on a float: truncation toward zero. */
  function Trunc(x: real): (n: int)
    ensures 0.0 <= x ==> n as real <= x < n as real + 1.0
    ensures x < 0.0 ==> n as real - 1.0 < x <= n as real
  {
    if x >= 0.0 then x.Floor else -((-x).Floor)
  }

  predicate Between(x: int, a: int, b: int) {
    (a <= x <= b) || (b <= x <= a)
  }

  /** One channel of `lerp_color`: `int(a + (b - a) * t)`. */
  function LerpChannel(a: int, b: int, t: real): (x: int)
    ensures a == b ==> x == a
    ensures t == 0.0 ==> x == a
    ensures t == 1.0 ==> x == b
    ensures 0.0 <= t <= 1.0 ==> Between(x, a, b)
  {
    var v := a as real + (b - a) as real * t;
    ScaledBetween(a, b, t);
    Trunc(v)
  }

  /** The real interpolant lies between its endpoints for `t` in [0, 1]. */
  lemma ScaledBetween(a: int, b: int, t: real)
    ensures 0.0 <= t <= 1.0 ==>
      var v := a as real + (b - a) as real * t;
      (a <= b ==> a as real <= v <= b as real) && (b <= a ==> b as real <= v <= a as real)
  {
    if 0.0 <= t <= 1.0 {
      var d := (b - a) as real;
      if a <= b {
        assert 0.0 <= d * t <= d * 1.0;
      } else {
        assert d * 1.0 <= d * t <= 0.0;
      }
    }
  }

  predicate RgbBetween(c: Rgb, c1: Rgb, c2: Rgb) {
    Between(c.r, c1.r, c2.r) && Between(c.g, c1.g, c2.g) && Between(c.b, c1.b, c2.b)
  }

  /** `lerp_color(c1, c2, t)`: each channel interpolated and truncated. */
  function Lerp(c1: Rgb, c2: Rgb, t: real): (c: Rgb)
    ensures c1 == c2 ==> c == c1
    ensures t == 0.0 ==> c == c1
    ensures t == 1.0 ==> c == c2
    ensures 0.0 <= t <= 1.0 && ValidRgb(c1) && ValidRgb(c2) ==> RgbBetween(c, c1, c2) && ValidRgb(c)
  {
    Rgb(LerpChannel(c1.r, c2.r, t), LerpChannel(c1.g, c2.g, t), LerpChannel(c1.b, c2.b, t))
  }

  // ---------------------------------------------------------------------------
  // brightness and get_color
  // ---------------------------------------------------------------------------

  /** A subject's three colour stops. */
  datatype Ramp = Ramp(dark: Rgb, main: Rgb, bright: Rgb)

  predicate ValidRamp(p: Ramp) {
    ValidRgb(p.dark) && ValidRgb(p.main) && ValidRgb(p.bright)
  }

  /** Brightness below this interpolates dark to main, at or above it main to bright. */
  const Knee: real := 0.3

  /** `(r + g + b) / (255 * 3)`. */
  function Brightness(c: Rgb): (v: real)
    ensures ValidRgb(c) ==> 0.0 <= v <= 1.0
    ensures ValidRgb(c) ==> (v == 1.0 <==> c == Rgb(255, 255, 255))
    ensures ValidRgb(c) ==> (v == 0.0 <==> c == Rgb(0, 0, 0))
  {
    (c.r + c.g + c.b) as real / 765.0
  }

  /** The nested `get_color`: a two-piece ramp through the main colour. */
  function GetColor(p: Ramp, brightness: real): (c: Rgb)
    ensures brightness == 0.0 ==> c == p.dark
    ensures brightness == Knee ==> c == p.main
    ensures brightness == 1.0 ==> c == p.bright
    ensures ValidRamp(p) && 0.0 <= brightness < Knee ==> RgbBetween(c, p.dark, p.main)
    ensures ValidRamp(p) && Knee <= brightness <= 1.0 ==> RgbBetween(c, p.main, p.bright)
    ensures ValidRamp(p) && 0.0 <= brightness <= 1.0 ==> ValidRgb(c)
  {
    if brightness < Knee then Lerp(p.dark, p.main, brightness / Knee)
    else Lerp(p.main, p.bright, (brightness - Knee) / 0.7)
  }

  // ---------------------------------------------------------------------------
  // The subject's ramp
  // ---------------------------------------------------------------------------

  /** The dark stop of a subject that has no dark entry of its own, `#151a20`. */
  const DefaultDark: string := "#" + DefaultDarkDigits

  const DefaultDarkDigits: string := "151a20"

  /** The three stops read from the subject's dark entry (or the default when it has
      none) and the first two entries of its palette; `None` when an entry would make
      `hex_to_rgb` raise. */
  function PaletteRamp(dark: Option<string>, main: string, bright: string): (p: Option<Ramp>)
    ensures p.Some? ==> ValidRamp(p.value)
    ensures p.Some? <==> HexToRgb(dark.GetOr(DefaultDark)).Some? && HexToRgb(main).Some? && HexToRgb(bright).Some?
  {
    match (HexToRgb(dark.GetOr(DefaultDark)), HexToRgb(main), HexToRgb(bright))
    case (Some(d), Some(m), Some(b)) => Some(Ramp(d, m, b))
    case _ => None
  }

  /** The default dark stop is the colour (21, 26, 32). */
  lemma DefaultDarkStop()
    ensures HexToRgb(DefaultDark) == Some(Rgb(21, 26, 32))
  {
    DarkDigits(DefaultDarkDigits);
    SixDigitHex(DefaultDarkDigits);
  }

  lemma DarkDigits(h: string)
    requires h == "151a20"
    ensures AllHex(h)
    ensures Byte(h[0], h[1]) == 21 && Byte(h[2], h[3]) == 26 && Byte(h[4], h[5]) == 32
  {
    assert h[0] == '1' && h[1] == '5' && h[2] == '1' && h[3] == 'a' && h[4] == '2' && h[5] == '0';
  }

  /** A subject without a dark entry gets the default dark stop and its palette's
      colours. */
  lemma DefaultRamp(main: string, bright: string)
    requires HexToRgb(main).Some? && HexToRgb(bright).Some?
    ensures PaletteRamp(None, main, bright)
      == Some(Ramp(Rgb(21, 26, 32), HexToRgb(main).value, HexToRgb(bright).value))
  {
    DefaultDarkStop();
  }
}
