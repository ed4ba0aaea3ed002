/** The SGR colour runs the renderer writes (`rgb_to_ansi`, `rgb_to_ansi_bg_only`, the
    reset) and a decoder for their parameters. Direct colour uses parameters `38;2;r;g;b`
    for the foreground and `48;2;r;g;b` for the background, separated by `;`. */
module Sgr {
  import opened Wrappers
  import opened Strings
  import opened Color
  import opened Ansi

  /** `BG_COLOR`, the light theme's background. */
  const ThemeBackground: Rgb := Rgb(216, 212, 208)

  /** `\033[0m`. */
  function Reset(): (s: string)
    ensures IsRun(s)
    ensures SgrParams(s) == Some([0])
  {
    RunOfParams([0]);
    FixedParams();
    [Esc, '['] + "0" + ['m']
  }

  /** A run `\033[p1;p2;...;pnm` with the numbers written in decimal. */
  function Sgr(xs: seq<int>): string
    requires |xs| >= 1
  {
    [Esc, '['] + Params(xs) + ['m']
  }

  /** The combined run `\033[38;2;r;g;b;48;2;R;G;Bm`. */
  function FgBg(fg: Rgb, bg: Rgb): string {
    Sgr([38, 2, fg.r, fg.g, fg.b, 48, 2, bg.r, bg.g, bg.b])
  }

  /** The background-only run `\033[48;2;R;G;Bm`. */
  function BgOnly(bg: Rgb): string {
    Sgr([48, 2, bg.r, bg.g, bg.b])
  }

  /** `rgb_to_ansi(r, g, b)`: the colour on the theme background. */
  function RgbToAnsi(c: Rgb): (s: string)
    ensures IsRun(s)
    ensures SgrParams(s) == Some([38, 2, c.r, c.g, c.b, 48, 2, 216, 212, 208])
  {
    RunOfParams([38, 2, c.r, c.g, c.b, 48, 2, 216, 212, 208]);
    FgBg(c, ThemeBackground)
  }

  /** `rgb_to_ansi_bg_only()`. */
  function BgAnsi(): (s: string)
    ensures IsRun(s)
    ensures SgrParams(s) == Some([48, 2, 216, 212, 208])
  {
    RunOfParams([48, 2, 216, 212, 208]);
    FixedParams();
    [Esc, '['] + "48;2;216;212;208" + ['m']
  }

  /** The two fixed runs are the general runs for their parameters. */
  lemma FixedRuns()
    ensures Reset() == Sgr([0])
    ensures BgAnsi() == BgOnly(ThemeBackground)
  {
    FixedParams();
  }

  /** The two fixed runs, written out. */
  lemma FixedParams()
    ensures Sgr([0]) == [Esc, '['] + "0" + ['m']
    ensures Sgr([48, 2, 216, 212, 208]) == [Esc, '['] + "48;2;216;212;208" + ['m']
    ensures BgOnly(ThemeBackground) == Sgr([48, 2, 216, 212, 208])
  {
    assert Params([0]) == "0";
    BgParams();
  }

  /** The background's parameters, written out. */
  lemma BgParams()
    ensures Params([48, 2, 216, 212, 208]) == "48;2;216;212;208"
  {
    BgDecimals();
    FiveParams(48, 2, 216, 212, 208);
  }

  /** A five-number parameter list is the five numbers joined by `;`. */
  lemma FiveParams(a: int, b: int, c: int, d: int, e: int)
    ensures Params([a, b, c, d, e])
      == IntToDecimal(a) + ";" + (IntToDecimal(b) + ";" + (IntToDecimal(c) + ";"
         + (IntToDecimal(d) + ";" + IntToDecimal(e))))
  {
    var xs := [a, b, c, d, e];
    var t1 := xs[1..];
    var t2 := t1[1..];
    var t3 := t2[1..];
    var t4 := t3[1..];
    assert t4 == [e];
    assert Params(t3) == IntToDecimal(d) + ";" + Params(t4);
    assert Params(t2) == IntToDecimal(c) + ";" + Params(t3);
    assert Params(t1) == IntToDecimal(b) + ";" + Params(t2);
  }

  /** The background's numbers in decimal. */
  lemma BgDecimals()
    ensures IntToDecimal(2) == "2" && IntToDecimal(48) == "48"
    ensures IntToDecimal(208) == "208" && IntToDecimal(212) == "212" && IntToDecimal(216) == "216"
  {
    TwoDigits(48);
    ThreeDigits(208);
    ThreeDigits(212);
    ThreeDigits(216);
  }

  lemma TwoDigits(n: nat)
    requires 10 <= n < 100
    ensures NatToDecimal(n) == [DigitChar(n / 10), DigitChar(n % 10)]
  {
  }

  lemma ThreeDigits(n: nat)
    requires 100 <= n < 1000
    ensures NatToDecimal(n) == [DigitChar(n / 100), DigitChar(n / 10 % 10), DigitChar(n % 10)]
  {
    TwoDigits(n / 10);
  }

  /** The parameter list as written: decimal numbers separated by `;`. */
  function Params(xs: seq<int>): string
    requires |xs| >= 1
  {
    if |xs| == 1 then IntToDecimal(xs[0]) else IntToDecimal(xs[0]) + ";" + Params(xs[1..])
  }

  /** The position of the first `c` in `t`. */
  function IndexOf(t: string, c: char): (k: Option<nat>)
    ensures k.Some? ==> k.value < |t| && t[k.value] == c && forall i :: 0 <= i < k.value ==> t[i] != c
    ensures k.None? ==> forall i :: 0 <= i < |t| ==> t[i] != c
  {
    if |t| == 0 then None
    else if t[0] == c then Some(0)
    else match IndexOf(t[1..], c)
      case None => None
      case Some(k) => Some(k + 1)
  }

  /** One decimal parameter, optionally negative. */
  function ParseInt(s: string): Option<int> {
    if |s| > 0 && AllDigits(s) then Some(DecimalValue(s))
    else if |s| > 1 && s[0] == '-' && AllDigits(s[1..]) then Some(0 - DecimalValue(s[1..]) as int)
    else None
  }

  /** The parameters of a `;`-separated list, or `None` if one of them is not a number. */
  function ParseParams(t: string): Option<seq<int>>
    decreases |t|
  {
    match IndexOf(t, ';')
    case None =>
      (match ParseInt(t)
       case Some(v) => Some([v])
       case None => None)
    case Some(k) =>
      (match (ParseInt(t[..k]), ParseParams(t[k + 1..]))
       case (Some(v), Some(vs)) => Some([v] + vs)
       case _ => None)
  }

  /** The parameters of a run `ESC [ params m`. */
  function SgrParams(s: string): Option<seq<int>> {
    if |s| >= 3 && s[0] == Esc && s[1] == '[' && s[|s| - 1] == 'm' then ParseParams(s[2..|s| - 1])
    else None
  }

  lemma IntRoundTrip(i: int)
    ensures ParseInt(IntToDecimal(i)) == Some(i)
  {
    if i < 0 {
      NegativeRoundTrip(-i);
    } else {
      DecimalRoundTrip(i);
    }
  }

  /** A minus sign before decimal digits reads as the negated number. */
  lemma NegativeRoundTrip(n: nat)
    ensures ParseInt("-" + NatToDecimal(n)) == Some(0 - n)
  {
    var d := NatToDecimal(n);
    var s := "-" + d;
    assert s[1..] == d;
    assert !AllDigits(s) by { assert !IsDigit(s[0]); }
    DecimalRoundTrip(n);
  }

  /** Characters that occur in a parameter list. */
  predicate ParamText(t: string) {
    forall i :: 0 <= i < |t| ==> IsDigit(t[i]) || t[i] == ';' || t[i] == '-'
  }

  /** Reading back a written parameter list gives the numbers. */
  lemma {:induction false} ParamsRoundTrip(xs: seq<int>)
    requires |xs| >= 1
    ensures ParseParams(Params(xs)) == Some(xs)
    decreases |xs|
  {
    if |xs| == 1 {
      SingleParam(xs[0]);
      assert xs == [xs[0]];
    } else {
      ParamsRoundTrip(xs[1..]);
      ConsRoundTrip(xs[0], xs[1..]);
      assert [xs[0]] + xs[1..] == xs;
    }
  }

  /** A number in front of a list that reads back keeps it reading back. */
  lemma ConsRoundTrip(x: int, tail: seq<int>)
    requires |tail| >= 1 && ParseParams(Params(tail)) == Some(tail)
    ensures ParseParams(Params([x] + tail)) == Some([x] + tail)
  {
    var d, rest := IntToDecimal(x), Params(tail);
    ParamsCons(x, tail);
    IntRoundTrip(x);
    NoSeparator(x);
    ParseCons(d, rest, x, tail);
  }

  /** A list of two or more numbers is written as the first, a `;`, and the rest. */
  lemma ParamsCons(x: int, tail: seq<int>)
    requires |tail| >= 1
    ensures Params([x] + tail) == IntToDecimal(x) + (";" + Params(tail))
  {
    var xs := [x] + tail;
    assert xs[0] == x && xs[1..] == tail;
    Assoc(IntToDecimal(x), ";", Params(tail));
  }

  /** A written number holds no `;`. */
  lemma NoSeparator(i: int)
    ensures forall k :: 0 <= k < |IntToDecimal(i)| ==> IntToDecimal(i)[k] != ';'
  {
  }

  /** A lone number reads back as the one-element list. */
  lemma SingleParam(i: int)
    ensures ParseParams(IntToDecimal(i)) == Some([i])
  {
    NoSeparator(i);
    IntRoundTrip(i);
  }

  /** A written parameter list holds only digits, `;` and `-`. */
  lemma {:induction false} ParamsText(xs: seq<int>)
    requires |xs| >= 1
    ensures ParamText(Params(xs))
    decreases |xs|
  {
    if |xs| > 1 {
      ParamsText(xs[1..]);
      var d, rest := IntToDecimal(xs[0]), Params(xs[1..]);
      var t := d + (";" + rest);
      Assoc(d, ";", rest);
      forall i | 0 <= i < |t| ensures IsDigit(t[i]) || t[i] == ';' || t[i] == '-' {
        if i > |d| {
          assert t[i] == rest[i - |d| - 1];
        }
      }
    }
  }

  /** A field without `;`, a `;` and more text: the field is read first, then the rest. */
  lemma ParseCons(d: string, rest: string, v: int, vs: seq<int>)
    requires forall i :: 0 <= i < |d| ==> d[i] != ';'
    requires ParseInt(d) == Some(v) && ParseParams(rest) == Some(vs)
    ensures ParseParams(d + (";" + rest)) == Some([v] + vs)
  {
    var t := d + (";" + rest);
    FirstSeparator(d, rest);
    assert t[..|d|] == d;
    assert t[|d| + 1..] == rest;
  }

  /** After a number, the first `;` is the one that follows it. */
  lemma {:induction false} FirstSeparator(d: string, rest: string)
    requires forall i :: 0 <= i < |d| ==> d[i] != ';'
    ensures IndexOf(d + (";" + rest), ';') == Some(|d|)
    decreases |d|
  {
    if |d| == 0 {
      assert d + (";" + rest) == ";" + rest;
    } else {
      assert (d + (";" + rest))[1..] == d[1..] + (";" + rest);
      FirstSeparator(d[1..], rest);
    }
  }

  /** `Sgr(xs)` is a complete run whose parameters read back as `xs`. */
  lemma RunOfParams(xs: seq<int>)
    requires |xs| >= 1
    ensures IsRun(Sgr(xs))
    ensures SgrParams(Sgr(xs)) == Some(xs)
  {
    var p := Params(xs);
    ParamsRoundTrip(xs);
    ParamsText(xs);
    RunShape(p);
  }

  /** Parameter text between `ESC [` and `m` makes a complete run. */
  lemma RunShape(p: string)
    requires ParamText(p)
    ensures var s := [Esc, '['] + p + ['m'];
      IsRun(s) && |s| >= 3 && s[0] == Esc && s[1] == '[' && s[|s| - 1] == 'm' && s[2..|s| - 1] == p
  {
    var s := [Esc, '['] + p + ['m'];
    forall i | 1 <= i < |s| - 1 ensures s[i] != Esc && s[i] != 'm' {
      if i >= 2 {
        assert s[i] == p[i - 2];
      }
    }
    assert s[2..|s| - 1] == p;
  }
}
