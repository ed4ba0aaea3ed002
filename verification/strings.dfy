/** The Python string built-ins the renderer and the compositor rely on. */
module Strings {

  /** `c * n` in Python: `n` copies of `c`, and the empty string when `n <= 0`. */
  function Repeat(c: char, n: int): (r: string)
    ensures |r| == if n <= 0 then 0 else n
    ensures forall i :: 0 <= i < |r| ==> r[i] == c
    decreases if n <= 0 then 0 else n
  {
    if n <= 0 then [] else [c] + Repeat(c, n - 1)
  }

  /** Concatenation regroups freely. */
  lemma Assoc<T>(a: seq<T>, b: seq<T>, c: seq<T>)
    ensures a + (b + c) == a + b + c
  {
  }

  /** A prefix grows by its next element. */
  lemma TakeSnoc<T>(s: seq<T>, k: nat)
    requires 0 < k <= |s|
    ensures s[..k - 1] + [s[k - 1]] == s[..k]
  {
  }

  /** A non-empty sequence is its front and its last element. */
  lemma SnocLast<T>(s: seq<T>)
    requires |s| > 0
    ensures s[..|s| - 1] + [s[|s| - 1]] == s
  {
  }

  /** `[x] * n`: `n` copies of `x`. */
  function Copies<T>(x: T, n: nat): seq<T>
  {
    seq(n, _ => x)
  }

  /** `' ' * n`. */
  function Spaces(n: int): string {
    Repeat(' ', n)
  }

  /** `sep.join(parts)`. */
  function Join(sep: string, parts: seq<string>): string {
    if |parts| == 0 then []
    else if |parts| == 1 then parts[0]
    else parts[0] + sep + Join(sep, parts[1..])
  }

  /** `s.lstrip(c)`: every leading copy of `c` removed, and nothing else. */
  function LStrip(s: string, c: char): (r: string)
    ensures |r| <= |s| && r == s[|s| - |r|..]
    ensures |r| == 0 || r[0] != c
    ensures forall i :: 0 <= i < |s| - |r| ==> s[i] == c
  {
    if |s| > 0 && s[0] == c then LStrip(s[1..], c) else s
  }

  /** The Python slice `s[i:j]` for `0 <= i <= j`: bounds past the end are clamped. */
  function Slice(s: string, i: nat, j: nat): (r: string)
    requires i <= j
    ensures |r| == (if j <= |s| then j else |s|) - (if i <= |s| then i else |s|)
    ensures forall k :: 0 <= k < |r| ==> r[k] == s[i + k]
  {
    var lo := if i <= |s| then i else |s|;
    var hi := if j <= |s| then j else |s|;
    s[lo..hi]
  }

  /** `c.upper()` on the ASCII letters; every other character is left alone. */
  function UpperChar(c: char): (u: char)
    ensures 'a' <= c <= 'z' ==> 'A' <= u <= 'Z' && u as int == c as int - 32
    ensures !('a' <= c <= 'z') ==> u == c
  {
    if 'a' <= c <= 'z' then (c as int - 32) as char else c
  }

  /** `s.upper()` on ASCII text. */
  function Upper(s: string): (r: string)
    ensures |r| == |s|
    ensures forall i :: 0 <= i < |s| ==> r[i] == UpperChar(s[i])
  {
    seq(|s|, i requires 0 <= i < |s| => UpperChar(s[i]))
  }

  /** Left padding that CPython's `str.center` uses when `s` is shorter than `width`:
      half the margin, plus one when both the margin and the width are odd. */
  function CenterLeft(len: nat, width: int): nat
    requires len < width
  {
    var marg := width - len;
    marg / 2 + (if marg % 2 == 1 && width % 2 == 1 then 1 else 0)
  }

  /** `s.center(width)`. */
  function Center(s: string, width: int): (r: string)
    ensures |r| == if width <= |s| then |s| else width
    ensures width <= |s| ==> r == s
    ensures |s| < width ==>
      var left := CenterLeft(|s|, width);
      var right := width - |s| - left;
      && 0 <= right
      && -1 <= left - right <= 1
      && r[left..left + |s|] == s
      && (forall i :: 0 <= i < left ==> r[i] == ' ')
      && (forall i :: left + |s| <= i < |r| ==> r[i] == ' ')
  {
    if width <= |s| then s
    else
      var left := CenterLeft(|s|, width);
      Spaces(left) + s + Spaces(width - |s| - left)
  }

  predicate IsDigit(c: char) {
    '0' <= c <= '9'
  }

  predicate AllDigits(s: string) {
    forall i :: 0 <= i < |s| ==> IsDigit(s[i])
  }

  function DigitChar(d: nat): (c: char)
    requires d < 10
    ensures IsDigit(c)
  {
    ('0' as int + d) as char
  }

  function DigitValue(c: char): nat
    requires IsDigit(c)
  {
    c as int - '0' as int
  }

  /** The number a string of decimal digits denotes. */
  function DecimalValue(s: string): nat
    requires AllDigits(s)
  {
    if |s| == 0 then 0 else DecimalValue(s[..|s| - 1]) * 10 + DigitValue(s[|s| - 1])
  }

  /** `str(n)` for a natural number: its decimal digits. */
  function NatToDecimal(n: nat): (r: string)
    ensures |r| >= 1 && AllDigits(r)
    ensures r[0] == '0' ==> n == 0
    decreases n
  {
    if n < 10 then [DigitChar(n)] else NatToDecimal(n / 10) + [DigitChar(n % 10)]
  }

  /** `str(i)` for any integer: a minus sign before the digits of a negative number. */
  function IntToDecimal(i: int): (r: string)
    ensures |r| >= 1
    ensures i < 0 <==> r[0] == '-'
    ensures forall k :: 0 < k < |r| ==> IsDigit(r[k])
    ensures i >= 0 ==> AllDigits(r)
    ensures i < 0 ==> |r| >= 2
    ensures r[if i < 0 then 1 else 0] == '0' ==> i == 0
  {
    if i < 0 then "-" + NatToDecimal(-i) else NatToDecimal(i)
  }

  /** Reading back the digits `str(n)` writes gives `n`. */
  lemma {:induction false} DecimalRoundTrip(n: nat)
    ensures DecimalValue(NatToDecimal(n)) == n
    decreases n
  {
    if n >= 10 {
      DecimalRoundTrip(n / 10);
      var s := NatToDecimal(n);
      assert s[..|s| - 1] == NatToDecimal(n / 10);
    }
  }
}
