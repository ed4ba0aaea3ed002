/** Escape-aware reading of a rendered line.

    The compositor treats a run that starts at ESC and ends at the next literal `m` as
    zero-width control data (the SGR control function, section 8.3.117 of ECMA-48).
    Only `m`-terminated runs are recognised, not the general control-sequence grammar of
    section 5.4 of ECMA-48; an ESC inside a run restarts it.

    `VisibleText` is the reference reading, consuming one whole run at a time. `Scan` is
    the character-at-a-time state machine of `get_visible_chars`, which also tags every
    visible character with the latest complete run before it. */
module Ansi {
  import opened Wrappers
  import opened Strings

  const Esc: char := '\U{1B}'

  // ---------------------------------------------------------------------------
  // Reference reading
  // ---------------------------------------------------------------------------

  /** A complete run as the scanner recognises it: one leading ESC, no ESC or `m`
      inside, and a final `m`. */
  predicate IsRun(p: string) {
    && |p| >= 2 && p[0] == Esc && p[|p| - 1] == 'm'
    && forall i :: 1 <= i < |p| - 1 ==> p[i] != Esc && p[i] != 'm'
  }

  /** Text with no ESC in it, which is visible as written. */
  predicate Plain(s: string) {
    forall i :: 0 <= i < |s| ==> s[i] != Esc
  }

  /** What follows the first `m` of `t`, or `None` when `t` has none. */
  function AfterRun(t: string): (r: Option<string>)
    ensures r.Some? ==> |r.value| < |t| && r.value == t[|t| - |r.value|..]
    ensures r.None? <==> forall i :: 0 <= i < |t| ==> t[i] != 'm'
  {
    if |t| == 0 then None
    else if t[0] == 'm' then Some(t[1..])
    else AfterRun(t[1..])
  }

  /** The characters of `s` outside escape runs, in order; an unterminated run hides
      everything after its ESC. */
  function VisibleText(s: string): string
    decreases |s|
  {
    if |s| == 0 then []
    else if s[0] == Esc then
      match AfterRun(s[1..])
      case None => []
      case Some(rest) => VisibleText(rest)
    else [s[0]] + VisibleText(s[1..])
  }

  /** Every run that `s` opens is also closed by an `m` within `s`. */
  predicate Closed(s: string)
    decreases |s|
  {
    if |s| == 0 then true
    else if s[0] == Esc then
      match AfterRun(s[1..])
      case None => false
      case Some(rest) => Closed(rest)
    else Closed(s[1..])
  }

  lemma {:induction false} AfterRunSnoc(t: string, c: char)
    ensures AfterRun(t + [c]) == match AfterRun(t)
      case Some(rest) => Some(rest + [c])
      case None => if c == 'm' then Some([]) else None
  {
    if |t| == 0 {
      assert t + [c] == [c];
    } else {
      assert (t + [c])[1..] == t[1..] + [c];
      if t[0] != 'm' {
        AfterRunSnoc(t[1..], c);
      }
    }
  }

  lemma {:induction false} AfterRunAppend(t: string, u: string)
    ensures AfterRun(t + u) == match AfterRun(t)
      case Some(rest) => Some(rest + u)
      case None => AfterRun(u)
  {
    if |t| == 0 {
      assert t + u == u;
    } else {
      assert (t + u)[1..] == t[1..] + u;
      if t[0] != 'm' {
        AfterRunAppend(t[1..], u);
      }
    }
  }

  /** Extending a line by one character: how the visible text and the open run change. */
  lemma {:induction false} VisibleTextSnoc(s: string, c: char)
    ensures VisibleText(s + [c]) == if Closed(s) && c != Esc then VisibleText(s) + [c] else VisibleText(s)
    ensures Closed(s + [c]) == if Closed(s) then c != Esc else c == 'm'
    decreases |s|
  {
    if |s| == 0 {
      assert s + [c] == [c];
      assert [c][1..] == [];
    } else {
      assert (s + [c])[1..] == s[1..] + [c];
      if s[0] == Esc {
        AfterRunSnoc(s[1..], c);
        match AfterRun(s[1..])
        case None =>
          if c == 'm' {
            assert VisibleText([]) == [] && Closed([]);
          }
        case Some(rest) =>
          VisibleTextSnoc(rest, c);
      } else {
        VisibleTextSnoc(s[1..], c);
      }
    }
  }

  /** Joining after a closed prefix: the visible texts concatenate. */
  lemma {:induction false} VisibleTextAppend(a: string, b: string)
    requires Closed(a)
    ensures VisibleText(a + b) == VisibleText(a) + VisibleText(b)
    ensures Closed(a + b) == Closed(b)
    decreases |a|
  {
    if |a| == 0 {
      assert a + b == b;
    } else if a[0] == Esc {
      var rest := AfterRun(a[1..]).value;
      RunHead(a, b);
      VisibleTextAppend(rest, b);
    } else {
      PlainHead(a, b);
      VisibleTextAppend(a[1..], b);
    }
  }

  /** Reading `a + b` past a visible first character of `a`. */
  lemma PlainHead(a: string, b: string)
    requires |a| > 0 && a[0] != Esc
    ensures VisibleText(a + b) == [a[0]] + VisibleText(a[1..] + b)
    ensures Closed(a + b) == Closed(a[1..] + b)
  {
    assert (a + b)[1..] == a[1..] + b;
  }

  /** Reading `a + b` past a run that `a` opens and closes. */
  lemma RunHead(a: string, b: string)
    requires |a| > 0 && a[0] == Esc && AfterRun(a[1..]).Some?
    ensures VisibleText(a + b) == VisibleText(AfterRun(a[1..]).value + b)
    ensures Closed(a + b) == Closed(AfterRun(a[1..]).value + b)
  {
    assert (a + b)[1..] == a[1..] + b;
    AfterRunAppend(a[1..], b);
  }

  /** Joining after a prefix that leaves a run open: the open run swallows `b` up to
      its first `m`. */
  lemma {:induction false} VisibleTextAppendOpen(a: string, b: string)
    requires !Closed(a)
    ensures VisibleText(a + b) == VisibleText(a) + match AfterRun(b)
      case None => []
      case Some(rest) => VisibleText(rest)
    ensures Closed(a + b) == match AfterRun(b)
      case None => false
      case Some(rest) => Closed(rest)
    decreases |a|
  {
    assert |a| > 0;
    if a[0] == Esc {
      match AfterRun(a[1..])
      case None =>
        OpenHead(a, b);
      case Some(rest) =>
        RunHead(a, b);
        VisibleTextAppendOpen(rest, b);
    } else {
      PlainHead(a, b);
      VisibleTextAppendOpen(a[1..], b);
    }
  }

  /** Reading `a + b` when `a` ends inside the run it opens first. */
  lemma OpenHead(a: string, b: string)
    requires |a| > 0 && a[0] == Esc && AfterRun(a[1..]).None?
    ensures |a + b| > 0 && (a + b)[0] == Esc
    ensures AfterRun((a + b)[1..]) == AfterRun(b)
  {
    assert (a + b)[1..] == a[1..] + b;
    AfterRunAppend(a[1..], b);
  }

  /** A complete run resynchronises the reading, whatever came before it: nothing of
      the run is visible and the line is closed after it. */
  lemma VisibleTextAcrossRun(a: string, run: string, b: string)
    requires IsRun(run)
    ensures VisibleText(a + run + b) == VisibleText(a) + VisibleText(b)
    ensures Closed(a + run + b) == Closed(b)
    ensures Closed(a + run)
  {
    var tail := run + b;
    assert a + run + b == a + tail;
    RunThenText(run, b);
    RunThenText(run, []);
    assert run + [] == run;
    if Closed(a) {
      VisibleTextAppend(a, tail);
      VisibleTextAppend(a, run);
    } else {
      VisibleTextAppendOpen(a, tail);
      VisibleTextAppendOpen(a, run);
    }
  }

  /** A run followed by `b` reads as `b`, and the run's `m` is the first one. */
  lemma RunThenText(run: string, b: string)
    requires IsRun(run)
    ensures AfterRun(run + b) == Some(b)
    ensures VisibleText(run + b) == VisibleText(b)
    ensures Closed(run + b) == Closed(b)
  {
    var n := |run|;
    var tail := ['m'] + b;
    assert AfterRun(tail) == Some(b);
    var inner := run[1..n - 1];
    assert AfterRun(inner).None?;
    RunSplit(run, b);
    AfterRunAppend(inner, tail);
  }

  /** A run followed by `b` is ESC, the run's inside, and `m` followed by `b`. */
  lemma RunSplit(run: string, b: string)
    requires IsRun(run)
    ensures run + b == [Esc] + (run[1..|run| - 1] + (['m'] + b))
  {
    var n := |run|;
    assert run == [Esc] + run[1..n - 1] + ['m'];
  }

  /** Text without ESC is visible exactly as written. */
  lemma {:induction false} PlainVisible(s: string)
    requires Plain(s)
    ensures VisibleText(s) == s && Closed(s)
    decreases |s|
  {
    if |s| > 0 {
      PlainVisible(s[1..]);
      assert s == [s[0]] + s[1..];
    }
  }

  // ---------------------------------------------------------------------------
  // get_visible_chars: the scanner
  // ---------------------------------------------------------------------------

  /** One entry of the parser's result: the latest complete run before a visible
      character (empty before the first run), and the character. */
  datatype Pair = Pair(prefix: string, ch: char)

  /** The scanner's variables: `current_ansi`, `in_escape`, `escape_seq` and `chars`. */
  datatype Scanner = Scanner(current: string, inEscape: bool, pending: string, out: seq<Pair>)

  const Start: Scanner := Scanner([], false, [], [])

  /** One iteration of the loop over the line's characters. */
  function Step(st: Scanner, c: char): Scanner {
    if c == Esc then st.(inEscape := true, pending := [c])
    else if st.inEscape then
      if c == 'm' then st.(inEscape := false, current := st.pending + [c], pending := [])
      else st.(pending := st.pending + [c])
    else st.(out := st.out + [Pair(st.current, c)])
  }

  /** The visible characters of a list of pairs. */
  function Chars(ps: seq<Pair>): string
  {
    seq(|ps|, i requires 0 <= i < |ps| => ps[i].ch)
  }

  /** A run under construction: ESC followed by neither ESC nor `m`. */
  predicate PartialRun(p: string) {
    |p| >= 1 && p[0] == Esc && forall i :: 1 <= i < |p| ==> p[i] != Esc && p[i] != 'm'
  }

  /** The shape of every list the parser returns: no visible ESC, every tag empty or a
      complete run, and the empty tags (before the first run) all come first. */
  predicate WellTagged(ps: seq<Pair>) {
    && (forall i :: 0 <= i < |ps| ==> ps[i].ch != Esc && (ps[i].prefix == [] || IsRun(ps[i].prefix)))
    && (forall i, j :: 0 <= j < i < |ps| && ps[i].prefix == [] ==> ps[j].prefix == [])
  }

  /** Every tag is a complete run, as in any line that starts with one. */
  predicate Tagged(ps: seq<Pair>) {
    forall i :: 0 <= i < |ps| ==> ps[i].ch != Esc && IsRun(ps[i].prefix)
  }

  /** The scanner's state after reading all of `s`: the loop as a left fold. */
  function Scan(s: string): Scanner
    decreases |s|
  {
    if |s| == 0 then Start else Step(Scan(s[..|s| - 1]), s[|s| - 1])
  }

  /** What the scanner's variables mean after reading `s`: the characters produced are
      the visible text, an escape is in progress exactly when a run is open (with a
      partial run pending), the tag is empty or a complete run, and the pairs are well
      tagged, all with empty tags while the tag is still empty. */
  predicate Meaning(s: string, st: Scanner) {
    && Chars(st.out) == VisibleText(s)
    && st.inEscape == !Closed(s)
    && (st.inEscape ==> PartialRun(st.pending))
    && (st.current == [] || IsRun(st.current))
    && WellTagged(st.out)
    && (st.current == [] ==> forall i :: 0 <= i < |st.out| ==> st.out[i].prefix == [])
  }

  /** What the scanner's variables mean after any prefix of a line. */
  lemma {:induction false} ScanInvariant(s: string)
    ensures Meaning(s, Scan(s))
    decreases |s|
  {
    if |s| > 0 {
      var init, c := s[..|s| - 1], s[|s| - 1];
      SnocLast(s);
      ScanInvariant(init);
      ScanSnoc(init, c);
      StepMeaning(init, Scan(init), c);
    }
  }

  /** One iteration keeps the meaning of the scanner's variables. */
  lemma StepMeaning(init: string, before: Scanner, c: char)
    requires Meaning(init, before)
    ensures Meaning(init + [c], Step(before, c))
  {
    if c == Esc {
      EscMeaning(init, before, c);
    } else if before.inEscape {
      RunCharMeaning(init, before, c);
    } else {
      ShownCharMeaning(init, before, c);
    }
  }

  /** An ESC opens a run whatever came before. */
  lemma EscMeaning(init: string, before: Scanner, c: char)
    requires Meaning(init, before) && c == Esc
    ensures Meaning(init + [c], Step(before, c))
  {
    VisibleTextSnoc(init, c);
    assert PartialRun([c]);
  }

  /** Inside a run, a character extends it, and an `m` completes it. */
  lemma RunCharMeaning(init: string, before: Scanner, c: char)
    requires Meaning(init, before) && c != Esc && before.inEscape
    ensures Meaning(init + [c], Step(before, c))
  {
    VisibleTextSnoc(init, c);
    GrowRun(before.pending, c);
  }

  /** Outside a run, a character becomes visible under the current run. */
  lemma ShownCharMeaning(init: string, before: Scanner, c: char)
    requires Meaning(init, before) && c != Esc && !before.inEscape
    ensures Meaning(init + [c], Step(before, c))
  {
    VisibleTextSnoc(init, c);
    WellTaggedSnoc(before.out, Pair(before.current, c));
    CharsSnoc(before.out, Pair(before.current, c));
  }

  /** A partial run grows by a character other than ESC and `m`, and is completed by
      an `m`. */
  lemma GrowRun(p: string, c: char)
    requires PartialRun(p) && c != Esc
    ensures c != 'm' ==> PartialRun(p + [c])
    ensures c == 'm' ==> IsRun(p + [c])
  {
    var r := p + [c];
    assert forall i :: 0 <= i < |p| ==> r[i] == p[i];
  }

  /** Appending a pair keeps the list well tagged when the pair fits its shape. */
  lemma WellTaggedSnoc(out: seq<Pair>, p: Pair)
    requires WellTagged(out)
    requires p.ch != Esc && (p.prefix == [] || IsRun(p.prefix))
    requires p.prefix == [] ==> forall i :: 0 <= i < |out| ==> out[i].prefix == []
    ensures WellTagged(out + [p])
  {
  }

  lemma CharsSnoc(out: seq<Pair>, p: Pair)
    ensures Chars(out + [p]) == Chars(out) + [p.ch]
  {
  }

  /** `get_visible_chars(line)`: the pairs of the tag-carrying reference reading, so
      every visible character is tagged with the latest complete run before it. */
  function VisibleChars(line: string): (ps: seq<Pair>)
    ensures ps == Reading(line, [])
    ensures Chars(ps) == VisibleText(line)
    ensures |ps| == |VisibleText(line)|
    ensures WellTagged(ps)
  {
    ScanInvariant(line);
    ScanIsSteps(line);
    StepsReading(Start, line);
    Scan(line).out
  }

  // ---------------------------------------------------------------------------
  // Reference reading with tags
  // ---------------------------------------------------------------------------

  /** The position of the first ESC or `m` in `t`, or `|t|` when there is none. */
  function Stop(t: string): (k: nat)
    ensures k <= |t|
    ensures forall i :: 0 <= i < k ==> t[i] != Esc && t[i] != 'm'
    ensures k < |t| ==> t[k] == Esc || t[k] == 'm'
  {
    if |t| == 0 || t[0] == Esc || t[0] == 'm' then 0 else 1 + Stop(t[1..])
  }

  /** The pairs of `s` read one run at a time, starting under the tag `cur`. After an
      ESC, the first ESC or `m` decides: an `m` completes the run, which becomes the tag
      from then on; another ESC abandons the run and starts a new one; neither means the
      rest of the line is hidden. A character outside a run is paired with the tag. */
  function Reading(s: string, cur: string): seq<Pair>
    decreases |s|
  {
    if |s| == 0 then []
    else if s[0] != Esc then [Pair(cur, s[0])] + Reading(s[1..], cur)
    else
      var k := 1 + Stop(s[1..]);
      if k == |s| then []
      else if s[k] == Esc then Reading(s[k..], cur)
      else Reading(s[k + 1..], s[..k + 1])
  }

  /** The scanner's loop read from the front: `st` after the characters of `s`. */
  function Steps(st: Scanner, s: string): Scanner
    decreases |s|
  {
    if |s| == 0 then st else Steps(Step(st, s[0]), s[1..])
  }

  lemma {:induction false} StepsSnoc(st: Scanner, s: string, c: char)
    ensures Steps(st, s + [c]) == Step(Steps(st, s), c)
    decreases |s|
  {
    if |s| == 0 {
      assert s + [c] == [c];
    } else {
      assert (s + [c])[1..] == s[1..] + [c];
      StepsSnoc(Step(st, s[0]), s[1..], c);
    }
  }

  /** The left fold and the front-first reading of the loop agree. */
  lemma {:induction false} ScanIsSteps(s: string)
    ensures Scan(s) == Steps(Start, s)
    decreases |s|
  {
    if |s| > 0 {
      var init, c := s[..|s| - 1], s[|s| - 1];
      SnocLast(s);
      ScanIsSteps(init);
      StepsSnoc(Start, init, c);
    }
  }

  /** Inside a run, the loop only collects characters until the first ESC or `m`. */
  lemma {:induction false} InsideRun(st: Scanner, t: string)
    requires st.inEscape
    ensures Steps(st, t) == Steps(st.(pending := st.pending + t[..Stop(t)]), t[Stop(t)..])
    decreases |t|
  {
    var k := Stop(t);
    if k == 0 {
      assert st.pending + t[..0] == st.pending;
    } else {
      var next := st.(pending := st.pending + [t[0]]);
      assert Step(st, t[0]) == next;
      InsideRun(next, t[1..]);
      assert Stop(t[1..]) == k - 1;
      assert next.pending + t[1..][..k - 1] == st.pending + t[..k];
      assert t[1..][k - 1..] == t[k..];
    }
  }

  /** The loop, started outside a run, produces the reference reading under its tag. */
  lemma {:induction false} StepsReading(st: Scanner, s: string)
    requires !st.inEscape
    ensures Steps(st, s).out == st.out + Reading(s, st.current)
    decreases |s|
  {
    if |s| == 0 {
      assert st.out + [] == st.out;
    } else if s[0] != Esc {
      var next := Step(st, s[0]);
      StepsReading(next, s[1..]);
      Assoc(st.out, [Pair(st.current, s[0])], Reading(s[1..], st.current));
    } else {
      EscStepsReading(st, s);
    }
  }

  /** The ESC case of `StepsReading`, one lemma per outcome of the run. */
  lemma {:induction false} EscStepsReading(st: Scanner, s: string)
    requires !st.inEscape && |s| > 0 && s[0] == Esc
    ensures Steps(st, s).out == st.out + Reading(s, st.current)
    decreases |s|, 0
  {
    var t := s[1..];
    var j := Stop(t);
    var k := 1 + j;
    var open := Step(st, Esc);
    assert Steps(st, s) == Steps(open, t);
    InsideRun(open, t);
    var collected := open.(pending := [Esc] + t[..j]);
    assert t[j..] == s[k..];
    if k == |s| {
      assert st.out + [] == st.out;
    } else if s[k] == Esc {
      assert Step(collected, Esc) == open;
      assert Steps(st, s[k..]) == Steps(open, s[k + 1..]);
      StepsReading(st, s[k..]);
    } else {
      var closed := Step(collected, 'm');
      assert s[..k + 1] == [Esc] + t[..j] + ['m'];
      assert closed == st.(current := s[..k + 1], pending := []);
      assert s[k..][1..] == s[k + 1..];
      StepsReading(closed, s[k + 1..]);
    }
  }

  lemma ScanSnoc(s: string, c: char)
    ensures Scan(s + [c]) == Step(Scan(s), c)
  {
    assert (s + [c])[..|s|] == s;
  }

  /** Reading a complete run sets the current tag to it and changes nothing else. */
  lemma ScanRun(x: string, run: string)
    requires IsRun(run)
    ensures Scan(x + run) == Scan(x).(current := run, inEscape := false, pending := [])
  {
    var body := run[..|run| - 1];
    ScanRunPrefix(x, run, |run| - 1);
    SnocLast(run);
    Assoc(x, body, ['m']);
    ScanSnoc(x + body, 'm');
    var before := Scan(x + body);
    assert before == Scan(x).(inEscape := true, pending := body);
    assert Step(before, 'm') == Scan(x).(current := run, inEscape := false, pending := []);
  }

  lemma {:induction false} ScanRunPrefix(x: string, run: string, k: nat)
    requires IsRun(run) && 1 <= k < |run|
    ensures Scan(x + run[..k]) == Scan(x).(inEscape := true, pending := run[..k])
    decreases k
  {
    if k == 1 {
      assert run[..1] == [Esc];
      ScanSnoc(x, Esc);
    } else {
      var c := run[k - 1];
      assert c != Esc && c != 'm';
      ScanRunPrefix(x, run, k - 1);
      TakeSnoc(run, k);
      Assoc(x, run[..k - 1], [c]);
      ScanSnoc(x + run[..k - 1], c);
    }
  }

  // ---------------------------------------------------------------------------
  // Re-joining pairs
  // ---------------------------------------------------------------------------

  /** `''.join(prefix + char for prefix, char in pairs)`. */
  function Rejoin(ps: seq<Pair>): string {
    if |ps| == 0 then []
    else Rejoin(ps[..|ps| - 1]) + ps[|ps| - 1].prefix + [ps[|ps| - 1].ch]
  }

  /** The tag in force after re-reading `ps` from a state whose tag was `cur`. */
  function TagAfter(ps: seq<Pair>, cur: string): string {
    if |ps| == 0 || ps[|ps| - 1].prefix == [] then cur else ps[|ps| - 1].prefix
  }

  /** Re-reading well-tagged pairs from a state outside any run appends exactly those
      pairs. */
  lemma {:induction false} ScanRejoin(x: string, ps: seq<Pair>)
    requires !Scan(x).inEscape
    requires WellTagged(ps)
    requires |ps| > 0 && ps[0].prefix == [] ==> Scan(x).current == []
    ensures Scan(x + Rejoin(ps)).out == Scan(x).out + ps
    ensures Scan(x + Rejoin(ps)).current == TagAfter(ps, Scan(x).current)
    ensures !Scan(x + Rejoin(ps)).inEscape
    decreases |ps|
  {
    if |ps| == 0 {
      assert x + Rejoin(ps) == x;
    } else {
      var n := |ps|;
      var qs, p := ps[..n - 1], ps[n - 1];
      assert qs + [p] == ps;
      PrefixWellTagged(ps, n - 1);
      ScanRejoin(x, qs);
      var y := x + Rejoin(qs);
      RejoinLast(x, ps);
      if p.prefix == [] && n > 1 {
        assert qs[n - 2].prefix == [];
        assert ps[0].prefix == [];
      }
      ReadPair(y, p);
      Assoc(Scan(x).out, qs, [p]);
    }
  }

  lemma RejoinLast(x: string, ps: seq<Pair>)
    requires |ps| > 0
    ensures x + Rejoin(ps) == x + Rejoin(ps[..|ps| - 1]) + ps[|ps| - 1].prefix + [ps[|ps| - 1].ch]
  {
    var p := ps[|ps| - 1];
    Assoc(x, Rejoin(ps[..|ps| - 1]) + p.prefix, [p.ch]);
    Assoc(x, Rejoin(ps[..|ps| - 1]), p.prefix);
  }

  /** Re-reading one pair outside any run appends it and sets the tag it carries. */
  lemma ReadPair(y: string, p: Pair)
    requires !Scan(y).inEscape && p.ch != Esc
    requires p.prefix == [] || IsRun(p.prefix)
    requires p.prefix == [] ==> Scan(y).current == []
    ensures var st := Scan(y + p.prefix + [p.ch]);
      && st.out == Scan(y).out + [p]
      && st.current == (if p.prefix == [] then Scan(y).current else p.prefix)
      && !st.inEscape
  {
    var before := Scan(y);
    if p.prefix == [] {
      assert y + p.prefix == y;
      ScanSnoc(y, p.ch);
    } else {
      ScanRun(y, p.prefix);
      ScanSnoc(y + p.prefix, p.ch);
    }
  }

  lemma PrefixWellTagged(ps: seq<Pair>, k: nat)
    requires WellTagged(ps) && k <= |ps|
    ensures WellTagged(ps[..k])
  {
    var qs := ps[..k];
    forall i, j | 0 <= j < i < |qs| && qs[i].prefix == [] ensures qs[j].prefix == [] {
      assert qs[i] == ps[i] && qs[j] == ps[j];
    }
  }

  /** Well-tagged lists are exactly the lists the parser produces: each one is read
      back from its own re-joined text. */
  lemma ParsedIffWellTagged(ps: seq<Pair>)
    ensures WellTagged(ps) <==> VisibleChars(Rejoin(ps)) == ps
  {
    if WellTagged(ps) {
      assert Scan([]) == Start;
      ScanRejoin([], ps);
      assert [] + Rejoin(ps) == Rejoin(ps);
    }
  }

  /** Round trip: parsing, re-joining and parsing again gives the same pairs. */
  lemma RoundTrip(line: string)
    ensures VisibleChars(Rejoin(VisibleChars(line))) == VisibleChars(line)
  {
    ParsedIffWellTagged(VisibleChars(line));
  }

  /** Tagged pairs framed by two runs read back as themselves. */
  lemma FramedRejoin(open: string, ps: seq<Pair>, close: string)
    requires IsRun(open) && IsRun(close) && Tagged(ps)
    ensures VisibleChars(open + Rejoin(ps) + close) == ps
  {
    ScanRun([], open);
    assert [] + open == open;
    assert Scan([]) == Start;
    assert WellTagged(ps);
    ScanRejoin(open, ps);
    ScanRun(open + Rejoin(ps), close);
  }

  /** Tagged pairs followed by a closing run read back as themselves. */
  lemma RejoinThenRun(ps: seq<Pair>, close: string)
    requires IsRun(close) && Tagged(ps)
    ensures VisibleChars(Rejoin(ps) + close) == ps
  {
    assert Scan([]) == Start;
    assert WellTagged(ps);
    ScanRejoin([], ps);
    assert [] + Rejoin(ps) == Rejoin(ps);
    ScanRun(Rejoin(ps), close);
  }

  /** After a complete run, the scanner's tag is never empty and every pair it has
      produced carries a complete run. */
  lemma {:induction false} ScanAfterRun(run: string, s: string)
    requires IsRun(run)
    ensures Tagged(Scan(run + s).out) && IsRun(Scan(run + s).current)
    decreases |s|
  {
    if |s| == 0 {
      assert run + s == [] + run;
      ScanRun([], run);
    } else {
      var init, c := s[..|s| - 1], s[|s| - 1];
      ScanAfterRun(run, init);
      SnocLast(s);
      Assoc(run, init, [c]);
      ScanSnoc(run + init, c);
      ScanInvariant(run + init);
      StepTagged(Scan(run + init), c);
    }
  }

  /** One step keeps every tag a complete run. */
  lemma StepTagged(st: Scanner, c: char)
    requires Tagged(st.out) && IsRun(st.current)
    requires st.inEscape ==> PartialRun(st.pending)
    ensures Tagged(Step(st, c).out) && IsRun(Step(st, c).current)
  {
    if c != Esc && st.inEscape && c == 'm' {
      var run := st.pending + [c];
      assert forall i :: 1 <= i < |run| - 1 ==> run[i] == st.pending[i];
    }
  }

  /** Everything read after a complete run carries a run as its tag. */
  lemma TaggedAfterRun(run: string, s: string)
    requires IsRun(run)
    ensures Tagged(VisibleChars(run + s))
  {
    ScanAfterRun(run, s);
  }
}
