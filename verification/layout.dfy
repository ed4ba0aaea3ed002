/** The static part of `print_side_by_side`: every art's row padded to the column
    width, the padded rows joined into screen lines, and the line of centred names. */
module Layout {
  import opened Strings
  import opened Color
  import opened Ansi
  import opened Sgr

  function Max(a: int, b: int): int {
    if a < b then b else a
  }

  // ---------------------------------------------------------------------------
  // The inline width counter
  // ---------------------------------------------------------------------------

  /** The counter's variables: `visible_len` and `in_escape`. */
  datatype Counter = Counter(count: nat, inEscape: bool)

  /** One iteration of the counting loop. */
  function CountStep(st: Counter, c: char): Counter {
    if c == Esc then st.(inEscape := true)
    else if st.inEscape && c == 'm' then st.(inEscape := false)
    else if !st.inEscape then st.(count := st.count + 1)
    else st
  }

  /** The counter after reading all of `s`. */
  function Count(s: string): Counter
    decreases |s|
  {
    if |s| == 0 then Counter(0, false) else CountStep(Count(s[..|s| - 1]), s[|s| - 1])
  }

  /** The counter agrees with the reference reading: it counts exactly the characters
      outside runs, and it is inside an escape exactly when a run is left open. */
  lemma {:induction false} CountInvariant(s: string)
    ensures Count(s).count == |VisibleText(s)|
    ensures Count(s).inEscape == !Closed(s)
    decreases |s|
  {
    if |s| > 0 {
      var t, c := s[..|s| - 1], s[|s| - 1];
      assert s == t + [c];
      CountInvariant(t);
      VisibleTextSnoc(t, c);
    }
  }

  /** The visible width the counter computes for one art line: the number of pairs
      the parser finds in it. */
  function VisibleLen(line: string): (n: nat)
    ensures n == |VisibleChars(line)|
  {
    CountInvariant(line);
    Count(line).count
  }

  // ---------------------------------------------------------------------------
  // Padding and joining
  // ---------------------------------------------------------------------------

  /** Row `row` of an art, or the empty line when the art is shorter. */
  function ArtLine(art: seq<string>, row: nat): string
  {
    if row < |art| then art[row] else []
  }

  /** One padded part: the art line, the background run, then spaces up to `width`. */
  function PadPart(line: string, width: int): string {
    line + BgAnsi() + Spaces(width - VisibleLen(line))
  }

  /** A row that a shorter art does not have shows as a part of spaces only, exactly
      the column width wide. */
  lemma MissingRowPadded(art: seq<string>, row: nat, width: int)
    requires |art| <= row
    ensures VisibleText(PadPart(ArtLine(art, row), width)) == Spaces(width)
    ensures ShownPart(art, row, width) == Spaces(width)
  {
    var line := ArtLine(art, row);
    assert line == [];
    assert VisibleLen(line) == 0 && VisibleText(line) == [];
    var pad := Spaces(width - VisibleLen(line));
    assert pad == Spaces(width);
    assert VisibleText(line) + pad == pad;
    PadPartVisible(line, width);
  }

  /** A padded part reads as the line's text followed by the padding spaces, so its
      visible width is the larger of the column width and the line's own width. */
  lemma PadPartVisible(line: string, width: int)
    ensures VisibleText(PadPart(line, width)) == VisibleText(line) + Spaces(width - VisibleLen(line))
    ensures |VisibleChars(PadPart(line, width))| == Max(width, VisibleLen(line))
    ensures Closed(PadPart(line, width))
  {
    var pad := Spaces(width - VisibleLen(line));
    VisibleTextAcrossRun(line, BgAnsi(), pad);
    PlainVisible(pad);
  }

  /** The visible text of each part. */
  function VisibleParts(parts: seq<string>): seq<string>
  {
    seq(|parts|, i requires 0 <= i < |parts| => VisibleText(parts[i]))
  }

  /** Joining closed parts with a plain separator: the visible text is the join of the
      parts' visible texts. */
  lemma {:induction false} JoinVisible(sep: string, parts: seq<string>)
    requires Plain(sep)
    requires forall i :: 0 <= i < |parts| ==> Closed(parts[i])
    ensures VisibleText(Join(sep, parts)) == Join(sep, VisibleParts(parts))
    ensures Closed(Join(sep, parts))
    decreases |parts|
  {
    if |parts| >= 2 {
      var rest := Join(sep, parts[1..]);
      JoinVisible(sep, parts[1..]);
      PlainVisible(sep);
      VisibleTextAppend(parts[0], sep);
      VisibleTextAppend(parts[0] + sep, rest);
      assert VisibleParts(parts)[1..] == VisibleParts(parts[1..]);
    }
  }

  /** Joining `n >= 1` parts of length `len` gives `n * len` plus the separators. */
  lemma {:induction false} JoinLength(sep: string, parts: seq<string>, len: nat)
    requires |parts| >= 1
    requires forall i :: 0 <= i < |parts| ==> |parts[i]| == len
    ensures |Join(sep, parts)| == |parts| * len + (|parts| - 1) * |sep|
    decreases |parts|
  {
    if |parts| >= 2 {
      JoinLength(sep, parts[1..], len);
    }
  }

  /** Text between an opening and a closing run reads as itself. */
  lemma Enclosed(open: string, s: string, close: string)
    requires IsRun(open) && IsRun(close) && Closed(s)
    ensures VisibleText(open + s + close) == VisibleText(s)
    ensures Closed(open + s + close)
  {
    var tail := s + close;
    assert open + s + close == open + tail;
    RunThenText(open, tail);
    VisibleTextAppend(s, close);
    RunClosed(close);
  }

  /** A run on its own shows nothing and closes itself. */
  lemma RunClosed(run: string)
    requires IsRun(run)
    ensures VisibleText(run) == [] && Closed(run)
  {
    RunThenText(run, []);
    assert run + [] == run;
  }

  /** The padded parts of screen row `row`, one per art. */
  function RowParts(arts: seq<seq<string>>, row: nat, width: int): seq<string>
  {
    seq(|arts|, i requires 0 <= i < |arts| => PadPart(ArtLine(arts[i], row), width))
  }

  /** One entry of `all_lines`. */
  function LayoutRow(arts: seq<seq<string>>, row: nat, width: int, spacing: int): string {
    BgAnsi() + Join(Spaces(spacing), RowParts(arts, row, width)) + Reset()
  }

  /** What a padded part shows: the art line's text and the padding spaces. */
  function ShownPart(art: seq<string>, row: nat, width: int): string {
    var line := ArtLine(art, row);
    VisibleText(line) + Spaces(width - VisibleLen(line))
  }

  /** What each art shows on screen row `row`. */
  function ShownParts(arts: seq<seq<string>>, row: nat, width: int): seq<string>
  {
    seq(|arts|, i requires 0 <= i < |arts| => ShownPart(arts[i], row, width))
  }

  /** A screen row shows the arts' padded lines side by side, `spacing` spaces apart. */
  lemma LayoutRowVisible(arts: seq<seq<string>>, row: nat, width: int, spacing: int)
    ensures VisibleText(LayoutRow(arts, row, width, spacing)) == Join(Spaces(spacing), ShownParts(arts, row, width))
  {
    var parts := RowParts(arts, row, width);
    var sep := Spaces(spacing);
    PartsShown(arts, row, width);
    PlainVisible(sep);
    JoinVisible(sep, parts);
    Enclosed(BgAnsi(), Join(sep, parts), Reset());
  }

  /** Every padded part is closed and shows its art's line and padding. */
  lemma PartsShown(arts: seq<seq<string>>, row: nat, width: int)
    ensures forall i :: 0 <= i < |arts| ==> Closed(RowParts(arts, row, width)[i])
    ensures VisibleParts(RowParts(arts, row, width)) == ShownParts(arts, row, width)
  {
    var parts := RowParts(arts, row, width);
    forall i | 0 <= i < |parts| ensures Closed(parts[i]) && VisibleText(parts[i]) == ShownPart(arts[i], row, width) {
      PadPartVisible(ArtLine(arts[i], row), width);
    }
  }

  /** When no art line is wider than the column, every screen row has the same width:
      the columns plus the gaps between them. */
  lemma RowWidth(arts: seq<seq<string>>, row: nat, width: nat, spacing: nat)
    requires |arts| >= 1
    requires forall i :: 0 <= i < |arts| ==> VisibleLen(ArtLine(arts[i], row)) <= width
    ensures |VisibleChars(LayoutRow(arts, row, width, spacing))| == |arts| * width + (|arts| - 1) * spacing
  {
    JoinedWidth(arts, row, width, spacing);
    LayoutRowVisible(arts, row, width, spacing);
  }

  /** The joined shown parts are the columns plus the gaps wide. */
  lemma JoinedWidth(arts: seq<seq<string>>, row: nat, width: nat, spacing: nat)
    requires |arts| >= 1
    requires forall i :: 0 <= i < |arts| ==> VisibleLen(ArtLine(arts[i], row)) <= width
    ensures |Join(Spaces(spacing), ShownParts(arts, row, width))| == |arts| * width + (|arts| - 1) * spacing
  {
    ShownWidth(arts, row, width);
    JoinLength(Spaces(spacing), ShownParts(arts, row, width), width);
  }

  /** Each art's part fills exactly the column when its line is no wider. */
  lemma ShownWidth(arts: seq<seq<string>>, row: nat, width: nat)
    requires forall i :: 0 <= i < |arts| ==> VisibleLen(ArtLine(arts[i], row)) <= width
    ensures |ShownParts(arts, row, width)| == |arts|
    ensures forall i :: 0 <= i < |arts| ==> |ShownParts(arts, row, width)[i]| == width
  {
    forall i | 0 <= i < |arts| ensures |ShownPart(arts[i], row, width)| == width {
      var line := ArtLine(arts[i], row);
      assert |VisibleText(line)| == VisibleLen(line);
    }
  }

  /** The length of the longest sequence, and 0 for none: `max(len(art) for art in
      arts)` and the widest parsed line. */
  function MaxLength<T>(xs: seq<seq<T>>): (m: nat)
    ensures forall i :: 0 <= i < |xs| ==> |xs[i]| <= m
    ensures |xs| == 0 ==> m == 0
    ensures |xs| > 0 ==> exists i :: 0 <= i < |xs| && |xs[i]| == m
  {
    if |xs| == 0 then 0
    else
      var m := MaxLength(xs[..|xs| - 1]);
      assert forall i :: 0 <= i < |xs| - 1 ==> xs[..|xs| - 1][i] == xs[i];
      if m < |xs[|xs| - 1]| then |xs[|xs| - 1]| else m
  }

  /** `all_lines`: one screen row per row of the tallest art, each showing the arts'
      padded lines side by side. */
  function BuildLines(arts: seq<seq<string>>, width: int, spacing: int): (lines: seq<string>)
    ensures |lines| == MaxLength(arts)
    ensures forall row :: 0 <= row < |lines| ==> (VisibleText(lines[row])
      == Join(Spaces(spacing), ShownParts(arts, row, width)))
  {
    EveryRowVisible(arts, width, spacing);
    seq(MaxLength(arts), row requires 0 <= row < MaxLength(arts) => LayoutRow(arts, row, width, spacing))
  }

  /** Every screen row shows the arts' padded lines side by side. */
  lemma EveryRowVisible(arts: seq<seq<string>>, width: int, spacing: int)
    ensures forall row: nat :: (VisibleText(LayoutRow(arts, row, width, spacing))
      == Join(Spaces(spacing), ShownParts(arts, row, width)))
  {
    forall row: nat
      ensures VisibleText(LayoutRow(arts, row, width, spacing)) == Join(Spaces(spacing), ShownParts(arts, row, width))
    {
      LayoutRowVisible(arts, row, width, spacing);
    }
  }

  // ---------------------------------------------------------------------------
  // The name line
  // ---------------------------------------------------------------------------

  /** A shown character: its name and the main colour of its palette. */
  datatype Subject = Subject(name: string, main: Rgb)

  /** A name in the subject's main colour, upper-cased and centred in the column. */
  function NameLabel(s: Subject, width: int): string {
    RgbToAnsi(s.main) + Center(Upper(s.name), width) + Reset()
  }

  /** The labels of the name line, one per subject. */
  function NameLabels(subjects: seq<Subject>, width: int): seq<string>
  {
    seq(|subjects|, i requires 0 <= i < |subjects| => NameLabel(subjects[i], width))
  }

  /** `name_line`. */
  function NameLine(subjects: seq<Subject>, width: int, spacing: int): string {
    BgAnsi() + Join(Spaces(spacing), NameLabels(subjects, width)) + Reset()
  }

  /** The names as they appear in the columns. */
  function CenteredNames(subjects: seq<Subject>, width: int): seq<string>
  {
    seq(|subjects|, i requires 0 <= i < |subjects| => Center(Upper(subjects[i].name), width))
  }

  /** Upper-casing and centring keep a name free of escapes. */
  lemma CenteredPlain(name: string, width: int)
    requires Plain(name)
    ensures Plain(Center(Upper(name), width))
  {
    var u := Upper(name);
    var r := Center(u, width);
    forall i | 0 <= i < |r| ensures r[i] != Esc {
      if width > |u| {
        var left := CenterLeft(|u|, width);
        if left <= i < left + |u| {
          assert r[i] == r[left..left + |u|][i - left];
        }
      }
    }
  }

  /** A label shows its centred name and leaves no run open. */
  lemma LabelVisible(s: Subject, width: int)
    requires Plain(s.name)
    ensures VisibleText(NameLabel(s, width)) == Center(Upper(s.name), width)
    ensures Closed(NameLabel(s, width))
  {
    var c := Center(Upper(s.name), width);
    CenteredPlain(s.name, width);
    PlainVisible(c);
    Enclosed(RgbToAnsi(s.main), c, Reset());
  }

  /** Every label is closed and shows its centred name. */
  lemma LabelsVisible(subjects: seq<Subject>, width: int)
    requires forall i :: 0 <= i < |subjects| ==> Plain(subjects[i].name)
    ensures forall i :: 0 <= i < |subjects| ==> Closed(NameLabels(subjects, width)[i])
    ensures VisibleParts(NameLabels(subjects, width)) == CenteredNames(subjects, width)
  {
    var labels := NameLabels(subjects, width);
    forall i | 0 <= i < |labels|
      ensures Closed(labels[i]) && VisibleText(labels[i]) == Center(Upper(subjects[i].name), width)
    {
      LabelVisible(subjects[i], width);
    }
  }

  /** The name line shows the centred upper-cased names, `spacing` spaces apart. */
  lemma NameLineVisible(subjects: seq<Subject>, width: int, spacing: int)
    requires forall i :: 0 <= i < |subjects| ==> Plain(subjects[i].name)
    ensures VisibleText(NameLine(subjects, width, spacing)) == Join(Spaces(spacing), CenteredNames(subjects, width))
  {
    var labels := NameLabels(subjects, width);
    var sep := Spaces(spacing);
    LabelsVisible(subjects, width);
    PlainVisible(sep);
    JoinVisible(sep, labels);
    var joined := Join(sep, labels);
    Enclosed(BgAnsi(), joined, Reset());
  }
}
