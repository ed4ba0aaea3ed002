/** The output of `print_side_by_side`: either the built lines printed one after the
    other, or the column-by-column reveal, which reserves the block with blank lines,
    moves back up, redraws every row one visible character wider per column between
    a cursor save and restore, and finally moves below the block.

    The output is a sequence of terminal commands. A small cursor model gives them a
    meaning: where each emitted text lands (row relative to the top of the block, and
    column), and therefore what every row shows once the output is complete. */
module Reveal {
  import opened Wrappers
  import opened Strings
  import opened Ansi
  import opened Sgr
  import opened Layout

  // ---------------------------------------------------------------------------
  // Commands and the cursor model
  // ---------------------------------------------------------------------------

  /** One piece of output: text, a line feed, a carriage return, a cursor move up or
      down (`ESC[nA`, `ESC[nB`), or a cursor save or restore (`ESC[s`, `ESC[u`). */
  datatype Cmd = Emit(text: string) | Newline | Return | Up(n: nat) | Down(n: nat) | Save | Restore

  /** A text written with the cursor at `row`, `col`. */
  datatype Placed = Placed(row: int, col: int, text: string)

  /** The cursor, the saved cursor and everything written so far. */
  datatype Term = Term(row: int, col: int, savedRow: int, savedCol: int, writes: seq<Placed>)

  /** The cursor at the top-left of the block, before anything is written. */
  const Origin: Term := Term(0, 0, 0, 0, [])

  /** The effect of one command; emitted text moves the cursor by its visible width. */
  function Apply(t: Term, c: Cmd): Term {
    match c
    case Emit(s) => t.(writes := t.writes + [Placed(t.row, t.col, s)], col := t.col + |VisibleText(s)|)
    case Newline => t.(row := t.row + 1, col := 0)
    case Return => t.(col := 0)
    case Up(n) => t.(row := t.row - n)
    case Down(n) => t.(row := t.row + n)
    case Save => t.(savedRow := t.row, savedCol := t.col)
    case Restore => t.(row := t.savedRow, col := t.savedCol)
  }

  /** The effect of a command sequence. */
  function Run(t: Term, cs: seq<Cmd>): Term
    decreases |cs|
  {
    if |cs| == 0 then t else Run(Apply(t, cs[0]), cs[1..])
  }

  lemma {:induction false} RunAppend(t: Term, a: seq<Cmd>, b: seq<Cmd>)
    ensures Run(t, a + b) == Run(Run(t, a), b)
    decreases |a|
  {
    if |a| == 0 {
      assert a + b == b;
    } else {
      assert (a + b)[0] == a[0];
      assert (a + b)[1..] == a[1..] + b;
      RunAppend(Apply(t, a[0]), a[1..], b);
    }
  }

  /** The text last written at the start of row `r`: what the row finally shows when
      each write there is at least as wide as the ones before it. */
  function Final(ws: seq<Placed>, r: int): (f: Option<string>)
    ensures f.None? <==> forall i :: 0 <= i < |ws| ==> ws[i].row != r
  {
    if |ws| == 0 then None
    else if ws[|ws| - 1].row == r then Some(ws[|ws| - 1].text)
    else
      var f := Final(ws[..|ws| - 1], r);
      assert forall i :: 0 <= i < |ws| - 1 ==> ws[..|ws| - 1][i] == ws[i];
      f
  }

  /** Later writes hide earlier ones. */
  lemma {:induction false} FinalAppend(a: seq<Placed>, b: seq<Placed>, r: int)
    ensures Final(a + b, r) == if Final(b, r).Some? then Final(b, r) else Final(a, r)
    decreases |b|
  {
    if |b| == 0 {
      assert a + b == a;
    } else {
      var b' := b[..|b| - 1];
      assert (a + b)[..|a + b| - 1] == a + b';
      FinalAppend(a, b', r);
    }
  }

  // ---------------------------------------------------------------------------
  // Printing lines
  // ---------------------------------------------------------------------------

  /** `print(line)` for each line. */
  function PrintLines(ls: seq<string>): (cs: seq<Cmd>)
    ensures |cs| == 2 * |ls|
  {
    if |ls| == 0 then [] else PrintLines(ls[..|ls| - 1]) + [Emit(ls[|ls| - 1]), Newline]
  }

  /** The lines placed on consecutive rows from `top`. */
  function LineWrites(top: int, ls: seq<string>): seq<Placed>
  {
    seq(|ls|, i requires 0 <= i < |ls| => Placed(top + i, 0, ls[i]))
  }

  /** Printed lines land on consecutive rows and leave the cursor on the row below. */
  lemma {:induction false} PrintLinesRun(t: Term, ls: seq<string>)
    requires t.col == 0
    ensures Run(t, PrintLines(ls)) == t.(row := t.row + |ls|, writes := t.writes + LineWrites(t.row, ls))
    decreases |ls|
  {
    if |ls| == 0 {
      assert t.writes + LineWrites(t.row, ls) == t.writes;
    } else {
      var init := ls[..|ls| - 1];
      var last := ls[|ls| - 1];
      PrintLinesRun(t, init);
      RunAppend(t, PrintLines(init), [Emit(last), Newline]);
      var u := Run(t, PrintLines(init));
      assert Run(u, [Emit(last), Newline]) == Run(Apply(Apply(u, Emit(last)), Newline), []);
      assert LineWrites(t.row, ls) == LineWrites(t.row, init) + [Placed(t.row + |init|, 0, last)];
    }
  }

  /** What consecutive lines leave on each row. */
  lemma FinalLines(top: int, ls: seq<string>, r: int)
    ensures Final(LineWrites(top, ls), r) == if top <= r < top + |ls| then Some(ls[r - top]) else None
  {
    var ws := LineWrites(top, ls);
    if top <= r < top + |ls| {
      FinalLast(ws, r - top, r);
    }
  }

  /** The last write to a row decides it when the writes after it go elsewhere. */
  lemma FinalLast(ws: seq<Placed>, k: nat, r: int)
    requires k < |ws| && ws[k].row == r
    requires forall i :: k < i < |ws| ==> ws[i].row != r
    ensures Final(ws, r) == Some(ws[k].text)
  {
    assert ws == ws[..k + 1] + ws[k + 1..];
    FinalAppend(ws[..k + 1], ws[k + 1..], r);
    assert ws[..k + 1][..k] == ws[..k];
  }

  // ---------------------------------------------------------------------------
  // Frames
  // ---------------------------------------------------------------------------

  /** The frame loop `for i in range(n): if i < len(chars): output += ansi + char`. */
  function Revealed(ps: seq<Pair>, n: nat): string {
    if n == 0 then [] else Revealed(ps, n - 1) + (if n - 1 < |ps| then ps[n - 1].prefix + [ps[n - 1].ch] else [])
  }

  /** The loop re-joins the first `min(n, len(chars))` pairs. */
  lemma {:induction false} RevealedRejoins(ps: seq<Pair>, n: nat)
    ensures Revealed(ps, n) == Rejoin(ps[..if n < |ps| then n else |ps|])
    decreases n
  {
    if n > 0 {
      RevealedRejoins(ps, n - 1);
      if n - 1 < |ps| {
        assert ps[..n][..n - 1] == ps[..n - 1];
      }
    }
  }

  /** The row drawn at column `col`. */
  function Frame(ps: seq<Pair>, col: nat): string {
    BgAnsi() + Revealed(ps, col + 1) + Reset()
  }

  /** A frame shows exactly the first `min(col + 1, len)` pairs of the parsed row. */
  lemma FrameShows(ps: seq<Pair>, col: nat)
    requires Tagged(ps)
    ensures VisibleChars(Frame(ps, col)) == ps[..if col + 1 < |ps| then col + 1 else |ps|]
  {
    var k := if col + 1 < |ps| then col + 1 else |ps|;
    var shown := ps[..k];
    RevealedRejoins(ps, col + 1);
    var body := Revealed(ps, col + 1);
    assert body == Rejoin(shown);
    assert Frame(ps, col) == BgAnsi() + Rejoin(shown) + Reset();
    assert Tagged(shown) by {
      forall i | 0 <= i < |shown| ensures shown[i].ch != Esc && IsRun(shown[i].prefix) {
        assert shown[i] == ps[i];
      }
    }
    FramedRejoin(BgAnsi(), shown, Reset());
  }

  /** From the column of the row's last pair on, the frame shows the whole row. */
  lemma FullFrame(ps: seq<Pair>, col: nat)
    requires Tagged(ps) && |ps| <= col + 1
    ensures VisibleChars(Frame(ps, col)) == ps
  {
    FrameShows(ps, col);
    assert ps[..|ps|] == ps;
  }

  // ---------------------------------------------------------------------------
  // One column of the reveal
  // ---------------------------------------------------------------------------

  /** The commands drawing the first `k` rows of a column: for each row, back to the
      left edge, its text, and one row down unless it is the last row. */
  function RowsCmds(frames: seq<string>, k: nat): seq<Cmd>
    requires k <= |frames|
  {
    if k == 0 then []
    else RowsCmds(frames, k - 1) + [Return, Emit(frames[k - 1])] + (if k - 1 < |frames| - 1 then [Down(1)] else [])
  }

  /** Where the cursor is after the first `k` rows of a column. */
  function RowAfter(n: nat, k: nat): nat {
    if k == 0 then 0 else if k < n then k else k - 1
  }

  /** Drawing the rows of a column from its top puts row `i`'s text at the left edge
      of row `i`. */
  lemma {:induction false} RowsRun(t: Term, frames: seq<string>, k: nat)
    requires t.row == 0 && k <= |frames|
    ensures var u := Run(t, RowsCmds(frames, k));
      && u.writes == t.writes + LineWrites(0, frames[..k])
      && u.row == RowAfter(|frames|, k)
      && u.savedRow == t.savedRow && u.savedCol == t.savedCol
    decreases k
  {
    if k == 0 {
      assert t.writes + LineWrites(0, frames[..k]) == t.writes;
    } else {
      var before := RowsCmds(frames, k - 1);
      var down := k - 1 < |frames| - 1;
      var step := [Return, Emit(frames[k - 1])] + (if down then [Down(1)] else []);
      assert RowsCmds(frames, k) == before + step;
      RowsRun(t, frames, k - 1);
      var u := Run(t, before);
      RunAppend(t, before, step);
      LineStepRun(u, frames[k - 1], down);
      LineWritesSnoc(frames, k);
      Assoc(t.writes, LineWrites(0, frames[..k - 1]), [Placed(k - 1, 0, frames[k - 1])]);
    }
  }

  /** The rows drawn so far grow by the next row's write. */
  lemma LineWritesSnoc(frames: seq<string>, k: nat)
    requires 0 < k <= |frames|
    ensures LineWrites(0, frames[..k]) == LineWrites(0, frames[..k - 1]) + [Placed(k - 1, 0, frames[k - 1])]
  {
    assert LineWrites(0, frames[..k]) == LineWrites(0, frames[..k - 1]) + [Placed(k - 1, 0, frames[k - 1])];
  }

  /** A text at the left edge of the current row, optionally followed by one row down. */
  lemma LineStepRun(u: Term, text: string, down: bool)
    ensures var v := Run(u, [Return, Emit(text)] + (if down then [Down(1)] else []));
      && v.writes == u.writes + [Placed(u.row, 0, text)]
      && v.row == (if down then u.row + 1 else u.row)
      && v.savedRow == u.savedRow && v.savedCol == u.savedCol
  {
    var draw: seq<Cmd> := [Return, Emit(text)];
    DrawRun(u, text);
    var w := Run(u, draw);
    if down {
      var step: seq<Cmd> := [Down(1)];
      RunAppend(u, draw, step);
      RunOne(w, Down(1));
    } else {
      assert draw + [] == draw;
    }
  }

  lemma RunOne(t: Term, c: Cmd)
    ensures Run(t, [c]) == Apply(t, c)
  {
    assert [c][1..] == [];
  }

  /** A carriage return and a text: the text lands at the left edge of the row. */
  lemma DrawRun(t: Term, text: string)
    ensures Run(t, [Return, Emit(text)])
      == t.(col := |VisibleText(text)|, writes := t.writes + [Placed(t.row, 0, text)])
  {
    var cs: seq<Cmd> := [Return, Emit(text)];
    assert cs[1..] == [Emit(text)];
    RunOne(Apply(t, Return), Emit(text));
  }

  /** The row the name frames land on: one below the last art row, so row 1 when
      there are no art rows at all. */
  function NameRow(n: nat): nat {
    if n == 0 then 1 else n
  }

  /** What one iteration of the reveal loop draws: a text for every art row, and the
      name text. */
  datatype Pass = Pass(frames: seq<string>, nameText: string)

  /** The commands of one iteration. */
  function PassCmds(p: Pass): seq<Cmd> {
    [Save] + RowsCmds(p.frames, |p.frames|) + [Down(1), Return, Emit(p.nameText), Restore]
  }

  /** What one iteration writes. */
  function PassWrites(p: Pass): seq<Placed> {
    LineWrites(0, p.frames) + [Placed(NameRow(|p.frames|), 0, p.nameText)]
  }

  /** An iteration draws every row's text and the name text at the left edge of their
      rows, and puts the cursor back where it started. */
  lemma PassRun(t: Term, p: Pass)
    requires t.row == 0 && t.col == 0
    ensures Run(t, PassCmds(p)) == t.(savedRow := 0, savedCol := 0, writes := t.writes + PassWrites(p))
  {
    var front := [Save] + RowsCmds(p.frames, |p.frames|);
    var tail: seq<Cmd> := [Down(1), Return, Emit(p.nameText), Restore];
    assert PassCmds(p) == front + tail;
    RunAppend(t, front, tail);
    SaveRowsRun(t, p.frames);
    NameTailRun(Run(t, front), p.nameText);
  }

  /** Saving the cursor and drawing the rows of a column from its top. */
  lemma SaveRowsRun(t: Term, frames: seq<string>)
    requires t.row == 0 && t.col == 0
    ensures var u := Run(t, [Save] + RowsCmds(frames, |frames|));
      && u.writes == t.writes + LineWrites(0, frames)
      && u.row + 1 == NameRow(|frames|)
      && u.savedRow == 0 && u.savedCol == 0
  {
    var save: seq<Cmd> := [Save];
    var rows := RowsCmds(frames, |frames|);
    RunAppend(t, save, rows);
    RunOne(t, Save);
    RowsRun(Apply(t, Save), frames, |frames|);
    assert frames[..|frames|] == frames;
  }

  /** One row down, the name text at the left edge, and back to the saved cursor. */
  lemma NameTailRun(u: Term, text: string)
    ensures Run(u, [Down(1), Return, Emit(text), Restore])
      == u.(row := u.savedRow, col := u.savedCol, writes := u.writes + [Placed(u.row + 1, 0, text)])
  {
    var down: seq<Cmd> := [Down(1)];
    var draw: seq<Cmd> := [Return, Emit(text)];
    var restore: seq<Cmd> := [Restore];
    assert [Down(1), Return, Emit(text), Restore] == down + draw + restore;
    RunAppend(u, down + draw, restore);
    RunAppend(u, down, draw);
    RunOne(u, Down(1));
    DrawRun(Apply(u, Down(1)), text);
    RunOne(Run(Apply(u, Down(1)), draw), Restore);
  }

  /** The reveal loop over a sequence of iterations. */
  function PassesCmds(plan: seq<Pass>): seq<Cmd> {
    if |plan| == 0 then [] else PassesCmds(plan[..|plan| - 1]) + PassCmds(plan[|plan| - 1])
  }

  /** What the loop writes. */
  function PassesWrites(plan: seq<Pass>): seq<Placed> {
    if |plan| == 0 then [] else PassesWrites(plan[..|plan| - 1]) + PassWrites(plan[|plan| - 1])
  }

  /** The loop, started at the top-left corner of the block, leaves the cursor there
      and only adds the iterations' writes. */
  lemma {:induction false} PassesRun(t: Term, plan: seq<Pass>)
    requires t.row == 0 && t.col == 0 && t.savedRow == 0 && t.savedCol == 0
    ensures Run(t, PassesCmds(plan)) == t.(writes := t.writes + PassesWrites(plan))
    decreases |plan|
  {
    if |plan| == 0 {
      assert t.writes + [] == t.writes;
    } else {
      var before := plan[..|plan| - 1];
      var last := plan[|plan| - 1];
      PassesSnoc(plan);
      PassesRun(t, before);
      RunAppend(t, PassesCmds(before), PassCmds(last));
      PassRun(t.(writes := t.writes + PassesWrites(before)), last);
      Assoc(t.writes, PassesWrites(before), PassWrites(last));
    }
  }

  /** The loop's commands and writes end with those of its last iteration. */
  lemma PassesSnoc(plan: seq<Pass>)
    requires |plan| > 0
    ensures PassesCmds(plan) == PassesCmds(plan[..|plan| - 1]) + PassCmds(plan[|plan| - 1])
    ensures PassesWrites(plan) == PassesWrites(plan[..|plan| - 1]) + PassWrites(plan[|plan| - 1])
  {
  }

  /** What one iteration leaves on row `r`. */
  lemma FinalPass(p: Pass, r: int)
    ensures Final(PassWrites(p), r)
      == if 0 <= r < |p.frames| then Some(p.frames[r])
         else if r == NameRow(|p.frames|) then Some(p.nameText)
         else None
  {
    var last: seq<Placed> := [Placed(NameRow(|p.frames|), 0, p.nameText)];
    FinalAppend(LineWrites(0, p.frames), last, r);
    FinalLines(0, p.frames, r);
  }

  /** When every iteration draws the same rows, each row finally shows what the last
      iteration drew there. */
  lemma {:induction false} FinalPasses(plan: seq<Pass>, n: nat, r: int)
    requires forall i :: 0 <= i < |plan| ==> |plan[i].frames| == n
    ensures Final(PassesWrites(plan), r) == if |plan| == 0 then None else Final(PassWrites(plan[|plan| - 1]), r)
    decreases |plan|
  {
    if |plan| > 0 {
      var before := plan[..|plan| - 1];
      var last := plan[|plan| - 1];
      FinalPasses(before, n, r);
      FinalAppend(PassesWrites(before), PassWrites(last), r);
      FinalPass(last, r);
      if |before| > 0 {
        FinalPass(before[|before| - 1], r);
      }
    }
  }

  /** Every row's frame at column `col`. */
  function RowFrames(parsed: seq<seq<Pair>>, col: nat): seq<string>
  {
    seq(|parsed|, i requires 0 <= i < |parsed| => Frame(parsed[i], col))
  }

  /** The iterations for columns `0 .. width - 1`. */
  function Plan(parsed: seq<seq<Pair>>, name: seq<Pair>, width: nat): seq<Pass>
  {
    seq(width, col requires 0 <= col < width => Pass(RowFrames(parsed, col), Frame(name, col)))
  }

  // ---------------------------------------------------------------------------
  // The whole output
  // ---------------------------------------------------------------------------

  /** `parsed_lines`. */
  function Parsed(lines: seq<string>): seq<seq<Pair>>
  {
    seq(|lines|, i requires 0 <= i < |lines| => VisibleChars(lines[i]))
  }

  /** `max_width`: the widest parsed line, or the name line if it is wider. */
  function MaxWidth(parsed: seq<seq<Pair>>, name: seq<Pair>): (w: nat)
    ensures forall i :: 0 <= i < |parsed| ==> |parsed[i]| <= w
    ensures |name| <= w
    ensures w == |name| || exists i :: 0 <= i < |parsed| && w == |parsed[i]|
  {
    var m := MaxLength(parsed);
    if m < |name| then |name| else m
  }

  /** A reserved blank line. */
  function Blank(width: nat): string {
    BgAnsi() + Spaces(width) + Reset()
  }

  /** The animation's commands: `numLines` copies of `blank` to reserve the block, up
      to its top, the reveal loop, and down below the block. */
  function RevealCmds(blank: string, numLines: nat, plan: seq<Pass>): seq<Cmd> {
    PrintLines(Copies(blank, numLines)) + [Up(numLines)] + PassesCmds(plan) + [Down(numLines)]
  }

  /** The reveal of parsed rows and a parsed name, as wide as the widest of them. */
  function Reveal(parsed: seq<seq<Pair>>, name: seq<Pair>): seq<Cmd> {
    var width := MaxWidth(parsed, name);
    RevealCmds(Blank(width), |parsed| + 1, Plan(parsed, name, width))
  }

  /** The animated output of `lines` and the name line. */
  function Animation(lines: seq<string>, nameLine: string): seq<Cmd> {
    Reveal(Parsed(lines), VisibleChars(nameLine))
  }

  /** The output without animation: the lines, then the name line. */
  function Static(lines: seq<string>, nameLine: string): seq<Cmd> {
    PrintLines(lines + [nameLine])
  }

  /** `print_side_by_side`: nothing for no arts, otherwise the lines built from the arts
      and the name line, printed or revealed. */
  function PrintSideBySide(arts: seq<seq<string>>, subjects: seq<Subject>, width: int, spacing: int, animate: bool): (cs: seq<Cmd>)
    ensures |arts| == 0 <==> cs == []
  {
    if |arts| == 0 then []
    else
      var lines := BuildLines(arts, width, spacing);
      var nameLine := NameLine(subjects, width, spacing);
      if animate then Animation(lines, nameLine) else Static(lines, nameLine)
  }

  /** An empty blank line shows nothing. */
  lemma EmptyBlank()
    ensures VisibleChars(Blank(0)) == []
  {
    assert Spaces(0) == Rejoin([]);
    FramedRejoin(BgAnsi(), [], Reset());
  }

  /** The whole animation: the blank lines reserve the block, the reveal loop runs
      from its top-left corner, and the cursor ends at the left edge of the row below
      the block. */
  lemma RevealRun(blank: string, numLines: nat, plan: seq<Pass>)
    ensures Run(Origin, RevealCmds(blank, numLines, plan))
      == Term(numLines, 0, 0, 0, LineWrites(0, Copies(blank, numLines)) + PassesWrites(plan))
  {
    var reserve := PrintLines(Copies(blank, numLines)) + [Up(numLines)];
    var loop := PassesCmds(plan) + [Down(numLines)];
    assert RevealCmds(blank, numLines, plan) == reserve + loop;
    RunAppend(Origin, reserve, loop);
    ReserveRun(blank, numLines);
    LoopRun(Term(0, 0, 0, 0, LineWrites(0, Copies(blank, numLines))), plan, numLines);
  }

  /** Reserving the block and going back up leaves the cursor at its top-left corner. */
  lemma ReserveRun(blank: string, numLines: nat)
    ensures Run(Origin, PrintLines(Copies(blank, numLines)) + [Up(numLines)])
      == Term(0, 0, 0, 0, LineWrites(0, Copies(blank, numLines)))
  {
    var ls := Copies(blank, numLines);
    RunAppend(Origin, PrintLines(ls), [Up(numLines)]);
    PrintedState(ls);
    RunOne(Term(numLines, 0, 0, 0, LineWrites(0, ls)), Up(numLines));
  }

  /** The reveal loop from the top-left corner, then down below the block. */
  lemma LoopRun(t: Term, plan: seq<Pass>, numLines: nat)
    requires t.row == 0 && t.col == 0 && t.savedRow == 0 && t.savedCol == 0
    ensures Run(t, PassesCmds(plan) + [Down(numLines)])
      == t.(row := numLines, writes := t.writes + PassesWrites(plan))
  {
    RunAppend(t, PassesCmds(plan), [Down(numLines)]);
    PassesRun(t, plan);
    RunOne(t.(writes := t.writes + PassesWrites(plan)), Down(numLines));
  }

  /** What the animation leaves on row `r` of a block of `n` art rows and the name
      row: what the last iteration drew there, or the blank line where no iteration
      drew anything. */
  lemma RevealFinal(blank: string, n: nat, plan: seq<Pass>, r: int)
    requires forall i :: 0 <= i < |plan| ==> |plan[i].frames| == n
    ensures Final(Run(Origin, RevealCmds(blank, n + 1, plan)).writes, r)
      == if |plan| > 0 && 0 <= r < n then Some(plan[|plan| - 1].frames[r])
         else if |plan| > 0 && r == NameRow(n) then Some(plan[|plan| - 1].nameText)
         else if 0 <= r <= n then Some(blank)
         else None
  {
    var blanks := LineWrites(0, Copies(blank, n + 1));
    RevealRun(blank, n + 1, plan);
    FinalAppend(blanks, PassesWrites(plan), r);
    FinalLines(0, Copies(blank, n + 1), r);
    FinalPasses(plan, n, r);
    if |plan| > 0 {
      FinalPass(plan[|plan| - 1], r);
    }
  }

  /** Every iteration of the plan draws one frame per art row. */
  lemma PlanShape(parsed: seq<seq<Pair>>, name: seq<Pair>, width: nat)
    ensures |Plan(parsed, name, width)| == width
    ensures var plan := Plan(parsed, name, width);
      forall i :: 0 <= i < |plan| ==> |plan[i].frames| == |parsed|
  {
  }

  /** The last iteration draws the frames for the last column. */
  lemma LastPass(parsed: seq<seq<Pair>>, name: seq<Pair>, width: nat)
    requires width > 0
    ensures var last := Plan(parsed, name, width)[width - 1];
      && last.nameText == Frame(name, width - 1)
      && |last.frames| == |parsed|
      && forall r :: 0 <= r < |parsed| ==> last.frames[r] == Frame(parsed[r], width - 1)
  {
  }

  /** The picture the animation should leave on row `r`: with at least one column,
      each art row and the name row show their frame for the last column; every other
      row of the reserved block keeps its blank line; rows outside the block are
      untouched. */
  function Picture(parsed: seq<seq<Pair>>, name: seq<Pair>, width: nat, r: int): Option<string> {
    if width > 0 && 0 <= r < |parsed| then Some(Frame(parsed[r], width - 1))
    else if width > 0 && r == NameRow(|parsed|) then Some(Frame(name, width - 1))
    else if 0 <= r <= |parsed| then Some(Blank(width))
    else None
  }

  /** The reveal of parsed rows and a parsed name leaves the picture. */
  lemma PlanFinal(parsed: seq<seq<Pair>>, name: seq<Pair>, width: nat, r: int)
    ensures Final(Run(Origin, RevealCmds(Blank(width), |parsed| + 1, Plan(parsed, name, width))).writes, r)
      == Picture(parsed, name, width, r)
  {
    PlanShape(parsed, name, width);
    if width > 0 {
      LastPass(parsed, name, width);
    }
    ShapedPlanFinal(parsed, name, width, Plan(parsed, name, width), r);
  }

  /** Any plan of `width` iterations, one frame per row in each, whose last iteration
      draws the last column's frames, leaves the picture. */
  lemma ShapedPlanFinal(parsed: seq<seq<Pair>>, name: seq<Pair>, width: nat, plan: seq<Pass>, r: int)
    requires |plan| == width
    requires forall i :: 0 <= i < |plan| ==> |plan[i].frames| == |parsed|
    requires width > 0 ==> plan[width - 1].nameText == Frame(name, width - 1)
    requires width > 0 ==> forall k :: 0 <= k < |parsed| ==> plan[width - 1].frames[k] == Frame(parsed[k], width - 1)
    ensures Final(Run(Origin, RevealCmds(Blank(width), |parsed| + 1, plan)).writes, r)
      == Picture(parsed, name, width, r)
  {
    RevealFinal(Blank(width), |parsed|, plan, r);
    if width > 0 {
      var last := plan[width - 1];
      assert plan[|plan| - 1] == last;
      if 0 <= r < |parsed| {
        assert last.frames[r] == Frame(parsed[r], width - 1);
      }
    }
  }

  /** The animation of `lines` leaves the picture of its parsed lines and name. */
  lemma AnimationFinal(lines: seq<string>, nameLine: string, r: int)
    ensures var parsed := Parsed(lines);
      var name := VisibleChars(nameLine);
      Final(Run(Origin, Animation(lines, nameLine)).writes, r) == Picture(parsed, name, MaxWidth(parsed, name), r)
  {
    RevealPicture(Parsed(lines), VisibleChars(nameLine), r);
  }

  /** The reveal at the widest width leaves the picture at that width. */
  lemma RevealPicture(parsed: seq<seq<Pair>>, name: seq<Pair>, r: int)
    ensures Final(Run(Origin, Reveal(parsed, name)).writes, r) == Picture(parsed, name, MaxWidth(parsed, name), r)
  {
    PlanFinal(parsed, name, MaxWidth(parsed, name), r);
  }

  /** Once the animation is over, every art row shows exactly the visible characters of
      its built line. */
  lemma AnimationShowsRow(lines: seq<string>, nameLine: string, r: int)
    requires 0 <= r < |lines|
    requires Tagged(VisibleChars(lines[r]))
    ensures var f := Final(Run(Origin, Animation(lines, nameLine)).writes, r);
      f.Some? && VisibleChars(f.value) == VisibleChars(lines[r])
  {
    AnimationFinal(lines, nameLine, r);
    RowPicture(Parsed(lines), VisibleChars(nameLine), r);
  }

  /** In the picture at the widest width, an art row shows its whole parsed row. */
  lemma RowPicture(parsed: seq<seq<Pair>>, name: seq<Pair>, r: int)
    requires 0 <= r < |parsed| && Tagged(parsed[r])
    ensures var f := Picture(parsed, name, MaxWidth(parsed, name), r);
      f.Some? && VisibleChars(f.value) == parsed[r]
  {
    var width := MaxWidth(parsed, name);
    if width == 0 {
      EmptyBlank();
    } else {
      FullFrame(parsed[r], width - 1);
    }
  }

  /** Once the animation is over, the name row shows exactly the visible characters of
      the name line; it is the row below the last art row, or row 1 when there are no
      art rows. */
  lemma AnimationShowsName(lines: seq<string>, nameLine: string)
    requires Tagged(VisibleChars(nameLine))
    requires |lines| >= 1 || |VisibleChars(nameLine)| >= 1
    ensures var f := Final(Run(Origin, Animation(lines, nameLine)).writes, NameRow(|lines|));
      f.Some? && VisibleChars(f.value) == VisibleChars(nameLine)
  {
    AnimationFinal(lines, nameLine, NameRow(|lines|));
    NamePicture(Parsed(lines), VisibleChars(nameLine));
  }

  /** With nothing to reveal, the name row keeps its empty blank line. */
  lemma BlankNamePicture(parsed: seq<seq<Pair>>, name: seq<Pair>)
    requires Tagged(name)
    requires |parsed| >= 1 || |name| >= 1
    requires MaxWidth(parsed, name) == 0
    ensures var f := Picture(parsed, name, MaxWidth(parsed, name), NameRow(|parsed|));
      f.Some? && VisibleChars(f.value) == name
  {
    EmptyBlank();
  }

  /** With at least one column, the name row shows the name's last frame. */
  lemma FramedNamePicture(parsed: seq<seq<Pair>>, name: seq<Pair>)
    requires Tagged(name)
    requires |parsed| >= 1 || |name| >= 1
    requires MaxWidth(parsed, name) > 0
    ensures var f := Picture(parsed, name, MaxWidth(parsed, name), NameRow(|parsed|));
      f.Some? && VisibleChars(f.value) == name
  {
    FullFrame(name, MaxWidth(parsed, name) - 1);
  }

  /** In the picture at the widest width, the name row shows the whole parsed name. */
  lemma NamePicture(parsed: seq<seq<Pair>>, name: seq<Pair>)
    requires Tagged(name)
    requires |parsed| >= 1 || |name| >= 1
    ensures var f := Picture(parsed, name, MaxWidth(parsed, name), NameRow(|parsed|));
      f.Some? && VisibleChars(f.value) == name
  {
    if MaxWidth(parsed, name) == 0 {
      BlankNamePicture(parsed, name);
    } else {
      FramedNamePicture(parsed, name);
    }
  }

  /** Lines printed from the top-left corner: line `r` on row `r`, nothing elsewhere,
      and the cursor at the left edge of the row below them. */
  lemma PrintedFromOrigin(ls: seq<string>, r: int)
    ensures var t := Run(Origin, PrintLines(ls));
      && t.row == |ls| && t.col == 0
      && Final(t.writes, r) == if 0 <= r < |ls| then Some(ls[r]) else None
  {
    PrintedState(ls);
    FinalLines(0, ls, r);
  }

  /** The state after printing lines from the top-left corner. */
  lemma PrintedState(ls: seq<string>)
    ensures Run(Origin, PrintLines(ls)) == Term(|ls|, 0, 0, 0, LineWrites(0, ls))
  {
    var ws := LineWrites(0, ls);
    PrintLinesRun(Origin, ls);
    assert Origin.writes + ws == ws;
  }

  /** The output without animation: every line on its own row, the name line below
      them, and the cursor at the left edge of the next row. */
  lemma StaticRun(lines: seq<string>, nameLine: string, r: int)
    ensures var t := Run(Origin, Static(lines, nameLine));
      && t.row == |lines| + 1 && t.col == 0
      && Final(t.writes, r) == if 0 <= r < |lines| then Some(lines[r]) else if r == |lines| then Some(nameLine) else None
  {
    var all := lines + [nameLine];
    assert Static(lines, nameLine) == PrintLines(all);
    PrintedFromOrigin(all, r);
    if 0 <= r < |lines| {
      assert all[r] == lines[r];
    } else if r == |lines| {
      assert all[r] == nameLine;
    }
  }

  /** The animation ends with the same picture as the plain output: on every art row,
      and on the name row whenever there is at least one art row. */
  lemma AnimationMatchesStatic(lines: seq<string>, nameLine: string, r: int)
    requires 0 <= r <= |lines| && 1 <= |lines|
    requires forall i :: 0 <= i < |lines| ==> Tagged(VisibleChars(lines[i]))
    requires Tagged(VisibleChars(nameLine))
    ensures var a := Final(Run(Origin, Animation(lines, nameLine)).writes, r);
      var s := Final(Run(Origin, Static(lines, nameLine)).writes, r);
      a.Some? && s.Some? && VisibleChars(a.value) == VisibleChars(s.value)
  {
    StaticRun(lines, nameLine, r);
    if r < |lines| {
      AnimationShowsRow(lines, nameLine, r);
    } else {
      AnimationShowsName(lines, nameLine);
    }
  }

  /** With no art rows but a visible name, the animation draws the name one row below
      its one-line reserved block, where the plain output puts it on the block's row. */
  lemma NameBelowEmptyBlock(nameLine: string)
    requires Tagged(VisibleChars(nameLine)) && |VisibleChars(nameLine)| >= 1
    ensures var a := Run(Origin, Animation([], nameLine)).writes;
      && Final(a, 1).Some? && VisibleChars(Final(a, 1).value) == VisibleChars(nameLine)
      && Final(Run(Origin, Static([], nameLine)).writes, 1).None?
  {
    AnimationShowsName([], nameLine);
    StaticRun([], nameLine, 1);
  }

  // ---------------------------------------------------------------------------
  // What the screen shows
  // ---------------------------------------------------------------------------

  /** A line framed by the background run and the reset tags every visible character
      with a complete run. */
  lemma FramedTagged(body: string)
    ensures Tagged(VisibleChars(BgAnsi() + body + Reset()))
  {
    Assoc(BgAnsi(), body, Reset());
    TaggedAfterRun(BgAnsi(), body + Reset());
  }

  /** Once `print_side_by_side` is done, screen row `r` shows the arts' lines padded to
      the column width and `spacing` spaces apart, with or without the animation. */
  lemma SideBySideRow(arts: seq<seq<string>>, subjects: seq<Subject>, width: int, spacing: int, animate: bool, r: nat)
    requires r < MaxLength(arts)
    ensures var f := Final(Run(Origin, PrintSideBySide(arts, subjects, width, spacing, animate)).writes, r);
      f.Some? && VisibleText(f.value) == Join(Spaces(spacing), ShownParts(arts, r, width))
  {
    var lines := BuildLines(arts, width, spacing);
    var nameLine := NameLine(subjects, width, spacing);
    LayoutRowVisible(arts, r, width, spacing);
    if animate {
      FramedTagged(Join(Spaces(spacing), RowParts(arts, r, width)));
      AnimationShowsRow(lines, nameLine, r);
    } else {
      StaticRun(lines, nameLine, r);
    }
  }

  /** Once `print_side_by_side` is done, the name row shows the upper-cased names
      centred in their columns. The animation leaves it empty only when there is no art
      row and the name line has nothing visible. */
  lemma SideBySideName(arts: seq<seq<string>>, subjects: seq<Subject>, width: int, spacing: int, animate: bool)
    requires |arts| >= 1
    requires forall i :: 0 <= i < |subjects| ==> Plain(subjects[i].name)
    ensures var names := Join(Spaces(spacing), CenteredNames(subjects, width));
      var row := if animate then NameRow(MaxLength(arts)) else MaxLength(arts);
      var f := Final(Run(Origin, PrintSideBySide(arts, subjects, width, spacing, animate)).writes, row);
      && (f.Some? <==> !animate || MaxLength(arts) >= 1 || |names| >= 1)
      && (f.Some? ==> VisibleText(f.value) == names)
  {
    var lines := BuildLines(arts, width, spacing);
    var nameLine := NameLine(subjects, width, spacing);
    NameLineVisible(subjects, width, spacing);
    if animate {
      FramedTagged(Join(Spaces(spacing), NameLabels(subjects, width)));
      AnimatedName(lines, nameLine);
    } else {
      StaticRun(lines, nameLine, |lines|);
    }
  }

  /** The animation's name row shows the name line's text, and is left empty only when
      there is neither an art row nor a visible name character. */
  lemma AnimatedName(lines: seq<string>, nameLine: string)
    requires Tagged(VisibleChars(nameLine))
    ensures var f := Final(Run(Origin, Animation(lines, nameLine)).writes, NameRow(|lines|));
      && (f.Some? <==> |lines| >= 1 || |VisibleText(nameLine)| >= 1)
      && (f.Some? ==> VisibleText(f.value) == VisibleText(nameLine))
  {
    if |lines| >= 1 || |VisibleChars(nameLine)| >= 1 {
      AnimationShowsName(lines, nameLine);
    } else {
      AnimationFinal(lines, nameLine, 1);
    }
  }
}
