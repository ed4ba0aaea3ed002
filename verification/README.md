# horizon-gallery: the half-block renderer and the ANSI-aware compositor

This project is a Dafny model of the algorithmic core of `horizon-gallery.py`, a script
that draws character portraits in a terminal. The core has two parts.

The **half-block renderer** (`image_to_halfblock`) turns a resized RGBA image into
coloured text. It does this in four steps:

- It looks at each pair of vertically stacked pixels.
- It decides which of the two is visible (alpha above 30).
- It maps each visible pixel's brightness onto a three-stop colour ramp (dark → main →
  bright, with the knee at 0.3).
- It writes an upper or lower half block, or a background space, preceded by a 24-bit
  SGR colour run.

The **compositor** (`print_side_by_side`) has these pieces:

- It measures art lines by their visible width, ignoring `ESC … m` runs.
- It pads every art's row to the column width and joins the arts side by side.
- It builds a centred, upper-cased name line.
- It prints the lines, or reveals them column by column. The reveal reserves the block
  with blank lines, moves the cursor up, and for each column redraws every row one
  visible character wider between a cursor save and restore. Finally it moves below the
  block.
- The reveal relies on `get_visible_chars`, a small state machine. It splits a line
  into (latest SGR run, visible character) pairs.

Modules, one file each:

| file | module | models |
|---|---|---|
| `wrappers.dfy` | `Wrappers` | `Option` |
| `strings.dfy` | `Strings` | the Python string built-ins used: `*`, `join`, `lstrip`, slicing, `upper`, `center`, `str(int)` |
| `color.dfy` | `Color` | `hex_to_rgb`, `lerp_color`, brightness, the nested `get_color`, the subject's ramp |
| `ansi.dfy` | `Ansi` | `get_visible_chars`, and a run-at-a-time reference reading of a line |
| `sgr.dfy` | `Sgr` | `rgb_to_ansi`, `rgb_to_ansi_bg_only`, the reset run, and a decoder for SGR parameters |
| `halfblock.dfy` | `HalfBlock` | the per-cell logic and the loops of `image_to_halfblock` |
| `layout.dfy` | `Layout` | the inline width counter, padding, `all_lines`, and the name line |
| `reveal.dfy` | `Reveal` | `print_side_by_side`'s output as terminal commands, with a cursor model |

Each operation is paired with an independent partner, and lemmas connect the two:

- `hex_to_rgb` with a reference encoder, `RgbToHex`.
- The SGR runs with a parameter decoder.
- The cell encoder with the colours a terminal paints in each half of a cell.
- The character-at-a-time scanner and the width counter with a reference reading that
  consumes one whole run at a time.
- The reveal's command stream with a cursor model. The cursor model records where each
  text lands and what every row finally shows.

Three facts about the code shape the model:

- **`hex_to_rgb` accepts more than six-digit strings.** It strips every leading `#` and
  reads the slices `[0:2]`, `[2:4]` and `[4:6]`. So five hex digits are accepted (the
  last field is one digit), and characters past the sixth are ignored.
  `Color.HexToRgb` states when parsing succeeds, and `Color.HexValues` states the
  channel values, including the one-digit blue channel of a five-digit entry.
- **There is no braille renderer.** `image_to_braille` only forwards its arguments to
  `image_to_halfblock`, so no dot selection exists to model.
- **The missing-bottom-pixel fallback is unreachable.** Line 101 falls back to a
  transparent bottom pixel, but the image is resized to exactly `2 * height` pixel rows,
  so that branch is never taken. `HalfBlock.CellAt` keeps the branch and states that it
  reads the real pixel.

**Name row when there are no art rows.** Suppose every art has zero rows but the name line
has visible characters:

- The animation reserves a single line.
- It then writes the name one row below it, on row 1 relative to the top of the block.
- The plain output puts the name on row 0.

`Reveal.NameRow` and `Reveal.NameBelowEmptyBlock` state this behaviour as written.

## Model

| member | source | states |
|---|---|---|
| Strings.Repeat | horizon-gallery/horizon-gallery.py:197 | `' ' * n` has `max(0, n)` characters, all spaces |
| Strings.LStrip | horizon-gallery/horizon-gallery.py:48 | `lstrip('#')` removes exactly the leading run of `#`: the result is a suffix, does not start with `#`, and everything removed was `#` |
| Strings.Slice | horizon-gallery/horizon-gallery.py:49 | `s[i:j]` clamps both bounds to the length and keeps the characters in order |
| Strings.Upper | horizon-gallery/horizon-gallery.py:205 | `upper()` keeps the length and maps each ASCII letter to its capital, leaving other characters alone |
| Strings.Center | horizon-gallery/horizon-gallery.py:205 | `center(width)` returns the name unchanged when it is at least `width` long; otherwise the name sits between space margins differing by at most one, for a total of `width` |
| Strings.NatToDecimal | horizon-gallery/horizon-gallery.py:54 | `str(n)` is a non-empty string of decimal digits with no leading zero (it starts with `0` only for n = 0); `Strings.DecimalRoundTrip` pins its value to n |
| Strings.IntToDecimal | horizon-gallery/horizon-gallery.py:54 | `str(i)` starts with `-` exactly for negative `i`, with at least one digit after it; every other character is a digit, and the first digit is `0` only for i = 0 |
| Strings.DecimalRoundTrip | horizon-gallery/horizon-gallery.py:54 | the digits `str(n)` writes denote `n` |
| Color.ParseHex | horizon-gallery/horizon-gallery.py:49 | `int(s, 16)` succeeds exactly on non-empty hex-digit strings; one digit reads as its digit value, two digits `hi lo` read as 16·hi + lo (at most 255) |
| Color.HexToRgb | horizon-gallery/horizon-gallery.py:46-49 | succeeds exactly when, after stripping `#`, at least five characters remain and the first six of them (or all five) are hex digits; every channel is in 0..255 |
| Color.HexValues | horizon-gallery/horizon-gallery.py:46-49 | an entry that parses gives red and green from the digit pairs at offsets 0 and 2 of the `#`-stripped text, and blue from the pair at offset 4, or from the single fifth digit when only five characters remain; nothing past the sixth character matters |
| Color.SixDigitHex | horizon-gallery/horizon-gallery.py:46-49 | a six-digit entry gives each channel as 16·hi + lo of its digit pair, and a leading `#` does not change the result |
| Color.HashIgnored | horizon-gallery/horizon-gallery.py:48 | adding a `#` in front of any string never changes the result |
| Color.HexRoundTrip | horizon-gallery/horizon-gallery.py:46-49 | parsing the reference `#rrggbb` spelling of a valid colour gives that colour back |
| Color.HexNormalises | horizon-gallery/horizon-gallery.py:46-49 | re-encoding a parsed six-digit entry gives its lower-case `#` spelling |
| Color.Trunc | horizon-gallery/horizon-gallery.py:66-68 | `int()` on a number truncates toward zero: it lies within one of its argument, on the side of zero |
| Color.LerpChannel | horizon-gallery/horizon-gallery.py:66-68 | one channel of `lerp_color` is the first endpoint at t = 0 or when both endpoints are equal, and the second at t = 1; for t in [0, 1] it lies between them, for any integer endpoints |
| Color.Lerp | horizon-gallery/horizon-gallery.py:61-69 | `lerp_color(c, c, t) == c`, `lerp_color(c1, c2, 0) == c1`, `lerp_color(c1, c2, 1) == c2`; for t in [0, 1] every channel lies between the endpoints' channels and stays in 0..255 |
| Color.ScaledBetween | horizon-gallery/horizon-gallery.py:66-68 | before truncation, the interpolant lies between the endpoints for t in [0, 1] |
| Color.Brightness | horizon-gallery/horizon-gallery.py:112-113 | `(r + g + b) / 765` lies in [0, 1], is 1 exactly for white, and is 0 exactly for black |
| Color.GetColor | horizon-gallery/horizon-gallery.py:115-120 | brightness 0 gives the dark stop, 0.3 the main stop, and 1 the bright stop; below 0.3 the colour lies between dark and main, from 0.3 to 1 between main and bright, and it is always a valid colour |
| Color.PaletteRamp | horizon-gallery/horizon-gallery.py:81-83 | the three stops exist exactly when the dark entry (or the default) and the two palette entries all parse; the resulting stops are valid colours |
| Color.DefaultDarkStop | horizon-gallery/horizon-gallery.py:81 | the default dark entry `#151a20` is the colour (21, 26, 32) |
| Color.DefaultRamp | horizon-gallery/horizon-gallery.py:81-83 | a subject without a dark entry gets (21, 26, 32) as its dark stop and its palette's two colours as main and bright |
| Sgr.RgbToAnsi | horizon-gallery/horizon-gallery.py:51-54 | `rgb_to_ansi(r, g, b)` is one complete run whose parameters read back as `38;2;r;g;b;48;2;216;212;208` |
| Sgr.BgAnsi | horizon-gallery/horizon-gallery.py:56-59 | `rgb_to_ansi_bg_only()` is one complete run whose parameters read back as `48;2;216;212;208` |
| Sgr.Reset | horizon-gallery/horizon-gallery.py:140 | `\033[0m` is one complete run with the single parameter 0 |
| Sgr.FixedRuns | horizon-gallery/horizon-gallery.py:56-59 | the written-out background and reset runs are the general runs for the theme background and for `[0]` |
| Sgr.IntRoundTrip | horizon-gallery/horizon-gallery.py:54 | the decoder reads `str(i)` back as `i`, for negative `i` as well |
| Sgr.ParamsRoundTrip | horizon-gallery/horizon-gallery.py:54 | a `;`-joined list of decimal numbers reads back as the same numbers |
| Sgr.RunOfParams | horizon-gallery/horizon-gallery.py:51-59 | `ESC [ params m` is a complete run (no inner ESC or `m`) whose parameters read back as the list written |
| Ansi.VisibleTextAppend | horizon-gallery/horizon-gallery.py:156-167 | after a prefix with no open run, the visible text of a concatenation is the concatenation of the visible texts |
| Ansi.VisibleTextAcrossRun | horizon-gallery/horizon-gallery.py:156-167 | a complete run hides itself and resynchronises the reading, whatever precedes it |
| Ansi.ScanInvariant | horizon-gallery/horizon-gallery.py:149-169 | after any prefix, the parser's characters are exactly the text outside runs; `in_escape` holds exactly when a run is open, with a partial run pending; the current tag is empty or a complete run; and every pair is well tagged |
| Ansi.VisibleChars | horizon-gallery/horizon-gallery.py:149-169 | `get_visible_chars` returns exactly the pairs of `Ansi.Reading`, an independent run-at-a-time reading: each character outside a run is tagged with the latest completed run before it (from its last ESC to its `m`), or the empty tag before the first run; an ESC abandons any run in progress, and an unterminated run hides the rest of the line. The characters are the reference visible text and the tags are well formed |
| Ansi.ParsedIffWellTagged | horizon-gallery/horizon-gallery.py:149-169 | a pair list is well tagged exactly when parsing its re-joined text gives it back |
| Ansi.RoundTrip | horizon-gallery/horizon-gallery.py:149-169 | re-joining `prefix + char` over the pairs and parsing again gives the same pairs |
| Ansi.FramedRejoin | horizon-gallery/horizon-gallery.py:240-245 | pairs tagged with runs, written between an opening and a closing run, parse back as themselves |
| Ansi.TaggedAfterRun | horizon-gallery/horizon-gallery.py:156-167 | once a complete run has been read, every later visible character carries a complete run as its tag |
| HalfBlock.EncodeCell | horizon-gallery/horizon-gallery.py:103-138 | the four visibility cases: the glyph is a space exactly when neither pixel is visible, `▀` exactly when the top is visible, and `▄` exactly when only the bottom is; only the space has no foreground; unless both are visible the background is the theme's; the cell paints each half with its pixel's shade |
| HalfBlock.CellAt | horizon-gallery/horizon-gallery.py:96-101 | the cell at (col, row) reads pixel rows 2·row and 2·row + 1; the fallback for a missing bottom pixel is never taken |
| HalfBlock.CellRun | horizon-gallery/horizon-gallery.py:106-138 | the run before each glyph is one complete SGR run |
| HalfBlock.DecodeCellPair | horizon-gallery/horizon-gallery.py:106-138 | a written cell reads back from its run's parameters as the same glyph and colours |
| HalfBlock.TransparentCell | horizon-gallery/horizon-gallery.py:106-109 | two transparent pixels give a space behind the background-only run |
| HalfBlock.RampEnds | horizon-gallery/horizon-gallery.py:112-120 | an opaque white pixel shows the bright stop and an opaque black one the dark stop |
| HalfBlock.ShadeValid | horizon-gallery/horizon-gallery.py:112-120 | a valid pixel on a valid ramp shows a valid colour |
| HalfBlock.CellsTextRejoins | horizon-gallery/horizon-gallery.py:93-138 | a row's text is the re-joined list of its cells' (run, glyph) pairs |
| HalfBlock.RowReadsBack | horizon-gallery/horizon-gallery.py:140 | a row's text followed by the reset parses as exactly one tagged glyph per cell |
| HalfBlock.EncodeRow | horizon-gallery/horizon-gallery.py:93-138 | the inner loop builds the texts of the row's cells, left to right |
| HalfBlock.ImageToHalfblock | horizon-gallery/horizon-gallery.py:92-142 | exactly `height` lines; each ends with the reset `\033[0m` and parses as exactly the row's cells, one visible glyph per pixel column |
| HalfBlock.PaintsPixels | horizon-gallery/horizon-gallery.py:92-140 | every line has `width` visible characters, and column `col` of line `row` reads back as a cell painting the shades of pixels (col, 2·row) and (col, 2·row + 1) |
| HalfBlock.TransparentImage | horizon-gallery/horizon-gallery.py:106-109 | a fully transparent image draws only background-only spaces |
| Layout.CountInvariant | horizon-gallery/horizon-gallery.py:186-194 | the inline counter counts exactly the characters outside runs, and is inside an escape exactly when a run is left open |
| Layout.VisibleLen | horizon-gallery/horizon-gallery.py:185-194 | the counter's `visible_len` equals `len(get_visible_chars(art_line))` |
| Layout.MissingRowPadded | horizon-gallery/horizon-gallery.py:184-196 | a row past the end of a shorter art shows as exactly `char_width` spaces of padding |
| Layout.PadPartVisible | horizon-gallery/horizon-gallery.py:195-197 | a padded part shows the line's text and then the padding spaces; its visible width is `max(char_width, visible_len)` and it leaves no run open |
| Layout.JoinVisible | horizon-gallery/horizon-gallery.py:198 | joining closed parts with spaces shows the join of what the parts show |
| Layout.LayoutRowVisible | horizon-gallery/horizon-gallery.py:181-198 | a screen row shows each art's line and padding, `spacing` spaces apart |
| Layout.RowWidth | horizon-gallery/horizon-gallery.py:181-198 | when no art line is wider than the column, every screen row is `n·char_width + (n − 1)·spacing` visible characters wide |
| Layout.MaxLength | horizon-gallery/horizon-gallery.py:177 | `max(len(art) for art in arts)`: no art is longer, and some art attains it |
| Layout.BuildLines | horizon-gallery/horizon-gallery.py:177-198 | exactly `max_height` lines are built, and line `row` shows each art's row `row` and its padding side by side, `spacing` spaces apart |
| Layout.LabelVisible | horizon-gallery/horizon-gallery.py:203-206 | a name label shows the upper-cased name centred in the column, and leaves no run open |
| Layout.NameLineVisible | horizon-gallery/horizon-gallery.py:201-207 | the name line shows the centred upper-cased names, `spacing` spaces apart |
| Reveal.PrintSideBySide | horizon-gallery/horizon-gallery.py:171-174 | no arts give no output at all, and any arts give some |
| Reveal.PrintLinesRun | horizon-gallery/horizon-gallery.py:210-212 | printed lines land at the left edge of consecutive rows, leaving the cursor on the row below them |
| Reveal.StaticRun | horizon-gallery/horizon-gallery.py:209-213 | without animation, line `r` ends on row `r`, the name line on the row below the last line, and the cursor on the next row |
| Reveal.RevealedRejoins | horizon-gallery/horizon-gallery.py:241-244 | the frame loop joins the first `min(col + 1, len(chars))` pairs |
| Reveal.FrameShows | horizon-gallery/horizon-gallery.py:240-245 | at column `col`, a row's frame parses as exactly the first `min(col + 1, len)` parsed pairs |
| Reveal.FullFrame | horizon-gallery/horizon-gallery.py:240-245 | from the column of the row's last pair on, the frame shows the whole parsed row |
| Reveal.RowsRun | horizon-gallery/horizon-gallery.py:237-248 | drawing a column puts row `i`'s frame at the left edge of row `i`, moving down between rows but not after the last |
| Reveal.PassRun | horizon-gallery/horizon-gallery.py:233-260 | one column iteration saves the cursor, draws every row and the name, and restores the cursor to the top-left of the block |
| Reveal.PassesRun | horizon-gallery/horizon-gallery.py:233-262 | the reveal loop leaves the cursor where it started and only adds its iterations' writes |
| Reveal.ReserveRun | horizon-gallery/horizon-gallery.py:224-230 | `num_lines` blank lines are printed and the cursor moves `num_lines` up, back to the top-left of the block |
| Reveal.LoopRun | horizon-gallery/horizon-gallery.py:233-265 | after the loop, the cursor moves `num_lines` down, below the block |
| Reveal.RevealRun | horizon-gallery/horizon-gallery.py:224-265 | the whole animation writes the blank lines and then the iterations' texts, and ends at the left edge of row `num_lines` |
| Reveal.RevealFinal | horizon-gallery/horizon-gallery.py:224-265 | each row finally shows what the last iteration drew there, or its blank line when no iteration ran |
| Reveal.MaxWidth | horizon-gallery/horizon-gallery.py:221-222 | `max_width` is at least every parsed line's length and the name's, and equals one of them |
| Reveal.PlanFinal | horizon-gallery/horizon-gallery.py:233-257 | the reveal leaves each art row and the name row with its frame for the last column, and the other reserved rows blank |
| Reveal.AnimationFinal | horizon-gallery/horizon-gallery.py:215-265 | the animated output leaves that picture for its parsed lines and name |
| Reveal.AnimationShowsRow | horizon-gallery/horizon-gallery.py:237-245 | after the animation, every art row shows exactly the parsed characters of its built line |
| Reveal.AnimationShowsName | horizon-gallery/horizon-gallery.py:250-257 | after the animation, the name row shows exactly the parsed characters of the name line |
| Reveal.AnimatedName | horizon-gallery/horizon-gallery.py:250-257 | the name row shows the name line's text, and is left empty only when there is no art row and no visible name character |
| Reveal.AnimationMatchesStatic | horizon-gallery/horizon-gallery.py:209-265 | with at least one art row, the animation ends with the same visible characters on every row as the plain output |
| Reveal.NameBelowEmptyBlock | horizon-gallery/horizon-gallery.py:225-251 | with no art rows, the animation writes the name on row 1, below its one-line block, while the plain output leaves row 1 untouched |
| Reveal.SideBySideRow | horizon-gallery/horizon-gallery.py:171-265 | once `print_side_by_side` is done, animated or not, each screen row shows the arts' padded lines side by side |
| Reveal.SideBySideName | horizon-gallery/horizon-gallery.py:200-265 | once `print_side_by_side` is done, the name row shows the centred upper-cased names; the animation leaves it empty only when there is no art row and no visible name character |

## Left out

- Image decoding and LANCZOS resizing are left out, because they belong to the image library. The resized image is an input grid of RGBA pixels, `width` × `2·height`.
- Terminal output is not performed, because it is I/O:
  - `print`, `flush` and the `time.sleep(delay)` between columns are absent;
  - the output is a list of commands (text, line feed, carriage return, cursor up/down, save, restore);
  - the cursor model is defined on the commands, not by parsing the characters they write (`ESC[nA`, `ESC[nB`, `ESC[s`, `ESC[u`).
- The cursor model is simplified. It assumes the block starts at column 0 of an area where it fits. It does not model:
  - scrolling when the reserved lines reach the bottom of the screen;
  - clamping of cursor moves at the screen edges;
  - wrapping of lines wider than the terminal.
- Reveal.Final: a row's final content is the last text written at its left edge. A shorter write over a longer one would, on a real terminal, leave the older characters to its right; that overlay is not modelled.
- Floating point: brightness and interpolation use exact reals. IEEE rounding can differ from exact arithmetic at boundaries such as a brightness just below 0.3, or a `t` that should be exactly 1.
- Color.ParseHex, Color.HexToRgb: accept only hex digits. Python's `int(s, 16)` also accepts surrounding whitespace and a sign, so a palette entry such as `#-1-1-1` parses in Python but not here. This is left out because the palette tables are plain six-digit entries.
- Strings.Upper: maps only the ASCII letters. Python's `upper()` also maps other scripts and can change the length.
- The palette tables (`PALETTES`, `DARK_BASE`), `main` and its argument parsing are configuration, so they are not modelled:
  - a subject is given by its name and main colour;
  - the ramp is built from the entries passed in (`Color.PaletteRamp`);
  - the `KeyError` for an unknown name is outside the model.
- Default arguments are not modelled: every parameter is passed explicitly. These are `width=30, height=30, character='van'` of `image_to_halfblock` and `char_width=24, spacing=0, animate=True, delay=0.008` of `print_side_by_side`.
- `image_to_braille` is left out, because it only forwards its arguments to `image_to_halfblock`.
- The unused `FULL_BLOCK` constant is left out.
- Cursor hiding and restoration around the whole gallery belong to `main` and are left out.
