/** src/main.c: the field table, the colour decision, the formatted lines and their widths,
    the choice between silence, hidden mode and the static layout, and the static
    side-by-side layout itself. The collectors' results, the logo (from logo.h) and the
    terminal test arrive as inputs. */
module App {
  import opened CBytes
  import Term

  /** CFG_LABEL_WIDTH. */
  const LABEL_WIDTH: nat := 10
  /** MF_FORMATTED_LINE_MAX is 512, so a formatted line keeps at most 511 bytes. */
  const FORMATTED_MAX: nat := 511
  const LABEL_COLOR: seq<byte> := [ESC] + Ascii("[38;5;245m")
  const VALUE_COLOR: seq<byte> := [ESC] + Ascii("[38;5;252m")
  const RESET_COLOR: seq<byte> := [ESC] + Ascii("[0m")

  /** One row of g_fields: the label and whether it is shown by default. */
  datatype Field = Field(caption: seq<byte>, enabledDefault: bool)

  /** What a collector gave: its return code and the value it wrote. */
  datatype Collected = Collected(rc: int, value: seq<byte>)

  /** The options mf_cli_parse fills in. */
  datatype Options = Options(showAll: bool, noColour: bool, quiet: bool, help: bool)

  /** g_fields, in order; memory and uptime are on only in a build with the Linux extras. */
  function Fields(linuxExt: bool): (fs: seq<Field>)
    ensures |fs| == 8
    ensures forall i | 0 <= i < 6 :: fs[i].enabledDefault
    ensures fs[6].enabledDefault == linuxExt && fs[7].enabledDefault == linuxExt
  {
    [ Field(Ascii("OS:"), true), Field(Ascii("Kernel:"), true), Field(Ascii("Host:"), true),
      Field(Ascii("CPU:"), true), Field(Ascii("Shell:"), true), Field(Ascii("Disk:"), true),
      Field(Ascii("Memory:"), linuxExt), Field(Ascii("Uptime:"), linuxExt) ]
  }

  /** want_colour: starts as the tty test, then -c and hidden mode each turn it off. */
  function WantColour(tty: bool, noColour: bool, hidden: bool): (w: bool)
    ensures w <==> tty && !noColour && !hidden
  {
    var fromTty := tty;
    var afterC := if noColour then false else fromTty;
    if hidden then false else afterC
  }

  /** %-*s: the text, then spaces up to the width; a longer text is kept whole. */
  function PadRight(s: seq<byte>, w: nat): (r: seq<byte>)
    ensures HasPrefix(r, s) && |r| == Max(|s|, w)
    ensures forall i | |s| <= i < |r| :: r[i] == SPACE
  {
    s + Spaces(if w > |s| then w - |s| else 0)
  }

  /** The colour strings: the palette with colour, empty strings without. */
  function Paint(colour: bool, code: seq<byte>): seq<byte>
  {
    if colour then code else []
  }

  /** One formatted line: in quiet mode the value alone (mf_strlcpy); otherwise label colour,
      the label padded to CFG_LABEL_WIDTH, reset, a space, value colour, the value and reset
      (snprintf); either way cut to the line buffer. */
  function Formatted(caption: seq<byte>, value: seq<byte>, colour: bool, quiet: bool): (line: seq<byte>)
    ensures |line| <= FORMATTED_MAX
  {
    if quiet then Truncated(value, FORMATTED_MAX)
    else
      Truncated(Paint(colour, LABEL_COLOR) + PadRight(caption, LABEL_WIDTH) + Paint(colour, RESET_COLOR)
        + [SPACE] + Paint(colour, VALUE_COLOR) + value + Paint(colour, RESET_COLOR), FORMATTED_MAX)
  }

  /** visible_widths[]: the value's display width, plus the label column and its space unless
      quiet. */
  function VisibleWidth(value: seq<byte>, quiet: bool): (w: nat)
    ensures quiet ==> w == Term.Width(value)
    ensures !quiet ==> w == LABEL_WIDTH + 1 + Term.Width(value)
  {
    (if quiet then 0 else LABEL_WIDTH + 1) + Term.Width(value)
  }

  predicate AsciiText(s: seq<byte>) { forall i | 0 <= i < |s| :: s[i] < 0x80 }

  /** Without colour, an ASCII line that fits is exactly as wide as the width main records for
      it. */
  lemma WidthMatchesPlain(caption: seq<byte>, value: seq<byte>, quiet: bool)
    requires AsciiText(caption) && AsciiText(value) && |caption| <= LABEL_WIDTH
    requires LABEL_WIDTH + 1 + |value| <= FORMATTED_MAX
    ensures Term.Width(Formatted(caption, value, false, quiet)) == VisibleWidth(value, quiet)
  {
    var line := Formatted(caption, value, false, quiet);
    Term.WidthAscii(value);
    if quiet {
      assert line == value;
    } else {
      var full := PadRight(caption, LABEL_WIDTH) + [SPACE] + value;
      assert line == full;
      assert AsciiText(full) by {
        forall i | 0 <= i < |full| ensures full[i] < 0x80 {
          if i < LABEL_WIDTH {
            assert full[i] == PadRight(caption, LABEL_WIDTH)[i];
          } else if i > LABEL_WIDTH {
            assert full[i] == value[i - LABEL_WIDTH - 1];
          }
        }
      }
      Term.WidthAscii(full);
    }
  }

  /** Without colour, no escape byte appears in a line unless the label or the value brought
      it. */
  lemma PlainHasNoEscape(caption: seq<byte>, value: seq<byte>, quiet: bool)
    requires ESC !in caption && ESC !in value
    ensures ESC !in Formatted(caption, value, false, quiet)
  {
    var full := PadRight(caption, LABEL_WIDTH) + [SPACE] + value;
    if !quiet {
      assert Formatted(caption, value, false, quiet) == Truncated(full, FORMATTED_MAX);
      assert ESC !in PadRight(caption, LABEL_WIDTH) by {
        forall i | 0 <= i < |PadRight(caption, LABEL_WIDTH)| ensures PadRight(caption, LABEL_WIDTH)[i] != ESC {
          if i < |caption| {
            assert PadRight(caption, LABEL_WIDTH)[i] == caption[i];
          }
        }
      }
      assert ESC !in full;
      assert forall i | 0 <= i < |Truncated(full, FORMATTED_MAX)| :: Truncated(full, FORMATTED_MAX)[i] == full[i];
    } else {
      assert forall i | 0 <= i < |Truncated(value, FORMATTED_MAX)| :: Truncated(value, FORMATTED_MAX)[i] == value[i];
    }
  }

  /** A field takes a line when it is enabled by default or -a is given, and its collector
      returns 0. */
  predicate Kept(f: Field, c: Collected, showAll: bool)
  {
    (f.enabledDefault || showAll) && c.rc == 0
  }

  /** The indices of the fields that take a line, in table order. */
  function Selected(fs: seq<Field>, cs: seq<Collected>, showAll: bool): seq<nat>
    requires |fs| == |cs|
  {
    if fs == [] then []
    else
      var n := |fs| - 1;
      Selected(fs[..n], cs[..n], showAll) + (if Kept(fs[n], cs[n], showAll) then [n] else [])
  }

  /** The selected indices are exactly the kept fields, each once and in increasing order. */
  lemma {:induction false} SelectedExact(fs: seq<Field>, cs: seq<Collected>, showAll: bool)
    requires |fs| == |cs|
    ensures var sel := Selected(fs, cs, showAll);
      && (forall j | 0 <= j < |sel| :: sel[j] < |fs| && Kept(fs[sel[j]], cs[sel[j]], showAll))
      && (forall j, k | 0 <= j < k < |sel| :: sel[j] < sel[k])
      && (forall i | 0 <= i < |fs| && Kept(fs[i], cs[i], showAll) :: i in sel)
    decreases |fs|
  {
    if fs != [] {
      var n := |fs| - 1;
      SelectedExact(fs[..n], cs[..n], showAll);
      var before := Selected(fs[..n], cs[..n], showAll);
      assert forall j | 0 <= j < |before| :: before[j] < n && fs[before[j]] == fs[..n][before[j]] && cs[before[j]] == cs[..n][before[j]];
      forall i | 0 <= i < n && Kept(fs[i], cs[i], showAll) ensures i in before {
        assert fs[..n][i] == fs[i] && cs[..n][i] == cs[i];
      }
    }
  }

  /** The formatted lines and widths of the kept fields, in table order. */
  function Lines(fs: seq<Field>, cs: seq<Collected>, o: Options, colour: bool): seq<(seq<byte>, nat)>
    requires |fs| == |cs|
  {
    if fs == [] then []
    else
      var n := |fs| - 1;
      Lines(fs[..n], cs[..n], o, colour)
        + (if Kept(fs[n], cs[n], o.showAll)
           then [(Formatted(fs[n].caption, cs[n].value, colour, o.quiet), VisibleWidth(cs[n].value, o.quiet))]
           else [])
  }

  /** Line j belongs to the j-th selected field. */
  lemma {:induction false} LinesOfSelected(fs: seq<Field>, cs: seq<Collected>, o: Options, colour: bool)
    requires |fs| == |cs|
    ensures var sel := Selected(fs, cs, o.showAll); var ls := Lines(fs, cs, o, colour);
      && |ls| == |sel|
      && forall j | 0 <= j < |ls| ::
           sel[j] < |fs| &&
           ls[j] == (Formatted(fs[sel[j]].caption, cs[sel[j]].value, colour, o.quiet), VisibleWidth(cs[sel[j]].value, o.quiet))
    decreases |fs|
  {
    if fs != [] {
      var n := |fs| - 1;
      LinesOfSelected(fs[..n], cs[..n], o, colour);
      var before := Selected(fs[..n], cs[..n], o.showAll);
      assert forall j | 0 <= j < |before| :: before[j] < n && fs[before[j]] == fs[..n][before[j]] && cs[before[j]] == cs[..n][before[j]];
    }
  }

  /** main's field loop: for each field that is enabled (or -a), run its collector and, when
      it returns 0, append the formatted line and its width and count it. */
  method CollectLines(fs: seq<Field>, cs: seq<Collected>, o: Options, colour: bool)
    returns (formatted: seq<seq<byte>>, widths: seq<nat>, lineCount: nat)
    requires |fs| == |cs|
    ensures lineCount == |formatted| == |widths| == |Lines(fs, cs, o, colour)|
    ensures forall j | 0 <= j < lineCount :: (formatted[j], widths[j]) == Lines(fs, cs, o, colour)[j]
  {
    formatted := [];
    widths := [];
    lineCount := 0;
    var i := 0;
    while i < |fs|
      invariant 0 <= i <= |fs|
      invariant lineCount == |formatted| == |widths| == |Lines(fs[..i], cs[..i], o, colour)|
      invariant forall j | 0 <= j < lineCount :: (formatted[j], widths[j]) == Lines(fs[..i], cs[..i], o, colour)[j]
    {
      assert fs[..i + 1][..i] == fs[..i] && cs[..i + 1][..i] == cs[..i];
      var enabled := fs[i].enabledDefault;
      if !enabled && !o.showAll {
        i := i + 1;
        continue;
      }
      var rc := cs[i].rc;
      if rc != 0 {
        i := i + 1;
        continue;
      }
      formatted := formatted + [Formatted(fs[i].caption, cs[i].value, colour, o.quiet)];
      if o.quiet {
        widths := widths + [Term.Width(cs[i].value)];
      } else {
        widths := widths + [LABEL_WIDTH + 1 + Term.Width(cs[i].value)];
      }
      lineCount := lineCount + 1;
      i := i + 1;
    }
    assert fs[..|fs|] == fs && cs[..|cs|] == cs;
  }

  // ---------------------------------------------------------------- static layout

  /** column_gap: 2 only when there are both info lines and logo lines. */
  function ColumnGap(lineCount: nat, logoCount: nat): (g: nat)
    ensures g == 2 <==> lineCount > 0 && logoCount > 0
    ensures g == 0 || g == 2
  {
    if lineCount > 0 && logoCount > 0 then 2 else 0
  }

  /** The spaces after a logo line: up to g_logo_width display columns, none when the line is
      as wide or wider. */
  function LogoPad(line: seq<byte>, logoWidth: nat): (p: nat)
    ensures Term.Width(line) <= logoWidth ==> Term.Width(line) + p == logoWidth
    ensures Term.Width(line) >= logoWidth ==> p == 0
  {
    if logoWidth > Term.Width(line) then logoWidth - Term.Width(line) else 0
  }

  /** Row i of the static output. */
  function StaticRow(logo: seq<seq<byte>>, logoWidth: nat, lines: seq<seq<byte>>, i: nat): seq<byte>
  {
    var left := if i < |logo| then logo[i] + Spaces(LogoPad(logo[i], logoWidth)) else Spaces(logoWidth);
    var right := if i < |lines| then Spaces(ColumnGap(|lines|, |logo|)) + lines[i] else [];
    left + right + [LF]
  }

  function StaticRows(logo: seq<seq<byte>>, logoWidth: nat, lines: seq<seq<byte>>, n: nat): seq<seq<byte>>
  {
    seq(n, i requires 0 <= i < n => StaticRow(logo, logoWidth, lines, i))
  }

  /** The whole static output: max(line_count, g_logo_line_count) rows. */
  function StaticText(logo: seq<seq<byte>>, logoWidth: nat, lines: seq<seq<byte>>): seq<byte>
  {
    Concat(StaticRows(logo, logoWidth, lines, Max(|lines|, |logo|)))
  }

  /** fputc(' ') n times, counting n down. */
  method EmitSpaces(out: seq<byte>, count: nat) returns (r: seq<byte>)
    ensures r == out + Spaces(count)
  {
    r := out;
    var n := count;
    while n > 0
      invariant 0 <= n <= count
      invariant r == out + Spaces(count - n)
    {
      assert Spaces(count - n) + [SPACE] == Spaces(count - n + 1);
      r := r + [SPACE];
      n := n - 1;
    }
  }

  /** main's static layout loop. */
  method StaticLayout(logo: seq<seq<byte>>, logoWidth: nat, formatted: seq<seq<byte>>) returns (out: seq<byte>)
    ensures out == StaticText(logo, logoWidth, formatted)
  {
    var lineCount := |formatted|;
    var rows := lineCount;
    if |logo| > rows {
      rows := |logo|;
    }
    var columnGap := 0;
    if lineCount > 0 && |logo| > 0 {
      columnGap := 2;
    }
    out := [];
    var i := 0;
    while i < rows
      invariant 0 <= i <= rows
      invariant out == Concat(StaticRows(logo, logoWidth, formatted, i))
    {
      ghost var before := out;
      out := EmitRow(out, logo, logoWidth, formatted, columnGap, i);
      RowStep(logo, logoWidth, formatted, i, before, out);
      i := i + 1;
    }
  }

  /** One pass of the layout loop: the logo line or blanks, the padding, then for an info row
      the gap and the line, and the newline. */
  method EmitRow(out: seq<byte>, logo: seq<seq<byte>>, logoWidth: nat, formatted: seq<seq<byte>>,
                 columnGap: nat, i: nat) returns (r: seq<byte>)
    requires columnGap == ColumnGap(|formatted|, |logo|)
    ensures r == out + StaticRow(logo, logoWidth, formatted, i)
  {
    r := out;
    var padSpaces: nat;
    if i < |logo| {
      var logoLine := logo[i];
      var logoLen := Term.Width(logoLine);
      r := r + logoLine;
      if logoWidth > logoLen {
        padSpaces := logoWidth - logoLen;
      } else {
        padSpaces := 0;
      }
    } else {
      padSpaces := logoWidth;
    }
    r := EmitSpaces(r, padSpaces);
    ghost var left := r;
    assert left == out + (if i < |logo| then logo[i] + Spaces(LogoPad(logo[i], logoWidth)) else Spaces(logoWidth));
    if i < |formatted| {
      r := EmitSpaces(r, columnGap);
      r := r + formatted[i];
    }
    r := r + [LF];
  }

  lemma RowStep(logo: seq<seq<byte>>, logoWidth: nat, lines: seq<seq<byte>>, i: nat, before: seq<byte>, after: seq<byte>)
    requires before == Concat(StaticRows(logo, logoWidth, lines, i))
    requires after == before + StaticRow(logo, logoWidth, lines, i)
    ensures after == Concat(StaticRows(logo, logoWidth, lines, i + 1))
  {
    assert StaticRows(logo, logoWidth, lines, i + 1) == StaticRows(logo, logoWidth, lines, i) + [StaticRow(logo, logoWidth, lines, i)];
    ConcatAppend(StaticRows(logo, logoWidth, lines, i), StaticRow(logo, logoWidth, lines, i));
  }

  /** Without newlines inside the logo and the lines, the static output has exactly
      max(line_count, g_logo_line_count) lines. */
  lemma StaticRowCount(logo: seq<seq<byte>>, logoWidth: nat, lines: seq<seq<byte>>, n: nat)
    requires forall i | 0 <= i < |logo| :: LF !in logo[i]
    requires forall i | 0 <= i < |lines| :: LF !in lines[i]
    ensures Newlines(Concat(StaticRows(logo, logoWidth, lines, n))) == n
  {
    var rows := StaticRows(logo, logoWidth, lines, n);
    forall i | 0 <= i < n
      ensures Newlines(rows[i]) == 1
    {
      StaticRowLines(logo, logoWidth, lines, i);
    }
    ConcatLines(rows);
  }

  /** Each static row ends in the only newline it holds. */
  lemma StaticRowLines(logo: seq<seq<byte>>, logoWidth: nat, lines: seq<seq<byte>>, i: nat)
    requires forall i | 0 <= i < |logo| :: LF !in logo[i]
    requires forall i | 0 <= i < |lines| :: LF !in lines[i]
    ensures Newlines(StaticRow(logo, logoWidth, lines, i)) == 1
  {
    var left := if i < |logo| then logo[i] + Spaces(LogoPad(logo[i], logoWidth)) else Spaces(logoWidth);
    var right := if i < |lines| then Spaces(ColumnGap(|lines|, |logo|)) + lines[i] else [];
    assert LF !in left + right;
    NoNewlines(left + right);
    NewlinesAppend(left + right, [LF]);
  }

  /** With an ASCII logo no wider than g_logo_width, every info line starts at the same
      byte: g_logo_width plus the gap. */
  lemma RowAligned(logo: seq<seq<byte>>, logoWidth: nat, lines: seq<seq<byte>>, i: nat)
    requires i < |lines|
    requires i < |logo| ==> AsciiText(logo[i]) && |logo[i]| <= logoWidth
    ensures var k := logoWidth + ColumnGap(|lines|, |logo|);
      var row := StaticRow(logo, logoWidth, lines, i);
      |row| == k + |lines[i]| + 1 && row[k..] == lines[i] + [LF]
      && forall c | logoWidth <= c < k :: row[c] == SPACE
  {
    var g := ColumnGap(|lines|, |logo|);
    var left := if i < |logo| then logo[i] + Spaces(LogoPad(logo[i], logoWidth)) else Spaces(logoWidth);
    if i < |logo| {
      Term.WidthAscii(logo[i]);
    }
    assert |left| == logoWidth;
    var row := StaticRow(logo, logoWidth, lines, i);
    assert row == left + Spaces(g) + (lines[i] + [LF]);
    forall c | logoWidth <= c < logoWidth + g ensures row[c] == SPACE {
      assert row[c] == Spaces(g)[c - logoWidth];
    }
  }

  // ---------------------------------------------------------------- main

  /** How main ends: the usage text with an exit code, nothing at all, hidden mode over the
      formatted lines, or the static layout. */
  datatype Outcome =
    | Usage(code: int)
    | Silent
    | HiddenMode(formatted: seq<seq<byte>>, widths: seq<nat>, quiet: bool)
    | Printed(text: seq<byte>)

  /** main: parse result and options, the tty test and the hidden request (which the options
      structure does not carry), the collectors' results in table order, and the logo. */
  method Run(parsed: Option<Options>, hidden: bool, tty: bool, linuxExt: bool, cs: seq<Collected>,
             logo: seq<seq<byte>>, logoWidth: nat) returns (r: Outcome)
    requires |cs| == 8
    ensures parsed.None? ==> r == Usage(1)
    ensures parsed.Some? && parsed.value.help ==> r == Usage(0)
    ensures parsed.Some? && !parsed.value.help ==>
      var o := parsed.value;
      var ls := Lines(Fields(linuxExt), cs, o, WantColour(tty, o.noColour, hidden));
      var formatted := seq(|ls|, j requires 0 <= j < |ls| => ls[j].0);
      var widths := seq(|ls|, j requires 0 <= j < |ls| => ls[j].1);
      && (ls == [] && logo == [] ==> r == Silent)
      && (!(ls == [] && logo == []) && hidden && tty ==> r == HiddenMode(formatted, widths, o.quiet))
      && (!(ls == [] && logo == []) && !(hidden && tty) ==> r == Printed(StaticText(logo, logoWidth, formatted)))
    ensures r.HiddenMode? ==> tty && hidden
  {
    if parsed.None? {
      return Usage(1);
    }
    var o := parsed.value;
    if o.help {
      return Usage(0);
    }
    var colour := WantColour(tty, o.noColour, hidden);
    var formatted, widths, lineCount := CollectLines(Fields(linuxExt), cs, o, colour);
    ghost var ls := Lines(Fields(linuxExt), cs, o, colour);
    assert formatted == seq(|ls|, j requires 0 <= j < |ls| => ls[j].0);
    assert widths == seq(|ls|, j requires 0 <= j < |ls| => ls[j].1);
    if lineCount == 0 && |logo| == 0 {
      return Silent;
    }
    var runHidden := hidden;
    if runHidden && !tty {
      runHidden := false;
    }
    if runHidden {
      return HiddenMode(formatted, widths, o.quiet);
    }
    var text := StaticLayout(logo, logoWidth, formatted);
    return Printed(text);
  }
}
