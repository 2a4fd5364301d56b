/** src/hidden.c, mf_hidden_overlay_buffer and mf_hidden_write_hud: the centred box that
    shows the logo and the information lines on top of the noise field, and the status line
    at the bottom. The grid is a flat array of cells, row by row. */
module HiddenOverlay {
  import opened CBytes
  import opened Term
  import opened Grid
  import opened HiddenCell

  /** MF_HIDDEN_COLUMN_GAP: blank columns between the logo and the information. */
  const COLUMN_GAP: nat := 3

  // ---------------------------------------------------------------------------
  // Geometry
  // ---------------------------------------------------------------------------

  /** The largest of the widths, 0 for none (the running maximum of the source's loops). */
  function MaxOf(ws: seq<nat>): (m: nat)
    ensures forall i | 0 <= i < |ws| :: ws[i] <= m
    ensures m == 0 || m in ws
  {
    if ws == [] then 0
    else
      var m := MaxOf(ws[..|ws| - 1]);
      assert ws == ws[..|ws| - 1] + [ws[|ws| - 1]];
      if ws[|ws| - 1] > m then ws[|ws| - 1] else m
  }

  /** The display width of each logo line. */
  function LogoWidths(logo: seq<seq<byte>>): (r: seq<nat>)
    ensures |r| == |logo| && forall i | 0 <= i < |logo| :: r[i] == Width(logo[i])
  {
    seq(|logo|, i requires 0 <= i < |logo| => Width(logo[i]))
  }

  /** The box: the two column widths, the number of text rows and the top-left corner. */
  datatype Box = Box(logoW: nat, infoW: nat, overlayRows: nat, startRow: nat, startCol: nat)

  /** The text columns: the logo, a gap when both parts are present, the information. */
  function InnerW(b: Box): nat
  {
    b.logoW + (if b.infoW > 0 then (if b.logoW > 0 then COLUMN_GAP else 0) + b.infoW else 0)
  }

  /** A one-cell border on every side. */
  function TotalW(b: Box): nat { InnerW(b) + 2 }
  function TotalH(b: Box): nat { b.overlayRows + 2 }

  /** The box for a rows-by-cols screen, the logo lines and the widths of the formatted lines:
      centred on each axis where it fits, flush with the top or left edge where it does not. */
  function Layout(rows: nat, cols: nat, logo: seq<seq<byte>>, widths: seq<nat>): Box
  {
    var logoW := MaxOf(LogoWidths(logo));
    var infoW := MaxOf(widths);
    var overlayRows := if |logo| > |widths| then |logo| else |widths|;
    var inner := Box(logoW, infoW, overlayRows, 0, 0);
    var th := TotalH(inner);
    var tw := TotalW(inner);
    inner.(startRow := if rows > th then (rows - th) / 2 else 0,
           startCol := if cols > tw then (cols - tw) / 2 else 0)
  }

  /** The logo column is as wide as the widest logo line, the information column as wide as
      the widest formatted line, and there is a text row for every logo line and every
      information line. */
  lemma LayoutFits(rows: nat, cols: nat, logo: seq<seq<byte>>, widths: seq<nat>)
    ensures forall i | 0 <= i < |logo| :: Width(logo[i]) <= Layout(rows, cols, logo, widths).logoW
    ensures forall i | 0 <= i < |widths| :: widths[i] <= Layout(rows, cols, logo, widths).infoW
    ensures Layout(rows, cols, logo, widths).logoW == 0 ||
      exists i | 0 <= i < |logo| :: Width(logo[i]) == Layout(rows, cols, logo, widths).logoW
    ensures Layout(rows, cols, logo, widths).overlayRows == Max(|logo|, |widths|)
  {
    var b := Layout(rows, cols, logo, widths);
    var lw := LogoWidths(logo);
    if b.logoW != 0 {
      var i :| 0 <= i < |lw| && lw[i] == b.logoW;
      assert Width(logo[i]) == b.logoW;
    }
  }

  /** Where the box fits it is centred, the extra row or column going below or to the right;
      where it does not fit it starts at the edge. */
  lemma LayoutCentred(rows: nat, cols: nat, logo: seq<seq<byte>>, widths: seq<nat>)
    ensures var b := Layout(rows, cols, logo, widths);
      rows >= TotalH(b) ==> b.startRow + TotalH(b) <= rows && b.startRow <= rows - TotalH(b) - b.startRow <= b.startRow + 1
    ensures var b := Layout(rows, cols, logo, widths);
      rows <= TotalH(b) ==> b.startRow == 0
    ensures var b := Layout(rows, cols, logo, widths);
      cols >= TotalW(b) ==> b.startCol + TotalW(b) <= cols && b.startCol <= cols - TotalW(b) - b.startCol <= b.startCol + 1
    ensures var b := Layout(rows, cols, logo, widths);
      cols <= TotalW(b) ==> b.startCol == 0
  {
  }

  // ---------------------------------------------------------------------------
  // What the box paints
  // ---------------------------------------------------------------------------

  /** What one cell of the box receives: a space (set_char) or a glyph (set_utf8). */
  datatype Paint = Blank | Text(glyph: seq<byte>)

  function PaintCell(c: Cell, p: Paint): Cell
  {
    match p
    case Blank => SetChar(c, SPACE)
    case Text(g) => SetUtf8(c, g, |g|)
  }

  /** The bytes a paint puts on the screen. */
  function PaintGlyph(p: Paint): seq<byte>
  {
    match p
    case Blank => [SPACE]
    case Text(g) => g
  }

  /** A painted cell shows what was painted, whatever it held before. */
  lemma PaintShows(c: Cell, p: Paint)
    requires p.Text? ==> 1 <= |p.glyph| <= 4
    ensures Glyph(PaintCell(c, p)) == PaintGlyph(p)
  {
  }

  /** The source blanks the whole box before it paints the text rows; painting over the blank
      leaves the cell exactly as painting the original would. */
  lemma PaintOverBlank(c: Cell, p: Paint)
    ensures PaintCell(SetChar(c, SPACE), p) == PaintCell(c, p)
  {
    if p.Text? && |p.glyph| > 0 {
      var n := Min(|p.glyph|, 4);
      assert SetChar(c, SPACE).bytes[n..] == c.bytes[n..];
    }
  }

  function Blanks(n: nat): (r: seq<Paint>)
    ensures |r| == n && forall i | 0 <= i < n :: r[i] == Blank
  {
    seq(n, _ => Blank)
  }

  function TextPaint(gs: seq<seq<byte>>): (r: seq<Paint>)
    ensures |r| == |gs| && forall i | 0 <= i < |gs| :: r[i] == Text(gs[i])
  {
    seq(|gs|, i requires 0 <= i < |gs| => Text(gs[i]))
  }

  /** A column segment of width w for the line s: its glyphs, one per cell, while there is
      room, then spaces up to the width. */
  function SegPaint(s: seq<byte>, w: nat): (r: seq<Paint>)
    ensures |r| == w
  {
    var gs := Glyphs(s);
    var m := Min(w, |gs|);
    TextPaint(gs)[..m] + Blanks(w - m)
  }

  /** A line's row: the logo segment, the gap, the information segment. */
  function RowPaint(b: Box, logoLine: seq<byte>, infoLine: seq<byte>): (r: seq<Paint>)
    ensures |r| == InnerW(b)
  {
    (if b.logoW > 0 then SegPaint(logoLine, b.logoW) else [])
    + (if b.logoW > 0 && b.infoW > 0 then Blanks(COLUMN_GAP) else [])
    + (if b.infoW > 0 then SegPaint(infoLine, b.infoW) else [])
  }

  /** Line i of a table of lines, or no text past its end. */
  function Line(lines: seq<seq<byte>>, i: nat): seq<byte>
  {
    if i < |lines| then lines[i] else []
  }

  /** The text a row of paints shows. */
  function Shown(ps: seq<Paint>): seq<byte>
  {
    if ps == [] then [] else Shown(ps[..|ps| - 1]) + PaintGlyph(ps[|ps| - 1])
  }

  lemma {:induction false} ShownAppend(a: seq<Paint>, b: seq<Paint>)
    ensures Shown(a + b) == Shown(a) + Shown(b)
    decreases |b|
  {
    if b == [] {
      assert a + b == a;
    } else {
      var init := b[..|b| - 1];
      var last := b[|b| - 1];
      var ab := a + b;
      assert ab[..|ab| - 1] == a + init;
      assert ab[|ab| - 1] == last;
      assert Shown(ab) == Shown(a + init) + PaintGlyph(last);
      ShownAppend(a, init);
      assert Shown(b) == Shown(init) + PaintGlyph(last);
    }
  }

  lemma {:induction false} ShownBlanks(n: nat)
    ensures Shown(Blanks(n)) == Spaces(n)
  {
    if n > 0 {
      assert Blanks(n)[..n - 1] == Blanks(n - 1);
      ShownBlanks(n - 1);
      assert Spaces(n) == Spaces(n - 1) + [SPACE];
    }
  }

  lemma {:induction false} ShownText(gs: seq<seq<byte>>)
    ensures Shown(TextPaint(gs)) == Concat(gs)
  {
    if gs != [] {
      var init := gs[..|gs| - 1];
      assert TextPaint(gs)[..|gs| - 1] == TextPaint(init);
      ShownText(init);
    }
  }

  /** A segment shows its line followed by padding spaces when the line fits its width, and
      the line's first w glyphs when it does not. */
  lemma SegmentShows(s: seq<byte>, w: nat)
    ensures Width(s) <= w ==> Shown(SegPaint(s, w)) == s + Spaces(w - Width(s))
    ensures Width(s) > w ==> |Glyphs(s)| > w && Shown(SegPaint(s, w)) == Concat(Glyphs(s)[..w])
  {
    var gs := Glyphs(s);
    GlyphsCover(s);
    var m := Min(w, |gs|);
    var t, bl := TextPaint(gs)[..m], Blanks(w - m);
    assert SegPaint(s, w) == t + bl;
    ShownAppend(t, bl);
    ShownBlanks(w - m);
    assert t == TextPaint(gs[..m]);
    ShownText(gs[..m]);
    assert Shown(SegPaint(s, w)) == Concat(gs[..m]) + Spaces(w - m);
    if Width(s) <= w {
      assert m == Width(s) && gs[..m] == gs;
    }
  }

  /** The text of a box row: the logo line padded to the logo column, three spaces, and the
      information line padded to its column, for lines that fit. */
  lemma RowShows(b: Box, logoLine: seq<byte>, infoLine: seq<byte>)
    requires b.logoW > 0 && b.infoW > 0
    requires Width(logoLine) <= b.logoW && Width(infoLine) <= b.infoW
    ensures Shown(RowPaint(b, logoLine, infoLine)) ==
      logoLine + Spaces(b.logoW - Width(logoLine)) + Spaces(COLUMN_GAP)
      + infoLine + Spaces(b.infoW - Width(infoLine))
  {
    var l := SegPaint(logoLine, b.logoW);
    var f := SegPaint(infoLine, b.infoW);
    ShownAppend(l + Blanks(COLUMN_GAP), f);
    ShownAppend(l, Blanks(COLUMN_GAP));
    SegmentShows(logoLine, b.logoW);
    SegmentShows(infoLine, b.infoW);
    ShownBlanks(COLUMN_GAP);
  }

  // ---------------------------------------------------------------------------
  // The overlay as a function of the old cells
  // ---------------------------------------------------------------------------

  /** The box with its border. */
  predicate InBox(b: Box, r: nat, c: nat)
  {
    b.startRow <= r < b.startRow + TotalH(b) && b.startCol <= c < b.startCol + TotalW(b)
  }

  /** The text area inside the border. */
  predicate InInner(b: Box, r: nat, c: nat)
  {
    b.startRow + 1 <= r < b.startRow + 1 + b.overlayRows && b.startCol + 1 <= c < b.startCol + 1 + InnerW(b)
  }

  /** The cell at (r, c) after the overlay: text cells show their row's paint, the rest of the
      box is blank, and every cell outside the box keeps what it had. */
  function Overlaid(b: Box, logo: seq<seq<byte>>, info: seq<seq<byte>>, old_: Cell, r: nat, c: nat): Cell
  {
    if InInner(b, r, c) then
      var i := r - b.startRow - 1;
      PaintCell(old_, RowPaint(b, Line(logo, i), Line(info, i))[c - b.startCol - 1])
    else if InBox(b, r, c) then SetChar(old_, SPACE)
    else old_
  }

  /** The cell at (r, c) after one row segment painted from column `from`. */
  function Painted(old_: Cell, r: nat, c: nat, row: nat, from: nat, ps: seq<Paint>): Cell
  {
    if r == row && from <= c < from + |ps| then PaintCell(old_, ps[c - from]) else old_
  }

  /** `after` is `before` with the paints ps laid on row `row` from column `from` on. */
  predicate PaintedAll(after: seq<Cell>, before: seq<Cell>, cols: nat, row: nat, from: nat, ps: seq<Paint>)
  {
    |after| == |before| &&
    forall k | 0 <= k < |after| :: after[k] == Painted(before[k], RowOf(k, cols), ColOf(k, cols), row, from, ps)
  }

  /** Painting a segment and then the one right after it is painting both at once. */
  lemma PaintedConcat(x: Cell, r: nat, c: nat, row: nat, from: nat, a: seq<Paint>, b: seq<Paint>)
    ensures Painted(Painted(x, r, c, row, from, a), r, c, row, from + |a|, b) == Painted(x, r, c, row, from, a + b)
  {
  }

  /** One more paint, at column from + |ps| of the row; a column past the right edge of the
      screen is skipped. */
  lemma PaintedSnoc(b0: seq<Cell>, before: seq<Cell>, after: seq<Cell>, rows: nat, cols: nat,
                    row: nat, from: nat, ps: seq<Paint>, x: Paint, ps': seq<Paint>)
    requires |b0| == |after| == rows * cols && row < rows && ps' == ps + [x]
    requires PaintedAll(before, b0, cols, row, from, ps)
    requires from + |ps| < cols ==>
      (row * cols + from + |ps| < |before| &&
       after == before[row * cols + from + |ps| := PaintCell(before[row * cols + from + |ps|], x)])
    requires from + |ps| >= cols ==> after == before
    ensures PaintedAll(after, b0, cols, row, from, ps')
  {
    var col := from + |ps|;
    if col < cols {
      FlatIndex(row, col, cols);
    }
    forall k | 0 <= k < |b0|
      ensures after[k] == Painted(b0[k], RowOf(k, cols), ColOf(k, cols), row, from, ps')
    {
      RowBound(k, rows, cols);
      var r, c := RowOf(k, cols), ColOf(k, cols);
      if r == row && c == col {
        assert k == row * cols + col;
        assert ps'[c - from] == x;
      } else if r == row && from <= c < col {
        assert ps'[c - from] == ps[c - from];
      }
    }
  }

  // ---------------------------------------------------------------------------
  // The source's loops
  // ---------------------------------------------------------------------------

  /** The two width loops and the box arithmetic at the top of mf_hidden_overlay_buffer. */
  method ComputeBox(rows: nat, cols: nat, logo: seq<seq<byte>>, widths: seq<nat>) returns (b: Box)
    ensures b == Layout(rows, cols, logo, widths)
  {
    var infoW := MaxLoop(widths);
    var logoW := LogoWidthLoop(logo);
    var overlayRows := |widths|;
    if |logo| > overlayRows {
      overlayRows := |logo|;
    }
    var innerW := logoW;
    if infoW > 0 {
      if innerW > 0 {
        innerW := innerW + COLUMN_GAP;
      }
      innerW := innerW + infoW;
    }
    var totalW := innerW + 2;
    var totalH := overlayRows + 2;
    var startRow := 0;
    var startCol := 0;
    if rows > totalH {
      startRow := (rows - totalH) / 2;
    }
    if cols > totalW {
      startCol := (cols - totalW) / 2;
    }
    b := Box(logoW, infoW, overlayRows, startRow, startCol);
  }

  /** The loop over the formatted lines' widths: the largest, 0 for none. */
  method MaxLoop(widths: seq<nat>) returns (m: nat)
    ensures m == MaxOf(widths)
  {
    m := 0;
    var i := 0;
    while i < |widths|
      invariant 0 <= i <= |widths|
      invariant m == MaxOf(widths[..i])
    {
      assert widths[..i + 1][..i] == widths[..i];
      if widths[i] > m {
        m := widths[i];
      }
      i := i + 1;
    }
    assert widths[..i] == widths;
  }

  /** The loop over the logo lines: the largest display width, 0 for none. */
  method LogoWidthLoop(logo: seq<seq<byte>>) returns (m: nat)
    ensures m == MaxOf(LogoWidths(logo))
  {
    ghost var ws := LogoWidths(logo);
    m := 0;
    var i := 0;
    while i < |logo|
      invariant 0 <= i <= |logo|
      invariant m == MaxOf(ws[..i])
    {
      assert ws[..i + 1][..i] == ws[..i];
      var disp := Width(logo[i]);
      if disp > m {
        m := disp;
      }
      i := i + 1;
    }
    assert ws[..i] == ws;
  }

  /** One cell write of the overlay loops: the paint x at column `col` of the row, unless the
      column is past the right edge of the screen. */
  method PaintAt(buf: array<Cell>, rows: nat, cols: nat, row: nat, from: nat, col: nat, x: Paint,
                 ghost b0: seq<Cell>, ghost ps: seq<Paint>, ghost ps': seq<Paint>)
    requires buf.Length == rows * cols == |b0| && row < rows && col == from + |ps| && ps' == ps + [x]
    requires PaintedAll(buf[..], b0, cols, row, from, ps)
    modifies buf
    ensures PaintedAll(buf[..], b0, cols, row, from, ps')
  {
    ghost var before := buf[..];
    if col < cols {
      IndexBound(row, col, rows, cols);
      buf[row * cols + col] := PaintCell(buf[row * cols + col], x);
    }
    PaintedSnoc(b0, before, buf[..], rows, cols, row, from, ps, x, ps');
  }

  /** The blanking loop over one row of the box: `count` cells from column `from`, the ones
      past the right edge of the screen skipped. */
  method BlankSpan(buf: array<Cell>, rows: nat, cols: nat, row: nat, from: nat, count: nat)
    requires buf.Length == rows * cols && row < rows
    modifies buf
    ensures PaintedAll(buf[..], old(buf[..]), cols, row, from, Blanks(count))
  {
    ghost var b0 := buf[..];
    var col := 0;
    while col < count
      invariant 0 <= col <= count
      invariant PaintedAll(buf[..], b0, cols, row, from, Blanks(col))
    {
      assert Blanks(col + 1) == Blanks(col) + [Blank];
      PaintAt(buf, rows, cols, row, from, from + col, Blank, b0, Blanks(col), Blanks(col + 1));
      col := col + 1;
    }
  }

  /** The first loop of mf_hidden_overlay_buffer: every cell of the box that is on the screen
      becomes a space. */
  method BlankBox(buf: array<Cell>, rows: nat, cols: nat, b: Box)
    requires buf.Length == rows * cols
    modifies buf
    ensures forall k | 0 <= k < buf.Length ::
      buf[k] == if InBox(b, RowOf(k, cols), ColOf(k, cols)) then SetChar(old(buf[k]), SPACE) else old(buf[k])
  {
    ghost var b0 := buf[..];
    var i := 0;
    while i < TotalH(b)
      invariant 0 <= i <= TotalH(b)
      invariant forall k | 0 <= k < buf.Length ::
        buf[k] == if InBox(b, RowOf(k, cols), ColOf(k, cols)) && RowOf(k, cols) < b.startRow + i
                  then SetChar(b0[k], SPACE) else b0[k]
    {
      var row := b.startRow + i;
      if row < rows {
        BlankSpan(buf, rows, cols, row, b.startCol, TotalW(b));
      }
      forall k | 0 <= k < buf.Length
        ensures buf[k] == if InBox(b, RowOf(k, cols), ColOf(k, cols)) && RowOf(k, cols) < b.startRow + i + 1
                          then SetChar(b0[k], SPACE) else b0[k]
      {
        RowBound(k, rows, cols);
      }
      i := i + 1;
    }
  }

  /** A padding loop ("while written < width && col_disp < inner_width", and the gap loop):
      `count` spaces from text column d0, the ones past the right edge skipped. */
  method PadSegment(buf: array<Cell>, rows: nat, cols: nat, row: nat, base: nat, innerW: nat,
                    d0: nat, count: nat) returns (d: nat)
    requires buf.Length == rows * cols && row < rows && d0 + count <= innerW
    modifies buf
    ensures d == d0 + count
    ensures PaintedAll(buf[..], old(buf[..]), cols, row, base + d0, Blanks(count))
  {
    ghost var b0 := buf[..];
    var written := 0;
    d := d0;
    while written < count && d < innerW
      invariant 0 <= written <= count && d == d0 + written
      invariant PaintedAll(buf[..], b0, cols, row, base + d0, Blanks(written))
    {
      assert Blanks(written + 1) == Blanks(written) + [Blank];
      PaintAt(buf, rows, cols, row, base + d0, base + d, Blank, b0, Blanks(written), Blanks(written + 1));
      d := d + 1;
      written := written + 1;
    }
  }

  /** A glyph walk ("while *p != '\0' && written < width"), with the guarded step: the line's
      glyphs one per cell from text column d0, at most w of them. */
  method GlyphWalk(buf: array<Cell>, rows: nat, cols: nat, row: nat, base: nat, innerW: nat,
                   d0: nat, s: seq<byte>, w: nat) returns (d: nat, written: nat)
    requires buf.Length == rows * cols && row < rows && d0 + w <= innerW
    modifies buf
    ensures written == Min(w, |Glyphs(s)|) && d == d0 + written
    ensures PaintedAll(buf[..], old(buf[..]), cols, row, base + d0, TextPaint(Glyphs(s))[..written])
  {
    ghost var b0 := buf[..];
    ghost var gs := Glyphs(s);
    ghost var ps: seq<Paint> := [];
    var p := 0;
    written := 0;
    d := d0;
    while p < |s| && written < w && d < innerW
      invariant 0 <= p <= |s| && written <= w && written <= |gs| && d == d0 + written
      invariant GlyphsFrom(s, p) == gs[written..]
      invariant ps == TextPaint(gs)[..written]
      invariant PaintedAll(buf[..], b0, cols, row, base + d0, ps)
      decreases |s| - p
    {
      var n;
      n, ps := WalkStep(buf, rows, cols, row, base + d0, base + d, s, p, written, b0, gs, ps);
      p := p + n;
      d := d + 1;
      written := written + 1;
    }
  }

  /** One turn of the glyph walk: the glyph at byte p goes to column `col`; returns its
      length and the paints so far. */
  method WalkStep(buf: array<Cell>, rows: nat, cols: nat, row: nat, from: nat, col: nat, s: seq<byte>,
                  p: nat, written: nat, ghost b0: seq<Cell>, ghost gs: seq<seq<byte>>, ghost ps: seq<Paint>)
    returns (n: nat, ghost ps': seq<Paint>)
    requires buf.Length == rows * cols == |b0| && row < rows && col == from + written
    requires p < |s| && written <= |gs| && GlyphsFrom(s, p) == gs[written..] && ps == TextPaint(gs)[..written]
    requires PaintedAll(buf[..], b0, cols, row, from, ps)
    modifies buf
    ensures n == Step(s, p) && written < |gs| && GlyphsFrom(s, p + n) == gs[written + 1..]
    ensures ps' == TextPaint(gs)[..written + 1]
    ensures PaintedAll(buf[..], b0, cols, row, from, ps')
  {
    n := Step(s, p);
    NextGlyph(s, p, gs, written);
    TextPaintSnoc(gs, written);
    ps' := TextPaint(gs)[..written + 1];
    PaintAt(buf, rows, cols, row, from, col, Text(s[p..p + n]), b0, ps, ps');
  }

  /** The glyph at byte p is the next one of the line's glyphs. */
  lemma NextGlyph(s: seq<byte>, p: nat, gs: seq<seq<byte>>, j: nat)
    requires p < |s| && j <= |gs| && GlyphsFrom(s, p) == gs[j..]
    ensures j < |gs| && gs[j] == s[p..p + Step(s, p)] && GlyphsFrom(s, p + Step(s, p)) == gs[j + 1..]
  {
    assert gs[j..] == [s[p..p + Step(s, p)]] + GlyphsFrom(s, p + Step(s, p));
    assert gs[j + 1..] == gs[j..][1..];
  }

  lemma TextPaintSnoc(gs: seq<seq<byte>>, j: nat)
    requires j < |gs|
    ensures TextPaint(gs)[..j + 1] == TextPaint(gs)[..j] + [Text(gs[j])]
  {
  }

  /** One column segment of a text row: the glyph walk, then the padding loop. */
  method WriteSegment(buf: array<Cell>, rows: nat, cols: nat, row: nat, base: nat, innerW: nat,
                      d0: nat, s: seq<byte>, w: nat) returns (d: nat)
    requires buf.Length == rows * cols && row < rows && d0 + w <= innerW
    modifies buf
    ensures d == d0 + w
    ensures PaintedAll(buf[..], old(buf[..]), cols, row, base + d0, SegPaint(s, w))
  {
    ghost var b0 := buf[..];
    var written;
    d, written := GlyphWalk(buf, rows, cols, row, base, innerW, d0, s, w);
    ghost var b1 := buf[..];
    d := PadSegment(buf, rows, cols, row, base, innerW, d, w - written);
    forall k | 0 <= k < buf.Length
      ensures buf[..][k] == Painted(b0[k], RowOf(k, cols), ColOf(k, cols), row, base + d0, SegPaint(s, w))
    {
      PaintedConcat(b0[k], RowOf(k, cols), ColOf(k, cols), row, base + d0,
                    TextPaint(Glyphs(s))[..written], Blanks(w - written));
    }
  }

  /** The body of the row loop for one text row on the screen. */
  method PaintRow(buf: array<Cell>, rows: nat, cols: nat, b: Box, row: nat, logoLine: seq<byte>, infoLine: seq<byte>)
    requires buf.Length == rows * cols && row < rows
    modifies buf
    ensures PaintedAll(buf[..], old(buf[..]), cols, row, b.startCol + 1, RowPaint(b, logoLine, infoLine))
  {
    ghost var b0 := buf[..];
    var base := b.startCol + 1;
    var innerW := InnerW(b);
    var d := 0;
    ghost var acc: seq<Paint> := [];
    PaintedNone(b0, cols, row, base);
    d, acc := SegmentIf(buf, rows, cols, row, base, innerW, d, b.logoW > 0, logoLine, b.logoW, b0, acc);
    d, acc := GapIf(buf, rows, cols, row, base, innerW, d, b.logoW > 0 && b.infoW > 0, b0, acc);
    d, acc := SegmentIf(buf, rows, cols, row, base, innerW, d, b.infoW > 0, infoLine, b.infoW, b0, acc);
    assert acc == RowPaint(b, logoLine, infoLine);
  }

  /** `if (on) d = write_segment(...)`: the segment painted when `on`, nothing otherwise, after
      the paints `acc` already laid from `base`. */
  method SegmentIf(buf: array<Cell>, rows: nat, cols: nat, row: nat, base: nat, innerW: nat,
                   d0: nat, on: bool, s: seq<byte>, w: nat, ghost b0: seq<Cell>, ghost acc: seq<Paint>)
    returns (d: nat, ghost acc': seq<Paint>)
    requires buf.Length == rows * cols && row < rows && (on ==> d0 + w <= innerW)
    requires d0 == |acc| && PaintedAll(buf[..], b0, cols, row, base, acc)
    modifies buf
    ensures acc' == acc + (if on then SegPaint(s, w) else []) && d == |acc'|
    ensures PaintedAll(buf[..], b0, cols, row, base, acc')
  {
    if on {
      ghost var mid := buf[..];
      d := WriteSegment(buf, rows, cols, row, base, innerW, d0, s, w);
      PaintedAppend(b0, mid, buf[..], cols, row, base, base + d0, acc, SegPaint(s, w));
      acc' := acc + SegPaint(s, w);
    } else {
      d := d0;
      acc' := acc + [];
      assert acc' == acc;
    }
  }

  /** `if (on) d = pad(...)`: the column gap painted blank when `on`, nothing otherwise. */
  method GapIf(buf: array<Cell>, rows: nat, cols: nat, row: nat, base: nat, innerW: nat,
               d0: nat, on: bool, ghost b0: seq<Cell>, ghost acc: seq<Paint>)
    returns (d: nat, ghost acc': seq<Paint>)
    requires buf.Length == rows * cols && row < rows && (on ==> d0 + COLUMN_GAP <= innerW)
    requires d0 == |acc| && PaintedAll(buf[..], b0, cols, row, base, acc)
    modifies buf
    ensures acc' == acc + (if on then Blanks(COLUMN_GAP) else []) && d == |acc'|
    ensures PaintedAll(buf[..], b0, cols, row, base, acc')
  {
    if on {
      ghost var mid := buf[..];
      d := PadSegment(buf, rows, cols, row, base, innerW, d0, COLUMN_GAP);
      PaintedAppend(b0, mid, buf[..], cols, row, base, base + d0, acc, Blanks(COLUMN_GAP));
      acc' := acc + Blanks(COLUMN_GAP);
    } else {
      d := d0;
      acc' := acc + [];
      assert acc' == acc;
    }
  }

  /** Painting nothing changes nothing. */
  lemma PaintedNone(a: seq<Cell>, cols: nat, row: nat, from: nat)
    ensures PaintedAll(a, a, cols, row, from, [])
  {
  }

  /** A segment painted right after the paints `a` extends them. */
  lemma PaintedAppend(b0: seq<Cell>, b1: seq<Cell>, b2: seq<Cell>, cols: nat, row: nat, base: nat,
                      from: nat, a: seq<Paint>, p: seq<Paint>)
    requires from == base + |a|
    requires PaintedAll(b1, b0, cols, row, base, a)
    requires PaintedAll(b2, b1, cols, row, from, p)
    ensures PaintedAll(b2, b0, cols, row, base, a + p)
  {
    forall k | 0 <= k < |b0|
      ensures b2[k] == Painted(b0[k], RowOf(k, cols), ColOf(k, cols), row, base, a + p)
    {
      PaintedConcat(b0[k], RowOf(k, cols), ColOf(k, cols), row, base, a, p);
    }
  }

  /** mf_hidden_overlay_buffer(buf, rows, cols, formatted, widths, count): the box for the
      logo lines and the formatted lines is blanked, then each text row on the screen gets its
      row's paint; cells outside the box are left alone. */
  method Overlay(buf: array<Cell>, rows: nat, cols: nat, logo: seq<seq<byte>>, info: seq<seq<byte>>, widths: seq<nat>)
    requires buf.Length == rows * cols && |widths| == |info|
    modifies buf
    ensures forall k | 0 <= k < buf.Length ::
      buf[k] == Overlaid(Layout(rows, cols, logo, widths), logo, info, old(buf[k]), RowOf(k, cols), ColOf(k, cols))
  {
    ghost var b0 := buf[..];
    var b := ComputeBox(rows, cols, logo, widths);
    BlankBox(buf, rows, cols, b);
    ghost var b1 := buf[..];
    var i := 0;
    while i < b.overlayRows
      invariant 0 <= i <= b.overlayRows
      invariant forall k | 0 <= k < buf.Length ::
        buf[k] == Staged(b, logo, info, b1[k], RowOf(k, cols), ColOf(k, cols), i)
    {
      TextRow(buf, rows, cols, b, logo, info, i, b1);
      i := i + 1;
    }
    forall k | 0 <= k < buf.Length
      ensures buf[k] == Overlaid(b, logo, info, b0[k], RowOf(k, cols), ColOf(k, cols))
    {
      StagedDone(b, logo, info, b0[k], RowOf(k, cols), ColOf(k, cols));
    }
  }

  /** The body of the text-row loop: row start_row + 1 + i, when it is on the screen, gets its
      row's paint. */
  method TextRow(buf: array<Cell>, rows: nat, cols: nat, b: Box, logo: seq<seq<byte>>, info: seq<seq<byte>>,
                 i: nat, ghost b1: seq<Cell>)
    requires buf.Length == rows * cols && |b1| == buf.Length && i < b.overlayRows
    requires forall k | 0 <= k < buf.Length :: buf[k] == Staged(b, logo, info, b1[k], RowOf(k, cols), ColOf(k, cols), i)
    modifies buf
    ensures forall k | 0 <= k < buf.Length :: buf[k] == Staged(b, logo, info, b1[k], RowOf(k, cols), ColOf(k, cols), i + 1)
  {
    var row := b.startRow + 1 + i;
    ghost var before := buf[..];
    ghost var ps := RowPaint(b, Line(logo, i), Line(info, i));
    if row < rows {
      PaintRow(buf, rows, cols, b, row, Line(logo, i), Line(info, i));
    } else {
      forall k | 0 <= k < buf.Length
        ensures buf[k] == Painted(before[k], RowOf(k, cols), ColOf(k, cols), row, b.startCol + 1, ps)
      {
        RowBound(k, rows, cols);
      }
    }
    forall k | 0 <= k < buf.Length
      ensures buf[k] == Staged(b, logo, info, b1[k], RowOf(k, cols), ColOf(k, cols), i + 1)
    {
      StagedStep(b, logo, info, b1[k], before[k], buf[k], RowOf(k, cols), ColOf(k, cols), i);
    }
  }

  /** The cells after the blanking loop and the first n text rows. */
  function Staged(b: Box, logo: seq<seq<byte>>, info: seq<seq<byte>>, blanked: Cell, r: nat, c: nat, n: nat): Cell
  {
    if InInner(b, r, c) && r < b.startRow + 1 + n then
      var i := r - b.startRow - 1;
      PaintCell(blanked, RowPaint(b, Line(logo, i), Line(info, i))[c - b.startCol - 1])
    else blanked
  }

  /** Text row i paints its row and nothing else. */
  lemma StagedStep(b: Box, logo: seq<seq<byte>>, info: seq<seq<byte>>, x: Cell, y: Cell, z: Cell, r: nat, c: nat, i: nat)
    requires i < b.overlayRows
    requires y == Staged(b, logo, info, x, r, c, i)
    requires z == Painted(y, r, c, b.startRow + 1 + i, b.startCol + 1, RowPaint(b, Line(logo, i), Line(info, i)))
    ensures z == Staged(b, logo, info, x, r, c, i + 1)
  {
  }

  /** Once every text row is painted, the blanked box holds the overlay. */
  lemma StagedDone(b: Box, logo: seq<seq<byte>>, info: seq<seq<byte>>, x: Cell, r: nat, c: nat)
    ensures Staged(b, logo, info, if InBox(b, r, c) then SetChar(x, SPACE) else x, r, c, b.overlayRows)
      == Overlaid(b, logo, info, x, r, c)
  {
    if InInner(b, r, c) {
      var j := r - b.startRow - 1;
      PaintOverBlank(x, RowPaint(b, Line(logo, j), Line(info, j))[c - b.startCol - 1]);
    }
  }

  /** Every paint of a segment is a space or a glyph of 1 to 4 bytes. */
  predicate Displayable(p: Paint) { p.Text? ==> 1 <= |p.glyph| <= 4 }

  lemma SegDisplayable(s: seq<byte>, w: nat, d: nat)
    requires d < w
    ensures Displayable(SegPaint(s, w)[d])
  {
    GlyphsCover(s);
    var gs := Glyphs(s);
    var m := Min(w, |gs|);
    if d < m {
      assert SegPaint(s, w)[d] == Text(gs[d]);
    } else {
      assert SegPaint(s, w)[d] == Blank;
    }
  }

  lemma RowDisplayable(b: Box, l: seq<byte>, f: seq<byte>, d: nat)
    requires d < InnerW(b)
    ensures Displayable(RowPaint(b, l, f)[d])
  {
    var ps := RowPaint(b, l, f);
    var lseg := if b.logoW > 0 then SegPaint(l, b.logoW) else [];
    var gap := if b.logoW > 0 && b.infoW > 0 then Blanks(COLUMN_GAP) else [];
    var fseg := if b.infoW > 0 then SegPaint(f, b.infoW) else [];
    assert ps == lseg + gap + fseg;
    if d < |lseg| {
      assert ps[d] == lseg[d];
      SegDisplayable(l, b.logoW, d);
    } else if d < |lseg| + |gap| {
      assert ps[d] == gap[d - |lseg|];
    } else {
      assert ps[d] == fseg[d - |lseg| - |gap|];
      SegDisplayable(f, b.infoW, d - |lseg| - |gap|);
    }
  }

  /** Each text cell of the overlay shows what its row paints there (so a row of the box reads
      as RowShows says), and the border shows spaces. */
  lemma OverlayShows(b: Box, logo: seq<seq<byte>>, info: seq<seq<byte>>, x: Cell, r: nat, c: nat)
    requires InBox(b, r, c)
    ensures !InInner(b, r, c) ==> Glyph(Overlaid(b, logo, info, x, r, c)) == [SPACE]
    ensures InInner(b, r, c) ==>
      var ps := RowPaint(b, Line(logo, r - b.startRow - 1), Line(info, r - b.startRow - 1));
      Glyph(Overlaid(b, logo, info, x, r, c)) == PaintGlyph(ps[c - b.startCol - 1])
  {
    if InInner(b, r, c) {
      var i := r - b.startRow - 1;
      var d := c - b.startCol - 1;
      var ps := RowPaint(b, Line(logo, i), Line(info, i));
      RowDisplayable(b, Line(logo, i), Line(info, i), d);
      PaintShows(x, ps[d]);
    }
  }

  // ---------------------------------------------------------------------------
  // The glyph step of the overlay walk, as written and guarded
  // ---------------------------------------------------------------------------

  /** The overlay walk of the source advances by mf_hidden_utf8_glyph_len(p), which looks at
      the lead byte only. */
  function AsWrittenStep(s: seq<byte>, p: nat): nat
    requires p < |s|
  {
    GlyphLen(s[p])
  }

  /** As written, a line whose last byte is a lead byte moves the walk's pointer past the
      terminator: the line C3 (then NUL) advances by 2 from offset 0, to offset 2, one past the
      terminator at offset 1, and the next test of *p reads outside the string. */
  lemma AsWrittenStepOverruns()
    ensures var s: seq<byte> := [0xC3];
      IsText(s) && AsWrittenStep(s, 0) == 2 && 0 + AsWrittenStep(s, 0) > |s|
  {
  }

  /** The same happens for every line that ends inside a multi-byte sequence. */
  lemma AsWrittenStepOverrunsAtEnd(s: seq<byte>, p: nat)
    requires IsText(s) && p < |s| && 0xC0 <= s[p] <= 0xF7
    requires p + 4 > |s|
    requires s[p] < 0xE0 ==> p + 1 == |s|
    requires 0xE0 <= s[p] < 0xF0 ==> p + 2 >= |s|
    ensures p + AsWrittenStep(s, p) > |s|
  {
    GlyphLenClasses(s[p]);
  }

  /** The guarded step (the one mf_utf8_display_width takes) agrees with the lead-byte length
      whenever the sequence fits before the terminator and falls back to 1 when it does not,
      so it never passes the terminator; the overlay above walks with it. */
  lemma GuardedStepAgrees(s: seq<byte>, p: nat)
    requires IsText(s) && p < |s|
    ensures p + Step(s, p) <= |s|
    ensures p + GlyphLen(s[p]) <= |s| ==> Step(s, p) == GlyphLen(s[p])
    ensures p + GlyphLen(s[p]) > |s| ==> Step(s, p) == 1
  {
    GlyphLenClasses(s[p]);
    assert s[p] != NUL;
  }

  // ---------------------------------------------------------------------------
  // The status line
  // ---------------------------------------------------------------------------

  /** The hint written on the last row. */
  const HUD: seq<byte> := Ascii("press q to exit hidden mode")

  /** The byte the status line shows in column c. */
  function HudByte(c: int): byte
  {
    if 0 <= c < |HUD| then HUD[c] else SPACE
  }

  /** The status line reads the hint, cut at the screen's width, then spaces. */
  lemma HudText(cols: nat)
    ensures |HUD| == 27
    ensures seq(cols, c => HudByte(c)) == HUD[..Min(|HUD|, cols)] + Spaces(cols - Min(|HUD|, cols))
  {
    var m := Min(|HUD|, cols);
    var t := seq(cols, c => HudByte(c));
    var u := HUD[..m] + Spaces(cols - m);
    assert |t| == |u|;
    forall c | 0 <= c < cols
      ensures t[c] == u[c]
    {
      if c < m {
        assert u[c] == HUD[c];
      } else {
        assert u[c] == Spaces(cols - m)[c - m];
      }
    }
  }

  /** mf_hidden_write_hud(buf, rows, cols): the last row becomes the status line; nothing
      happens on a screen without rows. */
  method WriteHud(buf: array<Cell>, rows: nat, cols: nat)
    requires buf.Length == rows * cols
    modifies buf
    ensures forall k | 0 <= k < buf.Length ::
      buf[k] == if RowOf(k, cols) == rows - 1 then SetChar(old(buf[k]), HudByte(ColOf(k, cols))) else old(buf[k])
  {
    if rows < 1 {
      return;
    }
    var row := rows - 1;
    BlankSpan(buf, rows, cols, row, 0, cols);
    WriteText(buf, rows, cols, row, HUD);
    forall j | 0 <= j < buf.Length
      ensures buf[j] == if RowOf(j, cols) == row then SetChar(old(buf[j]), HudByte(ColOf(j, cols))) else old(buf[j])
    {
      RowBound(j, rows, cols);
      if RowOf(j, cols) == row {
        SetCharTwice(old(buf[j]), SPACE, HudByte(ColOf(j, cols)));
      }
    }
  }

  /** The second loop of mf_hidden_write_hud: the text's bytes from column 0, as many as fit. */
  method WriteText(buf: array<Cell>, rows: nat, cols: nat, row: nat, text: seq<byte>)
    requires buf.Length == rows * cols && row < rows
    modifies buf
    ensures forall j | 0 <= j < buf.Length ::
      buf[j] == if RowOf(j, cols) == row && ColOf(j, cols) < |text| then SetChar(old(buf[j]), text[ColOf(j, cols)]) else old(buf[j])
  {
    ghost var b1 := buf[..];
    var n := |text|;
    var k := 0;
    while k < n && k < cols
      invariant 0 <= k <= n
      invariant forall j | 0 <= j < buf.Length ::
        buf[j] == if RowOf(j, cols) == row && ColOf(j, cols) < k then SetChar(b1[j], text[ColOf(j, cols)]) else b1[j]
    {
      FlatIndex(row, k, cols);
      IndexBound(row, k, rows, cols);
      buf[row * cols + k] := SetChar(buf[row * cols + k], text[k]);
      forall j | 0 <= j < buf.Length
        ensures buf[j] == if RowOf(j, cols) == row && ColOf(j, cols) < k + 1 then SetChar(b1[j], text[ColOf(j, cols)]) else b1[j]
      {
        RowBound(j, rows, cols);
      }
      k := k + 1;
    }
    forall j | 0 <= j < buf.Length
      ensures buf[j] == if RowOf(j, cols) == row && ColOf(j, cols) < |text| then SetChar(b1[j], text[ColOf(j, cols)]) else b1[j]
    {
      RowBound(j, rows, cols);
    }
  }

  /** A second set_char replaces the first. */
  lemma SetCharTwice(x: Cell, a: byte, b: byte)
    ensures SetChar(SetChar(x, a), b) == SetChar(x, b)
  {
    assert SetChar(x, a).bytes[1..] == x.bytes[1..];
  }
}
