/** src/hidden.c, the frame buffers of hidden mode and one frame of its animation: the two
    grids curr and prev with their dimensions (mf_hidden_ensure_buffers), the noise pass that
    fills every cell from the gradient lut, the overlay, the status line and the diff. */
module HiddenScreen {
  import opened CBytes
  import opened Grid
  import opened HiddenCell
  import opened HiddenTerminal
  import opened HiddenOverlay
  import opened HiddenDiff

  /** The frame loop's clamp of a noise intensity to the 256 lut entries. */
  function LutIndex(v: int): (i: nat)
    ensures i <= 255
    ensures 0 <= v <= 255 ==> i == v
    ensures v < 0 ==> i == 0
    ensures v > 255 ==> i == 255
  {
    if v < 0 then 0 else if v > 255 then 255 else v
  }

  /** A cell after the noise pass: the gradient character for its intensity. */
  function NoiseCell(x: Cell, lut: seq<byte>, v: int): Cell
    requires |lut| == 256
  {
    SetChar(x, lut[LutIndex(v)])
  }

  /** Cell (r, c) of a frame drawn over the old cell x, whose noise intensity (before the
      clamp) is v, for the box b: noise, then the overlay, then the status line on the last
      row. */
  function BoxFrameCell(b: Box, rows: nat, lut: seq<byte>, logo: seq<seq<byte>>, info: seq<seq<byte>>,
                        x: Cell, v: int, r: nat, c: nat): Cell
    requires |lut| == 256
  {
    var o := Overlaid(b, logo, info, NoiseCell(x, lut, v), r, c);
    if r == rows - 1 then SetChar(o, HudByte(c)) else o
  }

  /** Cell k of a frame. */
  function FrameCell(rows: nat, cols: nat, lut: seq<byte>, logo: seq<seq<byte>>, info: seq<seq<byte>>,
                     widths: seq<nat>, x: Cell, v: int, k: nat): Cell
    requires |lut| == 256
  {
    BoxFrameCell(Layout(rows, cols, logo, widths), rows, lut, logo, info, x, v, RowOf(k, cols), ColOf(k, cols))
  }

  /** The whole frame drawn over the old grid, for the intensities `noise` of its cells. */
  function Frame(rows: nat, cols: nat, lut: seq<byte>, noise: seq<int>,
                 logo: seq<seq<byte>>, info: seq<seq<byte>>, widths: seq<nat>, old_: seq<Cell>): (f: seq<Cell>)
    requires |lut| == 256 && |noise| == |old_|
    ensures |f| == |old_|
  {
    seq(|old_|, k requires 0 <= k < |old_| => FrameCell(rows, cols, lut, logo, info, widths, old_[k], noise[k], k))
  }

  /** What cell (r, c) shows for the box b: the status line on the last row; inside the box
      its text or a space; elsewhere the gradient character for the cell's intensity. */
  function BoxGlyph(b: Box, rows: nat, lut: seq<byte>, logo: seq<seq<byte>>, info: seq<seq<byte>>,
                    v: int, r: nat, c: nat): seq<byte>
    requires |lut| == 256
  {
    if r == rows - 1 then [HudByte(c)]
    else if InInner(b, r, c) then
      var i := r - b.startRow - 1;
      PaintGlyph(RowPaint(b, Line(logo, i), Line(info, i))[c - b.startCol - 1])
    else if InBox(b, r, c) then [SPACE]
    else [lut[LutIndex(v)]]
  }

  /** What cell (r, c) of a frame shows. */
  function FrameGlyph(rows: nat, cols: nat, lut: seq<byte>, logo: seq<seq<byte>>, info: seq<seq<byte>>,
                      widths: seq<nat>, v: int, r: nat, c: nat): seq<byte>
    requires |lut| == 256
  {
    BoxGlyph(Layout(rows, cols, logo, widths), rows, lut, logo, info, v, r, c)
  }

  /** Every cell of a frame shows its frame glyph, whatever the grid held before: each frame
      repaints the whole screen. */
  lemma FrameShows(rows: nat, cols: nat, lut: seq<byte>, logo: seq<seq<byte>>, info: seq<seq<byte>>,
                   widths: seq<nat>, x: Cell, v: int, k: nat)
    requires |lut| == 256
    ensures Glyph(FrameCell(rows, cols, lut, logo, info, widths, x, v, k))
      == FrameGlyph(rows, cols, lut, logo, info, widths, v, RowOf(k, cols), ColOf(k, cols))
  {
    BoxCellShows(Layout(rows, cols, logo, widths), rows, lut, logo, info, x, v, RowOf(k, cols), ColOf(k, cols));
  }

  /** FrameShows for any box placement. */
  lemma BoxCellShows(b: Box, rows: nat, lut: seq<byte>, logo: seq<seq<byte>>, info: seq<seq<byte>>,
                     x: Cell, v: int, r: nat, c: nat)
    requires |lut| == 256
    ensures Glyph(BoxFrameCell(b, rows, lut, logo, info, x, v, r, c)) == BoxGlyph(b, rows, lut, logo, info, v, r, c)
  {
    var n := NoiseCell(x, lut, v);
    var o := Overlaid(b, logo, info, n, r, c);
    if r == rows - 1 {
      assert BoxFrameCell(b, rows, lut, logo, info, x, v, r, c) == SetChar(o, HudByte(c));
    } else if InBox(b, r, c) {
      OverlayShows(b, logo, info, n, r, c);
    } else {
      assert o == n;
    }
  }

  /** The terminal after a frame: on a screen that showed the previous frame, the renderer's
      output leaves every cell showing its frame glyph. */
  lemma PresentShowsFrame(rows: nat, cols: nat, lut: seq<byte>, noise: seq<int>,
                          logo: seq<seq<byte>>, info: seq<seq<byte>>, widths: seq<nat>,
                          prev: seq<Cell>, painted: seq<Cell>, cursor: int)
    requires |lut| == 256 && |prev| == |painted| == |noise| == rows * cols
    ensures var f := Frame(rows, cols, lut, noise, logo, info, widths, painted);
      var s := Screen(seq(|prev|, k requires 0 <= k < |prev| => Glyph(prev[k])), cursor);
      var t := ExecAll(s, cols, DiffOutput(prev, f, cols));
      |t.cells| == rows * cols &&
      forall k | 0 <= k < rows * cols ::
        t.cells[k] == FrameGlyph(rows, cols, lut, logo, info, widths, noise[k], RowOf(k, cols), ColOf(k, cols))
  {
    var f := Frame(rows, cols, lut, noise, logo, info, widths, painted);
    if cols == 0 {
      assert rows * cols == 0;
    }
    DiffConverges(prev, f, cols, cursor);
    forall k | 0 <= k < rows * cols
      ensures Glyph(f[k]) == FrameGlyph(rows, cols, lut, logo, info, widths, noise[k], RowOf(k, cols), ColOf(k, cols))
    {
      FrameShows(rows, cols, lut, logo, info, widths, painted[k], noise[k], k);
    }
  }

  /** The two grids and their dimensions (curr_buf, prev_buf, buf_rows, buf_cols). The two
      coordinate tables fx and fy are allocated with them and only feed the noise, so they are
      not modelled. */
  class FrameBuffers {
    var curr: array?<Cell>
    var prev: array?<Cell>
    var bufRows: int
    var bufCols: int

    /** Either no grids, or two distinct grids of bufRows * bufCols cells. */
    predicate Valid()
      reads this
    {
      (curr == null <==> prev == null) &&
      (curr != null ==>
         curr != prev && bufRows > 0 && bufCols > 0 && curr.Length == prev.Length == bufRows * bufCols)
    }

    /** Grids of the given size exist. */
    predicate Ready(rows: int, cols: int)
      reads this
    {
      bufRows == rows && bufCols == cols && curr != null && prev != null
    }

    /** All pointers NULL and both dimensions 0. */
    constructor()
      ensures Valid() && curr == null && prev == null && bufRows == 0 && bufCols == 0
    {
      curr := null;
      prev := null;
      bufRows := 0;
      bufCols := 0;
    }

    /** mf_hidden_ensure_buffers(rows, cols, ...); `allocOk` says whether all four mallocs
        succeed. A size that is not positive fails; grids of the right size are kept; a failed
        allocation keeps the old grids and dimensions; otherwise two new grids of spaces
        replace the old ones. */
    method Ensure(rows: int, cols: int, allocOk: bool) returns (rc: int)
      requires Valid()
      modifies this
      ensures Valid()
      ensures rc == 0 <==> rows > 0 && cols > 0 && (old(Ready(rows, cols)) || allocOk)
      ensures rc != 0 ==> rc == -1
      ensures rc == 0 ==> Ready(rows, cols)
      ensures rc != 0 || old(Ready(rows, cols)) ==> unchanged(this)
      ensures rc == 0 && !old(Ready(rows, cols)) ==>
        fresh(curr) && fresh(prev) &&
        (forall k | 0 <= k < curr.Length :: Glyph(curr[k]) == [SPACE]) &&
        (forall k | 0 <= k < prev.Length :: Glyph(prev[k]) == [SPACE])
    {
      if rows <= 0 || cols <= 0 {
        return -1;
      }
      if bufRows == rows && bufCols == cols && curr != null && prev != null {
        return 0;
      }
      var total := rows * cols;
      if !allocOk {
        return -1;
      }
      var newCurr := new Cell[total](_ => Uninit);
      var newPrev := new Cell[total](_ => Uninit);
      var idx := 0;
      while idx < total
        invariant 0 <= idx <= total
        invariant forall k | 0 <= k < idx :: Glyph(newCurr[k]) == [SPACE] && Glyph(newPrev[k]) == [SPACE]
      {
        newPrev[idx] := SetChar(newPrev[idx], SPACE);
        newCurr[idx] := SetChar(newCurr[idx], SPACE);
        idx := idx + 1;
      }
      curr := newCurr;
      prev := newPrev;
      bufRows := rows;
      bufCols := cols;
      rc := 0;
    }

    /** The copy after a resize: prev takes curr's cells. */
    method CopyCurrToPrev()
      requires Valid() && curr != null
      modifies prev
      ensures prev[..] == curr[..]
    {
      var total := bufRows * bufCols;
      var idx := 0;
      while idx < total
        invariant 0 <= idx <= total
        invariant forall k | 0 <= k < idx :: prev[k] == curr[k]
      {
        prev[idx] := curr[idx];
        idx := idx + 1;
      }
      assert prev[..] == curr[..];
    }

    /** The noise pass of the frame loop, row by row: every cell gets the lut entry for its
        clamped intensity, noise[row * cols + col] being the intensity of (row, col). */
    method PaintNoise(lut: seq<byte>, noise: seq<int>)
      requires Valid() && curr != null && |lut| == 256 && |noise| == curr.Length
      modifies curr
      ensures forall k | 0 <= k < curr.Length :: curr[k] == NoiseCell(old(curr[k]), lut, noise[k])
    {
      var rows: nat := bufRows;
      var cols: nat := bufCols;
      ghost var c0 := curr[..];
      var y := 0;
      while y < rows
        invariant 0 <= y <= rows
        invariant forall k | 0 <= k < curr.Length ::
          curr[k] == if RowOf(k, cols) < y then NoiseCell(c0[k], lut, noise[k]) else c0[k]
      {
        NoiseRow(curr, rows, cols, y, lut, noise);
        forall k | 0 <= k < curr.Length
          ensures curr[k] == if RowOf(k, cols) < y + 1 then NoiseCell(c0[k], lut, noise[k]) else c0[k]
        {
          RowBound(k, rows, cols);
        }
        y := y + 1;
      }
      forall k | 0 <= k < curr.Length
        ensures curr[k] == NoiseCell(c0[k], lut, noise[k])
      {
        RowBound(k, rows, cols);
      }
    }

    /** The painting half of a frame: noise, overlay, status line. */
    method DrawFrame(lut: seq<byte>, noise: seq<int>, logo: seq<seq<byte>>,
                     info: seq<seq<byte>>, widths: seq<nat>)
      requires Valid() && curr != null && |lut| == 256 && |noise| == curr.Length && |widths| == |info|
      modifies curr
      ensures curr[..] == Frame(bufRows, bufCols, lut, noise, logo, info, widths, old(curr[..]))
    {
      var rows: nat := bufRows;
      var cols: nat := bufCols;
      ghost var c0 := curr[..];
      PaintNoise(lut, noise);
      ghost var c1 := curr[..];
      Overlay(curr, rows, cols, logo, info, widths);
      ghost var c2 := curr[..];
      WriteHud(curr, rows, cols);
      ghost var f := Frame(rows, cols, lut, noise, logo, info, widths, c0);
      forall k | 0 <= k < curr.Length
        ensures curr[k] == f[k]
      {
        FrameCellOf(rows, cols, lut, logo, info, widths, c0[k], c1[k], c2[k], curr[k], noise[k], k);
      }
      assert curr[..] == f;
    }

    /** One frame: the painting, then the diff against prev, which leaves prev holding the
        frame. */
    method RenderFrame(lut: seq<byte>, noise: seq<int>, logo: seq<seq<byte>>,
                       info: seq<seq<byte>>, widths: seq<nat>, term: Terminal)
      requires Valid() && curr != null && |lut| == 256 && |noise| == curr.Length && |widths| == |info|
      modifies curr, prev, term`out
      ensures curr[..] == Frame(bufRows, bufCols, lut, noise, logo, info, widths, old(curr[..]))
      ensures prev[..] == curr[..]
      ensures term.out == old(term.out) + DiffOutput(old(prev[..]), curr[..], bufCols)
    {
      DrawFrame(lut, noise, logo, info, widths);
      PresentDiff(curr, prev, bufRows, bufCols, term);
    }
  }

  /** The inner loop of the noise pass: row y, cell by cell from column 0. */
  method NoiseRow(buf: array<Cell>, rows: nat, cols: nat, y: nat, lut: seq<byte>, noise: seq<int>)
    requires buf.Length == rows * cols == |noise| && y < rows && |lut| == 256
    modifies buf
    ensures forall k | 0 <= k < buf.Length ::
      buf[k] == if RowOf(k, cols) == y then NoiseCell(old(buf[k]), lut, noise[k]) else old(buf[k])
  {
    ghost var b0 := buf[..];
    var rowBase := y * cols;
    var x := 0;
    while x < cols
      invariant 0 <= x <= cols
      invariant forall k | 0 <= k < buf.Length ::
        buf[k] == if RowOf(k, cols) == y && ColOf(k, cols) < x then NoiseCell(b0[k], lut, noise[k]) else b0[k]
    {
      FlatIndex(y, x, cols);
      IndexBound(y, x, rows, cols);
      buf[rowBase + x] := SetChar(buf[rowBase + x], lut[LutIndex(noise[rowBase + x])]);
      forall k | 0 <= k < buf.Length
        ensures buf[k] == if RowOf(k, cols) == y && ColOf(k, cols) < x + 1 then NoiseCell(b0[k], lut, noise[k]) else b0[k]
      {
        RowBound(k, rows, cols);
      }
      x := x + 1;
    }
    forall k | 0 <= k < buf.Length
      ensures buf[k] == if RowOf(k, cols) == y then NoiseCell(b0[k], lut, noise[k]) else b0[k]
    {
      RowBound(k, rows, cols);
    }
  }

  /** The three passes of a frame compose to FrameCell. */
  lemma FrameCellOf(rows: nat, cols: nat, lut: seq<byte>, logo: seq<seq<byte>>, info: seq<seq<byte>>,
                    widths: seq<nat>, x0: Cell, x1: Cell, x2: Cell, x3: Cell, v: int, k: nat)
    requires |lut| == 256
    requires x1 == NoiseCell(x0, lut, v)
    requires x2 == Overlaid(Layout(rows, cols, logo, widths), logo, info, x1, RowOf(k, cols), ColOf(k, cols))
    requires x3 == if RowOf(k, cols) == rows - 1 then SetChar(x2, HudByte(ColOf(k, cols))) else x2
    ensures x3 == FrameCell(rows, cols, lut, logo, info, widths, x0, v, k)
  {
  }
}
