/** src/hidden.c, mf_hidden_present_diff: the renderer that brings the terminal from the
    previous frame to the current one by rewriting only the cells that changed, one cursor
    escape per run of changed cells within a row. The grids are flat arrays in row-major
    order, cell (row, col) at index row * cols + col. */
module HiddenDiff {
  import opened CBytes
  import opened HiddenCell
  import opened HiddenTerminal

  /** The cells [start, end) of one run. */
  datatype Run = Run(start: nat, end: nat)

  /** Where the run scan starting at `idx` stops: at the end of the grid, at the first cell of
      another row, or at the first cell that did not change. */
  function RunEnd(prev: seq<Cell>, curr: seq<Cell>, cols: nat, row: nat, idx: nat): (e: nat)
    requires |prev| == |curr| && cols > 0 && idx <= |curr|
    ensures idx <= e <= |curr|
    ensures forall k | idx <= k < e :: k / cols == row && !Same(curr[k], prev[k])
    ensures e == |curr| || e / cols != row || Same(curr[e], prev[e])
    decreases |curr| - idx
  {
    if idx < |curr| && idx / cols == row && !Same(curr[idx], prev[idx]) then
      RunEnd(prev, curr, cols, row, idx + 1)
    else idx
  }

  /** The runs the renderer finds from position `pos` on, in the order it finds them. */
  function RunsFrom(prev: seq<Cell>, curr: seq<Cell>, cols: nat, pos: nat): seq<Run>
    requires |prev| == |curr| && cols > 0 && pos <= |curr|
    decreases |curr| - pos
  {
    if pos == |curr| then []
    else if Same(curr[pos], prev[pos]) then RunsFrom(prev, curr, cols, pos + 1)
    else
      var e := RunEnd(prev, curr, cols, pos / cols, pos + 1);
      [Run(pos, e)] + RunsFrom(prev, curr, cols, e)
  }

  /** One fwrite per cell of [a, b), in order (nothing for a range outside the grid). */
  function Puts(curr: seq<Cell>, a: nat, b: nat): (r: seq<Token>)
    decreases b
  {
    if b <= a || b > |curr| then [] else Puts(curr, a, b - 1) + [Put(Glyph(curr[b - 1]))]
  }

  /** The cursor escape to cell k: its 1-indexed row and column. */
  function RunEscape(k: nat, cols: nat): Token
    requires cols > 0
  {
    CursorTo(k / cols + 1, k % cols + 1)
  }

  /** For each run, the 1-indexed cursor escape of its first cell and then its cells' bytes. */
  function Emit(curr: seq<Cell>, cols: nat, runs: seq<Run>): seq<Token>
    requires cols > 0
  {
    if runs == [] then []
    else
      [RunEscape(runs[0].start, cols)]
      + Puts(curr, runs[0].start, runs[0].end) + Emit(curr, cols, runs[1..])
  }

  /** Everything one call of mf_hidden_present_diff writes (before the fflush). */
  function DiffRuns(prev: seq<Cell>, curr: seq<Cell>, cols: nat): seq<Run>
    requires |prev| == |curr|
  {
    if cols == 0 then [] else RunsFrom(prev, curr, cols, 0)
  }

  function DiffOutput(prev: seq<Cell>, curr: seq<Cell>, cols: nat): seq<Token>
    requires |prev| == |curr|
  {
    if cols == 0 then [] else Emit(curr, cols, RunsFrom(prev, curr, cols, 0))
  }

  /** mf_hidden_present_diff(curr, prev, rows, cols): writes the runs and leaves prev equal to
      curr. */
  method PresentDiff(curr: array<Cell>, prev: array<Cell>, rows: nat, cols: nat, term: Terminal)
    requires curr != prev && curr.Length == prev.Length == rows * cols
    modifies prev, term`out
    ensures prev[..] == curr[..]
    ensures term.out == old(term.out) + DiffOutput(old(prev[..]), curr[..], cols)
  {
    var total := rows * cols;
    ghost var p0 := prev[..];
    ghost var c := curr[..];
    ghost var out0 := term.out;
    var pos := 0;
    while pos < total
      invariant 0 <= pos <= total
      invariant forall k | 0 <= k < pos :: prev[k] == c[k]
      invariant forall k | pos <= k < total :: prev[k] == p0[k]
      invariant cols == 0 ==> term.out == out0
      invariant cols > 0 ==>
        out0 + Emit(c, cols, RunsFrom(p0, c, cols, 0)) == term.out + Emit(c, cols, RunsFrom(p0, c, cols, pos))
    {
      assert cols > 0;
      pos := Advance(curr, prev, total, cols, pos, term, p0, c);
    }
    assert prev[..] == c;
    if cols > 0 {
      assert RunsFrom(p0, c, cols, total) == [];
    }
  }

  /** One turn of the outer loop at `pos`: an unchanged cell is copied to prev; a changed one
      starts a run, which is scanned, written and copied. What remains to be written afterwards
      is the output of the runs from the new position. */
  method Advance(curr: array<Cell>, prev: array<Cell>, total: nat, cols: nat, pos: nat, term: Terminal,
                 ghost p0: seq<Cell>, ghost c: seq<Cell>)
    returns (next: nat)
    requires curr != prev && curr[..] == c && prev.Length == total == |p0| == |c| && cols > 0 && pos < total
    requires forall k | 0 <= k < pos :: prev[k] == c[k]
    requires forall k | pos <= k < total :: prev[k] == p0[k]
    modifies prev, term`out
    ensures pos < next <= total
    ensures forall k | 0 <= k < next :: prev[k] == c[k]
    ensures forall k | next <= k < total :: prev[k] == p0[k]
    ensures old(term.out) + Emit(c, cols, RunsFrom(p0, c, cols, pos))
      == term.out + Emit(c, cols, RunsFrom(p0, c, cols, next))
  {
    ghost var out0 := term.out;
    if !Same(curr[pos], prev[pos]) {
      var idx := ScanRun(curr, prev, total, cols, pos, p0, c);
      EmitRun(p0, c, cols, pos);
      next := WriteRun(curr, prev, total, cols, pos, idx, term, p0, c);
      OutputAssoc(out0, [RunEscape(pos, cols)], Puts(c, pos, idx),
                  Emit(c, cols, RunsFrom(p0, c, cols, idx)));
    } else {
      prev[pos] := curr[pos];
      next := pos + 1;
      EmitSkip(p0, c, cols, pos);
    }
  }

  lemma OutputAssoc(o: seq<Token>, a: seq<Token>, b: seq<Token>, rest: seq<Token>)
    ensures o + (a + b + rest) == o + a + b + rest
  {
  }

  /** What remains to be written from a changed cell: its run's escape and cells, then the rest. */
  lemma EmitRun(prev: seq<Cell>, curr: seq<Cell>, cols: nat, pos: nat)
    requires |prev| == |curr| && cols > 0 && pos < |curr| && !Same(curr[pos], prev[pos])
    ensures var e := RunEnd(prev, curr, cols, pos / cols, pos + 1);
      Emit(curr, cols, RunsFrom(prev, curr, cols, pos))
         == [RunEscape(pos, cols)] + Puts(curr, pos, e) + Emit(curr, cols, RunsFrom(prev, curr, cols, e))
  {
    var e := RunEnd(prev, curr, cols, pos / cols, pos + 1);
    var rest := RunsFrom(prev, curr, cols, e);
    var runs := [Run(pos, e)] + rest;
    assert RunsFrom(prev, curr, cols, pos) == runs;
    assert runs[1..] == rest;
  }

  /** What remains to be written from an unchanged cell is what remains from the next one. */
  lemma EmitSkip(prev: seq<Cell>, curr: seq<Cell>, cols: nat, pos: nat)
    requires |prev| == |curr| && cols > 0 && pos < |curr| && Same(curr[pos], prev[pos])
    ensures RunsFrom(prev, curr, cols, pos) == RunsFrom(prev, curr, cols, pos + 1)
  {
  }

  /** The run scan of mf_hidden_present_diff: from the changed cell at `pos`, the index of the
      first cell past the run. It reads prev only at and after `pos`, where it still holds the
      previous frame. */
  method ScanRun(curr: array<Cell>, prev: array<Cell>, total: nat, cols: nat, pos: nat,
                 ghost p0: seq<Cell>, ghost c: seq<Cell>)
    returns (idx: nat)
    requires curr[..] == c && prev.Length == total == |p0| == |c| && cols > 0 && pos < total
    requires forall k | pos <= k < total :: prev[k] == p0[k]
    ensures idx == RunEnd(p0, c, cols, pos / cols, pos + 1)
  {
    var row := pos / cols;
    idx := pos + 1;
    while idx < total
      invariant pos + 1 <= idx <= total
      invariant RunEnd(p0, c, cols, row, idx) == RunEnd(p0, c, cols, row, pos + 1)
    {
      var nextRow := idx / cols;
      if nextRow != row {
        break;
      }
      if Same(curr[idx], prev[idx]) {
        break;
      }
      idx := idx + 1;
    }
  }

  /** The cursor escape of the run [pos, idx), then each of its cells written and copied to
      prev. */
  method WriteRun(curr: array<Cell>, prev: array<Cell>, total: nat, cols: nat, pos: nat, idx: nat,
                  term: Terminal, ghost p0: seq<Cell>, ghost c: seq<Cell>)
    returns (next: nat)
    requires curr != prev && curr[..] == c && prev.Length == total == |p0| == |c| && cols > 0
    requires pos < idx <= total
    requires forall k | 0 <= k < pos :: prev[k] == c[k]
    requires forall k | pos <= k < total :: prev[k] == p0[k]
    modifies prev, term`out
    ensures next == idx
    ensures term.out == old(term.out) + [RunEscape(pos, cols)] + Puts(c, pos, idx)
    ensures forall k | 0 <= k < idx :: prev[k] == c[k]
    ensures forall k | idx <= k < total :: prev[k] == p0[k]
  {
    var row := pos / cols;
    var col := pos % cols;
    term.out := term.out + [CursorTo(row + 1, col + 1)];
    ghost var outRun := term.out;
    next := pos;
    while next < idx
      invariant pos <= next <= idx
      invariant term.out == outRun + Puts(c, pos, next)
      invariant forall k | 0 <= k < next :: prev[k] == c[k]
      invariant forall k | next <= k < total :: prev[k] == p0[k]
    {
      term.out := term.out + [Put(Glyph(curr[next]))];
      prev[next] := curr[next];
      next := next + 1;
    }
  }

  // ---------------------------------------------------------------------------------------
  // What the runs are

  /** A run of the renderer: non-empty, inside one row, made of changed cells only, and as long
      as it can be (its end is the grid's end, a row boundary or an unchanged cell). */
  predicate GoodRun(prev: seq<Cell>, curr: seq<Cell>, cols: nat, r: Run)
    requires |prev| == |curr| && cols > 0
  {
    && r.start < r.end <= |curr|
    && (forall k | r.start <= k < r.end :: k / cols == r.start / cols && !Same(curr[k], prev[k]))
    && (r.end == |curr| || r.end / cols != r.start / cols || Same(curr[r.end], prev[r.end]))
  }

  /** Some run covers cell k. */
  predicate Covered(runs: seq<Run>, k: nat)
  {
    exists i | 0 <= i < |runs| :: runs[i].start <= k < runs[i].end
  }

  /** Each run found from `pos` on starts at or after `pos`. */
  lemma {:induction false} RunStarts(prev: seq<Cell>, curr: seq<Cell>, cols: nat, pos: nat, i: nat)
    requires |prev| == |curr| && cols > 0 && pos <= |curr|
    requires i < |RunsFrom(prev, curr, cols, pos)|
    ensures pos <= RunsFrom(prev, curr, cols, pos)[i].start
    decreases |curr| - pos
  {
    if Same(curr[pos], prev[pos]) {
      RunStarts(prev, curr, cols, pos + 1, i);
    } else {
      var e := RunEnd(prev, curr, cols, pos / cols, pos + 1);
      var rest := RunsFrom(prev, curr, cols, e);
      assert RunsFrom(prev, curr, cols, pos) == [Run(pos, e)] + rest;
      if i > 0 {
        RunStarts(prev, curr, cols, e, i - 1);
      }
    }
  }

  /** Each run found from `pos` on is a good run starting at or after `pos`. */
  lemma {:induction false} RunGood(prev: seq<Cell>, curr: seq<Cell>, cols: nat, pos: nat, i: nat)
    requires |prev| == |curr| && cols > 0 && pos <= |curr|
    requires i < |RunsFrom(prev, curr, cols, pos)|
    ensures pos <= RunsFrom(prev, curr, cols, pos)[i].start
    ensures GoodRun(prev, curr, cols, RunsFrom(prev, curr, cols, pos)[i])
    decreases |curr| - pos
  {
    if Same(curr[pos], prev[pos]) {
      RunGood(prev, curr, cols, pos + 1, i);
    } else {
      var e := RunEnd(prev, curr, cols, pos / cols, pos + 1);
      var rest := RunsFrom(prev, curr, cols, e);
      assert RunsFrom(prev, curr, cols, pos) == [Run(pos, e)] + rest;
      if i > 0 {
        RunGood(prev, curr, cols, e, i - 1);
      }
    }
  }

  /** Consecutive runs come in row-major order and do not overlap. */
  lemma {:induction false} RunsOrdered(prev: seq<Cell>, curr: seq<Cell>, cols: nat, pos: nat, i: nat)
    requires |prev| == |curr| && cols > 0 && pos <= |curr|
    requires i + 1 < |RunsFrom(prev, curr, cols, pos)|
    ensures RunsFrom(prev, curr, cols, pos)[i].end <= RunsFrom(prev, curr, cols, pos)[i + 1].start
    decreases |curr| - pos
  {
    if Same(curr[pos], prev[pos]) {
      RunsOrdered(prev, curr, cols, pos + 1, i);
    } else {
      var e := RunEnd(prev, curr, cols, pos / cols, pos + 1);
      var rest := RunsFrom(prev, curr, cols, e);
      var runs := [Run(pos, e)] + rest;
      assert RunsFrom(prev, curr, cols, pos) == runs;
      assert runs[i + 1] == rest[i];
      if i > 0 {
        assert runs[i] == rest[i - 1];
        RunsOrdered(prev, curr, cols, e, i - 1);
      } else {
        assert runs[0].end == e;
        RunStarts(prev, curr, cols, e, 0);
      }
    }
  }

  /** A cell at or after `pos` changed exactly when one of the runs found from `pos` covers it. */
  lemma {:induction false} RunsCover(prev: seq<Cell>, curr: seq<Cell>, cols: nat, pos: nat, k: nat)
    requires |prev| == |curr| && cols > 0 && pos <= k < |curr|
    ensures !Same(curr[k], prev[k]) <==> Covered(RunsFrom(prev, curr, cols, pos), k)
    decreases |curr| - pos
  {
    var runs := RunsFrom(prev, curr, cols, pos);
    if Same(curr[pos], prev[pos]) {
      assert runs == RunsFrom(prev, curr, cols, pos + 1);
      if k == pos {
        if Covered(runs, k) {
          var i :| 0 <= i < |runs| && runs[i].start <= k < runs[i].end;
          RunGood(prev, curr, cols, pos + 1, i);
        }
      } else {
        RunsCover(prev, curr, cols, pos + 1, k);
      }
    } else {
      var e := RunEnd(prev, curr, cols, pos / cols, pos + 1);
      var rest := RunsFrom(prev, curr, cols, e);
      assert runs == [Run(pos, e)] + rest;
      if k < e {
        assert runs[0].start <= k < runs[0].end;
      } else {
        RunsCover(prev, curr, cols, e, k);
        if Covered(rest, k) {
          var i :| 0 <= i < |rest| && rest[i].start <= k < rest[i].end;
          assert runs[i + 1] == rest[i];
        }
        if Covered(runs, k) {
          var i :| 0 <= i < |runs| && runs[i].start <= k < runs[i].end;
          assert i > 0;
          assert rest[i - 1] == runs[i];
        }
      }
    }
  }

  /** The properties of one call's runs: good, ordered, and exactly the changed cells. */
  lemma DiffRunsShape(prev: seq<Cell>, curr: seq<Cell>, cols: nat)
    requires |prev| == |curr| && cols > 0
    ensures var runs := DiffRuns(prev, curr, cols);
      && (forall i | 0 <= i < |runs| :: GoodRun(prev, curr, cols, runs[i]))
      && (forall i | 0 <= i < |runs| - 1 :: runs[i].end <= runs[i + 1].start)
      && (forall k | 0 <= k < |curr| :: !Same(curr[k], prev[k]) <==> Covered(runs, k))
  {
    var runs := DiffRuns(prev, curr, cols);
    forall i | 0 <= i < |runs| ensures GoodRun(prev, curr, cols, runs[i]) {
      RunGood(prev, curr, cols, 0, i);
    }
    forall i | 0 <= i < |runs| - 1 ensures runs[i].end <= runs[i + 1].start {
      RunsOrdered(prev, curr, cols, 0, i);
    }
    forall k | 0 <= k < |curr| ensures !Same(curr[k], prev[k]) <==> Covered(runs, k) {
      RunsCover(prev, curr, cols, 0, k);
    }
  }

  /** The cursor escape of a run starting at cell `start` addresses that cell: its 1-indexed
      row and column give back the flat index, and the column is within the row. */
  lemma CursorAddressesCell(start: nat, cols: nat)
    requires cols > 0
    ensures 1 <= start % cols + 1 <= cols
    ensures (start / cols + 1 - 1) * cols + (start % cols + 1 - 1) == start
  {
  }

  // ---------------------------------------------------------------------------------------
  // Idempotence

  lemma {:induction false} NoRunsWhenEqual(curr: seq<Cell>, cols: nat, pos: nat)
    requires cols > 0 && pos <= |curr|
    ensures RunsFrom(curr, curr, cols, pos) == []
    decreases |curr| - pos
  {
    if pos < |curr| {
      NoRunsWhenEqual(curr, cols, pos + 1);
    }
  }

  /** Once prev equals curr (as the call leaves it), a second call with the same frame writes
      no cursor escape and no cell. */
  lemma DiffIdempotent(curr: seq<Cell>, cols: nat)
    ensures DiffOutput(curr, curr, cols) == []
  {
    if cols > 0 {
      NoRunsWhenEqual(curr, cols, 0);
    }
  }

  /** Nothing is written when no cell changed, and something is written when one did. */
  lemma DiffEmptyIffUnchanged(prev: seq<Cell>, curr: seq<Cell>, cols: nat)
    requires |prev| == |curr| && cols > 0
    ensures DiffOutput(prev, curr, cols) == [] <==> forall k | 0 <= k < |curr| :: Same(curr[k], prev[k])
  {
    var runs := DiffRuns(prev, curr, cols);
    if runs != [] {
      RunGood(prev, curr, cols, 0, 0);
      assert !Same(curr[runs[0].start], prev[runs[0].start]);
    } else {
      forall k | 0 <= k < |curr| ensures Same(curr[k], prev[k]) {
        RunsCover(prev, curr, cols, 0, k);
      }
    }
  }

  // ---------------------------------------------------------------------------------------
  // The terminal as a reference: what the written tokens do to the screen

  /** The glyph in each cell of the screen and the cursor position as a flat index. A simple
      terminal: every cell write takes exactly one column, the bytes of a glyph are not
      interpreted (no control bytes, no wide glyphs), and writing the last column does not
      wrap. */
  datatype Screen = Screen(cells: seq<seq<byte>>, cursor: int)

  function Exec(s: Screen, cols: nat, t: Token): Screen
  {
    match t
    case CursorTo(row, col) => if row >= 1 && col >= 1 then s.(cursor := (row - 1) * cols + (col - 1)) else s
    case Put(b) =>
      if 0 <= s.cursor < |s.cells| then Screen(s.cells[s.cursor := b], s.cursor + 1)
      else s.(cursor := s.cursor + 1)
    case ClearScreen => s.(cells := seq(|s.cells|, _ => [SPACE]))
    case _ => s
  }

  function ExecAll(s: Screen, cols: nat, ts: seq<Token>): Screen
    decreases |ts|
  {
    if ts == [] then s else ExecAll(Exec(s, cols, ts[0]), cols, ts[1..])
  }

  lemma {:induction false} ExecAllAppend(s: Screen, cols: nat, a: seq<Token>, b: seq<Token>)
    ensures ExecAll(s, cols, a + b) == ExecAll(ExecAll(s, cols, a), cols, b)
    decreases |a|
  {
    if a == [] {
      assert a + b == b;
    } else {
      assert (a + b)[0] == a[0] && (a + b)[1..] == a[1..] + b;
      ExecAllAppend(Exec(s, cols, a[0]), cols, a[1..], b);
    }
  }

  /** Writing the cells [a, b) from a cursor at a puts their glyphs there and nowhere else. */
  lemma {:induction false} PutsOnScreen(s: Screen, cols: nat, curr: seq<Cell>, a: nat, b: nat)
    requires a <= b <= |curr| && b <= |s.cells| && s.cursor == a
    ensures var t := ExecAll(s, cols, Puts(curr, a, b));
      && t.cursor == b && |t.cells| == |s.cells|
      && forall k | 0 <= k < |s.cells| :: t.cells[k] == (if a <= k < b then Glyph(curr[k]) else s.cells[k])
    decreases b - a
  {
    if a < b {
      PutsOnScreen(s, cols, curr, a, b - 1);
      ExecAllAppend(s, cols, Puts(curr, a, b - 1), [Put(Glyph(curr[b - 1]))]);
    }
  }

  /** The screen shows curr before `pos` and prev from `pos` on. */
  predicate Shows(s: Screen, prev: seq<Cell>, curr: seq<Cell>, pos: nat)
    requires |prev| == |curr|
  {
    |s.cells| == |curr| && forall k | 0 <= k < |curr| :: s.cells[k] == Glyph(if k < pos then curr[k] else prev[k])
  }

  lemma {:induction false} ConvergesFrom(s: Screen, prev: seq<Cell>, curr: seq<Cell>, cols: nat, pos: nat)
    requires |prev| == |curr| && cols > 0 && pos <= |curr|
    requires Shows(s, prev, curr, pos)
    ensures Shows(ExecAll(s, cols, Emit(curr, cols, RunsFrom(prev, curr, cols, pos))), prev, curr, |curr|)
    decreases |curr| - pos
  {
    if pos == |curr| {
    } else if Same(curr[pos], prev[pos]) {
      SameIsSameGlyph(curr[pos], prev[pos]);
      assert Shows(s, prev, curr, pos + 1);
      ConvergesFrom(s, prev, curr, cols, pos + 1);
    } else {
      var e := RunEnd(prev, curr, cols, pos / cols, pos + 1);
      var rest := RunsFrom(prev, curr, cols, e);
      var runs := [Run(pos, e)] + rest;
      assert RunsFrom(prev, curr, cols, pos) == runs;
      var esc := RunEscape(pos, cols);
      var puts := Puts(curr, pos, e);
      assert runs[1..] == rest;
      assert Emit(curr, cols, runs) == [esc] + (puts + Emit(curr, cols, rest));
      var s1 := Exec(s, cols, esc);
      CursorAddressesCell(pos, cols);
      assert s1 == s.(cursor := pos);
      assert ExecAll(s, cols, [esc] + (puts + Emit(curr, cols, rest))) == ExecAll(s1, cols, puts + Emit(curr, cols, rest));
      ExecAllAppend(s1, cols, puts, Emit(curr, cols, rest));
      PutsOnScreen(s1, cols, curr, pos, e);
      var s2 := ExecAll(s1, cols, puts);
      assert Shows(s2, prev, curr, e);
      ConvergesFrom(s2, prev, curr, cols, e);
    }
  }

  /** Convergence: on a terminal that shows the previous frame, whatever the cursor position,
      the renderer's output leaves every cell showing the current frame. */
  lemma DiffConverges(prev: seq<Cell>, curr: seq<Cell>, cols: nat, cursor: int)
    requires |prev| == |curr| && (cols > 0 || |curr| == 0)
    ensures var s := Screen(seq(|prev|, k requires 0 <= k < |prev| => Glyph(prev[k])), cursor);
      var t := ExecAll(s, cols, DiffOutput(prev, curr, cols));
      |t.cells| == |curr| && forall k | 0 <= k < |curr| :: t.cells[k] == Glyph(curr[k])
  {
    var s := Screen(seq(|prev|, k requires 0 <= k < |prev| => Glyph(prev[k])), cursor);
    if cols > 0 {
      assert Shows(s, prev, curr, 0);
      ConvergesFrom(s, prev, curr, cols, 0);
    }
  }

  // ---------------------------------------------------------------------------------------
  // How much is written

  function CountPuts(ts: seq<Token>): nat
  {
    if ts == [] then 0 else (if ts[0].Put? then 1 else 0) + CountPuts(ts[1..])
  }

  function CountCursors(ts: seq<Token>): nat
  {
    if ts == [] then 0 else (if ts[0].CursorTo? then 1 else 0) + CountCursors(ts[1..])
  }

  lemma {:induction false} CountAppend(a: seq<Token>, b: seq<Token>)
    ensures CountPuts(a + b) == CountPuts(a) + CountPuts(b)
    ensures CountCursors(a + b) == CountCursors(a) + CountCursors(b)
    decreases |a|
  {
    if a == [] {
      assert a + b == b;
    } else {
      assert (a + b)[0] == a[0] && (a + b)[1..] == a[1..] + b;
      CountAppend(a[1..], b);
    }
  }

  lemma {:induction false} CountOfPuts(curr: seq<Cell>, a: nat, b: nat)
    requires a <= b <= |curr|
    ensures CountPuts(Puts(curr, a, b)) == b - a && CountCursors(Puts(curr, a, b)) == 0
    decreases b - a
  {
    if a < b {
      CountOfPuts(curr, a, b - 1);
      CountAppend(Puts(curr, a, b - 1), [Put(Glyph(curr[b - 1]))]);
    }
  }

  /** The number of changed cells from `pos` on. */
  function ChangedFrom(prev: seq<Cell>, curr: seq<Cell>, pos: nat): nat
    requires |prev| == |curr| && pos <= |curr|
    decreases |curr| - pos
  {
    if pos == |curr| then 0 else (if Same(curr[pos], prev[pos]) then 0 else 1) + ChangedFrom(prev, curr, pos + 1)
  }

  lemma {:induction false} ChangedRun(prev: seq<Cell>, curr: seq<Cell>, a: nat, b: nat)
    requires |prev| == |curr| && a <= b <= |curr|
    requires forall k | a <= k < b :: !Same(curr[k], prev[k])
    ensures ChangedFrom(prev, curr, a) == (b - a) + ChangedFrom(prev, curr, b)
    decreases b - a
  {
    if a < b {
      ChangedRun(prev, curr, a + 1, b);
    }
  }

  lemma {:induction false} WritesFrom(prev: seq<Cell>, curr: seq<Cell>, cols: nat, pos: nat)
    requires |prev| == |curr| && cols > 0 && pos <= |curr|
    ensures CountPuts(Emit(curr, cols, RunsFrom(prev, curr, cols, pos))) == ChangedFrom(prev, curr, pos)
    ensures CountCursors(Emit(curr, cols, RunsFrom(prev, curr, cols, pos))) == |RunsFrom(prev, curr, cols, pos)|
    decreases |curr| - pos
  {
    if pos == |curr| {
    } else if Same(curr[pos], prev[pos]) {
      WritesFrom(prev, curr, cols, pos + 1);
    } else {
      var e := RunEnd(prev, curr, cols, pos / cols, pos + 1);
      var rest := RunsFrom(prev, curr, cols, e);
      var runs := [Run(pos, e)] + rest;
      assert RunsFrom(prev, curr, cols, pos) == runs;
      assert runs[1..] == rest;
      var esc := RunEscape(pos, cols);
      var puts := Puts(curr, pos, e);
      assert Emit(curr, cols, runs) == [esc] + (puts + Emit(curr, cols, rest));
      CountAppend([esc], puts + Emit(curr, cols, rest));
      CountAppend(puts, Emit(curr, cols, rest));
      CountOfPuts(curr, pos, e);
      WritesFrom(prev, curr, cols, e);
      ChangedRun(prev, curr, pos, e);
    }
  }

  /** One cell write per changed cell, and one cursor escape per run. */
  lemma DiffWriteCounts(prev: seq<Cell>, curr: seq<Cell>, cols: nat)
    requires |prev| == |curr| && cols > 0
    ensures CountPuts(DiffOutput(prev, curr, cols)) == ChangedFrom(prev, curr, 0)
    ensures CountCursors(DiffOutput(prev, curr, cols)) == |DiffRuns(prev, curr, cols)|
  {
    WritesFrom(prev, curr, cols, 0);
  }
}
