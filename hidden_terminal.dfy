/** src/hidden.c, the terminal side of hidden mode: what is written to stdout, as a sequence of
    tokens, and the two flags g_hidden_raw_enabled and g_hidden_scroll_region_set that make
    the cleanup safe to run more than once. */
module HiddenTerminal {
  import opened CBytes
  import opened Decimal

  /** One write to stdout. */
  datatype Token =
    | CursorTo(row: nat, col: nat)        // "\x1b[%lu;%luH", 1-indexed
    | Put(bytes: seq<byte>)               // fwrite of a cell's bytes, or fputs of a line
    | ClearScreen                         // "\x1b[2J"
    | Home                                // "\x1b[H"
    | SetScrollRegion(top: nat, bottom: nat)  // "\x1b[%d;%dr"
    | ResetScrollRegion                   // "\x1b[r"
    | HideCursor                          // "\x1b[?25l"
    | ShowCursor                          // "\x1b[?25h\x1b[0m"

  const LBRACKET: byte := 0x5B

  /** The bytes each token puts on the terminal. */
  function Encode(t: Token): (r: seq<byte>)
    ensures t.Put? ==> r == t.bytes
    ensures !t.Put? ==> |r| >= 3 && r[0] == ESC && r[1] == LBRACKET
  {
    match t
    case CursorTo(row, col) => [ESC, LBRACKET] + ToDecimal(row) + [SEMICOLON] + ToDecimal(col) + [0x48]
    case Put(b) => b
    case ClearScreen => [ESC, LBRACKET, 0x32, 0x4A]
    case Home => [ESC, LBRACKET, 0x48]
    case SetScrollRegion(top, bottom) => [ESC, LBRACKET] + ToDecimal(top) + [SEMICOLON] + ToDecimal(bottom) + [0x72]
    case ResetScrollRegion => [ESC, LBRACKET, 0x72]
    case HideCursor => [ESC, LBRACKET, 0x3F, 0x32, 0x35, 0x6C]
    case ShowCursor => [ESC, LBRACKET, 0x3F, 0x32, 0x35, 0x68, ESC, LBRACKET, 0x30, 0x6D]
  }

  /** A cursor escape names its row and column in decimal: reading the text after "ESC[" with
      strtol gives the row, and the text after the ';' that follows the row gives the column. */
  lemma CursorEscapeReadsBack(row: nat, col: nat)
    ensures |Encode(CursorTo(row, col))| == 4 + |ToDecimal(row)| + |ToDecimal(col)|
    ensures Strtol(Encode(CursorTo(row, col))[2..]) == row
    ensures Encode(CursorTo(row, col))[2 + |ToDecimal(row)|] == SEMICOLON
    ensures Strtol(Encode(CursorTo(row, col))[3 + |ToDecimal(row)|..]) == col
  {
    var e := Encode(CursorTo(row, col));
    var tail: seq<byte> := [0x48];
    ParamsReadBack(e, ToDecimal(row), ToDecimal(col), tail);
    var r1 := e[2..];
    var r2 := e[3 + |ToDecimal(row)|..];
    StrtolOfDecimal(row, [SEMICOLON] + ToDecimal(col) + tail);
    StrtolOfDecimal(col, tail);
    assert Strtol(r1) == row;
    assert Strtol(r2) == col;
  }

  lemma ParamsReadBack(e: seq<byte>, dr: seq<byte>, dc: seq<byte>, tail: seq<byte>)
    requires e == [ESC, LBRACKET] + dr + [SEMICOLON] + dc + tail
    ensures |e| == 3 + |dr| + |dc| + |tail|
    ensures e[2..] == dr + ([SEMICOLON] + dc + tail)
    ensures e[2 + |dr|] == SEMICOLON
    ensures e[3 + |dr|..] == dc + tail
  {
  }

  /** The terminal state the hidden-mode code tracks: the two flags, how often the saved
      termios settings were put back, and everything written so far. */
  datatype TermState = TermState(rawEnabled: bool, scrollRegionSet: bool, restores: nat, out: seq<Token>)

  /** mf_hidden_enable_raw: raw mode is on only when stdin is a terminal, its settings could be
      read, and the new ones were accepted. */
  function EnableRawSpec(st: TermState, isTty: bool, getOk: bool, setOk: bool): TermState
  {
    if isTty && getOk && setOk then st.(rawEnabled := true) else st
  }

  /** mf_hidden_disable_raw: restores the saved settings only while the flag is set. */
  function DisableRawSpec(st: TermState): TermState
  {
    if st.rawEnabled then st.(rawEnabled := false, restores := st.restores + 1) else st
  }

  /** mf_hidden_reset_scroll_region: "\x1b[r" only while the flag is set. */
  function ResetScrollSpec(st: TermState): TermState
  {
    if st.scrollRegionSet then st.(scrollRegionSet := false, out := st.out + [ResetScrollRegion]) else st
  }

  /** mf_hidden_cleanup: raw mode off, scroll region reset, cursor shown. */
  function CleanupSpec(st: TermState): (r: TermState)
    ensures !r.rawEnabled && !r.scrollRegionSet
  {
    var s := ResetScrollSpec(DisableRawSpec(st));
    s.(out := s.out + [ShowCursor])
  }

  /** Disabling raw mode twice restores the settings once. */
  lemma DisableRawIdempotent(st: TermState)
    ensures DisableRawSpec(DisableRawSpec(st)) == DisableRawSpec(st)
    ensures DisableRawSpec(st).restores == st.restores + (if st.rawEnabled then 1 else 0)
  {
  }

  /** Resetting the scroll region twice writes the reset once. */
  lemma ResetScrollIdempotent(st: TermState)
    ensures ResetScrollSpec(ResetScrollSpec(st)) == ResetScrollSpec(st)
    ensures ResetScrollSpec(st).out == st.out + (if st.scrollRegionSet then [ResetScrollRegion] else [])
  {
  }

  /** What one cleanup writes and restores, and that a second cleanup only writes the
      show-cursor sequence again. */
  lemma CleanupTwice(st: TermState)
    ensures CleanupSpec(st).out ==
      st.out + (if st.scrollRegionSet then [ResetScrollRegion] else []) + [ShowCursor]
    ensures CleanupSpec(st).restores == st.restores + (if st.rawEnabled then 1 else 0)
    ensures CleanupSpec(CleanupSpec(st)) == CleanupSpec(st).(out := CleanupSpec(st).out + [ShowCursor])
  {
    DisableRawIdempotent(st);
    ResetScrollIdempotent(DisableRawSpec(st));
  }

  /** After enabling raw mode, a cleanup restores the settings exactly when raw mode took. */
  lemma EnableThenCleanup(st: TermState, isTty: bool, getOk: bool, setOk: bool)
    requires !st.rawEnabled
    ensures CleanupSpec(EnableRawSpec(st, isTty, getOk, setOk)).restores ==
      st.restores + (if isTty && getOk && setOk then 1 else 0)
  {
  }

  /** stdout and the two globals. */
  class Terminal {
    var rawEnabled: bool
    var scrollRegionSet: bool
    var restores: nat
    var out: seq<Token>

    function State(): TermState
      reads this
    {
      TermState(rawEnabled, scrollRegionSet, restores, out)
    }

    /** Both globals start at 0 and nothing has been written. */
    constructor()
      ensures State() == TermState(false, false, 0, [])
    {
      rawEnabled := false;
      scrollRegionSet := false;
      restores := 0;
      out := [];
    }

    /** fputs/fprintf of escape sequences and text. */
    method Write(ts: seq<Token>)
      modifies this
      ensures State() == old(State()).(out := old(out) + ts)
    {
      out := out + ts;
    }

    /** mf_hidden_hide_cursor. */
    method HideCursorNow()
      modifies this
      ensures State() == old(State()).(out := old(out) + [HideCursor])
    {
      out := out + [HideCursor];
    }

    /** mf_hidden_show_cursor. */
    method ShowCursorNow()
      modifies this
      ensures State() == old(State()).(out := old(out) + [ShowCursor])
    {
      out := out + [ShowCursor];
    }

    /** mf_hidden_enable_raw; the three outcomes of isatty, tcgetattr and tcsetattr are inputs. */
    method EnableRaw(isTty: bool, getOk: bool, setOk: bool)
      modifies this
      ensures State() == EnableRawSpec(old(State()), isTty, getOk, setOk)
    {
      if !isTty {
        return;
      }
      if !getOk {
        return;
      }
      if setOk {
        rawEnabled := true;
      }
    }

    /** mf_hidden_disable_raw. */
    method DisableRaw()
      modifies this
      ensures State() == DisableRawSpec(old(State()))
    {
      if rawEnabled {
        restores := restores + 1;
        rawEnabled := false;
      }
    }

    /** mf_hidden_reset_scroll_region. */
    method ResetScroll()
      modifies this
      ensures State() == ResetScrollSpec(old(State()))
    {
      if scrollRegionSet {
        out := out + [ResetScrollRegion];
        scrollRegionSet := false;
      }
    }

    /** mf_hidden_cleanup; fflush is not modelled. */
    method Cleanup()
      modifies this
      ensures State() == CleanupSpec(old(State()))
    {
      DisableRaw();
      ResetScroll();
      ShowCursorNow();
    }

    /** The screen set-up of mf_run_hidden_mode, after a start or a resize: the screen is
        cleared (after "\x1b[r" on a resize, which leaves the flag as it was), the scroll region
        excludes the last row when there are at least two rows, and the cursor goes home. */
    method BeginScreen(rows: int, resized: bool)
      modifies this
      ensures rawEnabled == old(rawEnabled) && restores == old(restores)
      ensures scrollRegionSet == (old(scrollRegionSet) || rows > 1)
      ensures out == old(out) + (if resized then [ResetScrollRegion] else []) + [ClearScreen]
        + (if rows > 1 then [SetScrollRegion(1, rows - 1)] else []) + [Home]
    {
      if resized {
        out := out + [ResetScrollRegion];
      }
      out := out + [ClearScreen];
      if rows > 1 {
        out := out + [SetScrollRegion(1, rows - 1)];
        scrollRegionSet := true;
      }
      out := out + [Home];
    }
  }
}
