# minifetch in Dafny

minifetch prints facts about the host (OS, kernel, host name, CPU, shell, disk, memory,
uptime) next to an ASCII logo. It comes in two forms:

- The streamlined program (`src/`). It has:
  - collectors (`src/core.c`, `src/linux_extras.c`);
  - small string helpers (`src/compat.c`) and a UTF-8 display-width walk (`src/term.c`);
  - a driver (`src/main.c`) that filters the field table, formats the lines and prints them beside the logo;
  - an animated "hidden mode" (`src/hidden.c`): the information box over a noise field, redrawn on the terminal by a cell diff.
- The older single-file program (`minifetch.c`), with its own trim, key=value reader, collectors and side-by-side printer.

This project models the decision logic of each of these files and proves what the code promises:

- the in-place string routines, against functions on the old buffer contents;
- the display width, as the number of glyphs of a walk that never passes the terminator;
- hidden mode:
  - the gradient table, as exact rounding;
  - the frame buffers and the noise pass, as a class over two arrays;
  - the overlay box: its centring, the widths of its rows and what each cell shows;
  - the status line;
  - the diff renderer. Its runs are exactly the changed cells. On a terminal that gives every cell write one column, its output turns a screen showing the previous frame into one showing the current frame, with one cell write per changed cell. A second call writes nothing;
- the terminal state flags and cleanup, which is idempotent;
- the collectors:
  - SHELL sanitising;
  - the os-release precedence;
  - the meminfo dispatch and its MemAvailable fallback;
  - the uptime split and its text, for which a reader proves the round trip;
- the field filter, the colour decision, the widths and the static layout of `main`;
- in `minifetch.c`:
  - trim;
  - the first-key-wins reader;
  - the uptime split, which agrees with the streamlined one;
  - the shell check;
  - the cpuinfo scan;
  - the row layout.

Modelling choices:

- Bytes are `bv8`. A C string is either an `array<byte>` holding a NUL (when the code rewrites it in place) or its `seq<byte>` contents.
- Files, the environment, `uname`, `sysconf`, `isatty` and the terminal size arrive as parameters. `None` stands for a file that cannot be opened or a variable that is unset.
- Output to stdout is a sequence of tokens or bytes.
- The noise intensity of each cell is an input. The logo (`g_logo_lines`, `g_logo_line_count` and `g_logo_width` from `logo.h`) is an input too.

Two details of the code that the model follows:

- **os-release.** `mf_linux_read_os_release` keeps the first `NAME=` line whose unquoted value is non-empty. An empty value leaves `name[0]` at NUL, so a later `NAME=` line still counts.
- **The `hidden` option.** `main` reads `opts.hidden`, which `struct mf_options` lacks, and the option string sets no such flag. It is a free boolean input.

## Model

| member | source | states |
|---|---|---|
| Compat.RStripText | src/compat.c:32-51 | the longest prefix not ending in '\n', '\r', '\t' or ' '; everything cut is such a byte |
| Compat.RStripIdempotent | src/compat.c:32-51 | stripping twice is stripping once |
| Compat.RStripTail | src/compat.c:32-51 | a kept text followed by strippable bytes strips back to the text |
| Compat.Strlcpy | src/compat.c:6-30 | copies min(strlen(src), dstsz-1) bytes and a NUL, returns that count; null dst or zero size writes nothing, null src empties dst |
| Compat.Rstrip | src/compat.c:32-51 | the buffer's string becomes the stripped text; only bytes between the new and old terminator change, to NUL |
| Compat.UnquoteText | src/compat.c:61-75 | the stripped text, without its first and last byte when they are a matching pair of quotes |
| Compat.QuotedValue | src/compat.c:63-74 | a quoted value comes out exactly without its quotes |
| Compat.UnquotedValue | src/compat.c:63-75 | a value without a quote pair is only stripped |
| Compat.Unquote | src/compat.c:53-76 | rewrites the buffer in place: its string is the unquoted text, the stripped tail is NUL, the closing quote stays, nothing past the old terminator changes |
| Term.Step | src/term.c:44-72 | each step of the walk advances 1 to 4 bytes and never past the terminator; ASCII advances 1 |
| Term.WidthBounded | src/term.c:44-72 | the width is at most the length, and at least 1 for a non-empty string |
| Term.WidthAscii | src/term.c:44-72 | ASCII text has its length as width |
| Term.GlyphsCover | src/term.c:44-72 | the glyphs visited number the width, and concatenated give back the string |
| Term.DisplayWidth | src/term.c:44-72 | the loop returns the width of the string, 0 for NULL, and reads no byte past the terminator |
| HiddenCell.SameIsSameGlyph | src/hidden.c:532 | the diff's length-and-memcmp test holds exactly when two cells show the same glyph |
| HiddenCell.SetChar | src/hidden.c:41-48 | a one-byte glyph; the other bytes are kept |
| HiddenCell.SetUtf8 | src/hidden.c:50-65 | the first min(len, 4) bytes become the glyph; len 0 stores a space |
| HiddenCell.GlyphLenClasses | src/hidden.c:152-177 | 0 only for NUL, 1 for ASCII and invalid bytes, 2/3/4 for the three lead-byte classes |
| HiddenCell.Ramp | src/hidden.c:264-270 | the configured ramp, or the fallback when it is shorter than 2 |
| HiddenCell.RampIndexIsRounding | src/hidden.c:273-274 | the integer index is the rounding of i/255*(len-1) |
| HiddenCell.RampIndexNoTie | src/hidden.c:273-277 | the exact value is never at a tie and the cap never applies, so double rounding agrees |
| HiddenCell.RampIndexMonotone | src/hidden.c:272-279 | the index grows with i, starts at 0, ends at len-1 |
| HiddenCell.BuildGradient | src/hidden.c:260-280 | every lut entry is the ramp character at the rounded index |
| HiddenCell.ConfiguredGradientEnds | src/hidden.c:25 | with " .+100", entry 0 is ' ' and entry 255 is '0' |
| HiddenTerminal.Encode | src/hidden.c:548 | each token's bytes; the cursor escape writes row and column in decimal |
| HiddenTerminal.CursorEscapeReadsBack | src/hidden.c:548 | strtol reads the row and then the column back from the escape |
| HiddenTerminal.CleanupSpec | src/hidden.c:119-125 | cleanup: raw off, scroll region reset, cursor shown |
| HiddenTerminal.DisableRawIdempotent | src/hidden.c:83-89 | a second disable restores nothing |
| HiddenTerminal.ResetScrollIdempotent | src/hidden.c:111-117 | a second reset writes nothing |
| HiddenTerminal.CleanupTwice | src/hidden.c:119-125 | a second cleanup only shows the cursor again |
| HiddenTerminal.EnableThenCleanup | src/hidden.c:91-109 | cleanup restores the settings exactly when raw mode took |
| HiddenTerminal.Terminal.constructor | src/hidden.c:38-39 | both flags clear, nothing written |
| HiddenTerminal.Terminal.Write | src/hidden.c:548-550 | appends the tokens to the output |
| HiddenTerminal.Terminal.HideCursorNow | src/hidden.c:78-81 | writes the hide-cursor escape |
| HiddenTerminal.Terminal.ShowCursorNow | src/hidden.c:73-76 | writes the show-cursor and reset escape |
| HiddenTerminal.Terminal.EnableRaw | src/hidden.c:91-109 | the flag is set only when stdin is a tty and both termios calls succeed |
| HiddenTerminal.Terminal.DisableRaw | src/hidden.c:83-89 | restores once and clears the flag, only while it is set |
| HiddenTerminal.Terminal.ResetScroll | src/hidden.c:111-117 | writes "ESC[r" and clears the flag, only while it is set |
| HiddenTerminal.Terminal.Cleanup | src/hidden.c:119-125 | the state becomes CleanupSpec of the old one |
| HiddenTerminal.Terminal.BeginScreen | src/hidden.c:605-610 | clear, a scroll region above the last row when rows > 1 (setting the flag), cursor home |
| HiddenDiff.PresentDiff | src/hidden.c:526-561 | writes exactly the run output and leaves prev equal to curr |
| HiddenDiff.Advance | src/hidden.c:531-558 | one outer turn, keeping "written so far + rest = whole output" |
| HiddenDiff.ScanRun | src/hidden.c:535-546 | the inner scan stops at the run end: grid end, next row or an unchanged cell |
| HiddenDiff.WriteRun | src/hidden.c:548-553 | one cursor escape, then each cell of the run written and copied to prev |
| HiddenDiff.RunsCover | src/hidden.c:531-558 | a cell changed exactly when some run covers it |
| HiddenDiff.DiffRunsShape | src/hidden.c:531-558 | the runs are maximal, within one row, ordered, and cover exactly the changed cells |
| HiddenDiff.CursorAddressesCell | src/hidden.c:533-534 | the 1-indexed row and column address the run's first cell |
| HiddenDiff.DiffIdempotent | src/hidden.c:526-561 | with prev equal to curr nothing is written |
| HiddenDiff.DiffEmptyIffUnchanged | src/hidden.c:531-558 | the output is empty exactly when no cell changed |
| HiddenDiff.DiffConverges | src/hidden.c:526-561 | on a terminal that gives every cell write one column, a screen showing the previous frame ends up showing the current one, from any cursor position |
| HiddenDiff.DiffWriteCounts | src/hidden.c:548-553 | one cell write per changed cell and one escape per run |
| HiddenOverlay.LayoutFits | src/hidden.c:358-385 | the columns are as wide as the widest lines, with a row per logo line and per info line |
| HiddenOverlay.LayoutCentred | src/hidden.c:387-392 | the box is centred where it fits and flush with the edge where it does not |
| HiddenOverlay.ComputeBox | src/hidden.c:347-392 | the width loops and box arithmetic give Layout |
| HiddenOverlay.PaintShows | src/hidden.c:41-65 | a painted cell shows the paint, whatever it held |
| HiddenOverlay.PaintOverBlank | src/hidden.c:394-407 | painting over the blanked box gives the same cell as painting the original |
| HiddenOverlay.SegmentShows | src/hidden.c:417-450 | a segment shows its line padded to the width, or its first w glyphs |
| HiddenOverlay.RowShows | src/hidden.c:409-501 | a text row reads logo line padded, the three-column gap, info line padded |
| HiddenOverlay.BlankSpan | src/hidden.c:400-406 | the cells of one box row on the screen become spaces, nothing else changes |
| HiddenOverlay.BlankBox | src/hidden.c:394-407 | every on-screen cell of the box becomes a space, nothing else changes |
| HiddenOverlay.PadSegment | src/hidden.c:441-450 | the padding loop writes spaces into the on-screen columns it covers |
| HiddenOverlay.GlyphWalk | src/hidden.c:421-439 | the walk writes the line's glyphs one per column, at most w of them |
| HiddenOverlay.WriteSegment | src/hidden.c:417-450 | a column segment paints SegPaint of its line |
| HiddenOverlay.PaintRow | src/hidden.c:409-501 | a text row gets RowPaint, other cells unchanged |
| HiddenOverlay.Overlay | src/hidden.c:345-503 | every cell becomes Overlaid of its old value: text, blank inside the box, unchanged outside |
| HiddenOverlay.TextRow | src/hidden.c:409-415 | an on-screen text row gets its paint, an off-screen one changes nothing |
| HiddenOverlay.OverlayShows | src/hidden.c:345-503 | text cells show their row's paint and the rest of the box shows spaces |
| HiddenOverlay.AsWrittenStepOverruns | src/hidden.c:421-436 | the line C3 advances the walk past its terminator |
| HiddenOverlay.AsWrittenStepOverrunsAtEnd | src/hidden.c:421-436 | any line ending inside a multi-byte sequence overruns |
| HiddenOverlay.GuardedStepAgrees | src/hidden.c:421-436 | the guarded step equals the lead-byte length when it fits, and never passes the terminator |
| HiddenOverlay.HudText | src/hidden.c:505-524 | the status line reads the hint cut at the width, then spaces |
| HiddenOverlay.WriteHud | src/hidden.c:505-524 | the last row becomes the status line and nothing else changes; no rows, no change |
| HiddenOverlay.WriteText | src/hidden.c:521-523 | the hint's bytes from column 0, as many as fit |
| HiddenOverlay.SetCharTwice | src/hidden.c:517-523 | a second set_char replaces the first |
| HiddenScreen.LutIndex | src/hidden.c:665-670 | the clamp into 0..255, the identity inside it |
| HiddenScreen.Frame | src/hidden.c:656-676 | the frame painted over the old grid, cell by cell |
| HiddenScreen.FrameShows | src/hidden.c:656-676 | each cell shows the status line, the box text or space, or the gradient character |
| HiddenScreen.PresentShowsFrame | src/hidden.c:656-677 | after the diff, a screen (one column per cell write) that showed the previous frame shows every frame glyph |
| HiddenScreen.FrameBuffers.constructor | src/hidden.c:567-573 | no grids, dimensions 0 |
| HiddenScreen.FrameBuffers.Ensure | src/hidden.c:282-343 | fails for non-positive sizes or failed allocation, keeping the old grids; keeps grids of the right size; otherwise two fresh grids of spaces |
| HiddenScreen.FrameBuffers.CopyCurrToPrev | src/hidden.c:640-646 | prev takes curr's cells |
| HiddenScreen.FrameBuffers.PaintNoise | src/hidden.c:656-671 | every cell gets the lut character of its clamped intensity |
| HiddenScreen.FrameBuffers.DrawFrame | src/hidden.c:656-676 | curr becomes Frame of its old contents |
| HiddenScreen.FrameBuffers.RenderFrame | src/hidden.c:656-677 | curr becomes the frame, prev equals curr, the output gains the diff |
| HiddenScreen.NoiseRow | src/hidden.c:659-671 | one row of the noise pass, other rows unchanged |
| Core.ShellBase | src/core.c:150-155 | the text after the last '/', or all of SHELL with no slash or a trailing slash; never empty |
| Core.SanitizedSafe | src/core.c:159-165 | every byte safe, safe bytes kept, idempotent |
| Core.CollectShell | src/core.c:138-173 | -1 exactly for unset or empty SHELL; else the sanitised first 127 bytes of the base name |
| Core.ShellValue | src/core.c:157-172 | the value is non-empty, at most 127 bytes, all safe |
| Core.KeysDisjoint | src/core.c:36-43 | no line is both a PRETTY_NAME= and a NAME= line |
| Core.ScanOsRelease | src/core.c:35-49 | the loop computes ScanLines, stopping at the first PRETTY_NAME= |
| Core.ScanPrettyFirst | src/core.c:36-42 | the first PRETTY_NAME= line gives pretty |
| Core.ScanNoPretty | src/core.c:35-49 | without PRETTY_NAME= lines pretty is empty |
| Core.ScanNameFirst | src/core.c:43-48 | the first NAME= line with a non-empty value, before any PRETTY_NAME=, gives name |
| Core.ScanNoName | src/core.c:43-48 | without such a line name is empty |
| Core.FileValue | src/core.c:53-60 | a file gives a value only when it is non-empty, pretty first |
| Core.ReadOsRelease | src/core.c:16-64 | 0 exactly when one of the files gives a value; the /etc file takes precedence |
| Core.CollectOs | src/core.c:67-85 | the os-release value, else uname's sysname, else -1 |
| Core.CollectHost | src/core.c:99-123 | the stripped first line of /etc/hostname when non-empty, else the node name |
| Core.HostNotBlank | src/core.c:107-110 | the host value from the file is non-empty and ends in no stripped byte |
| Core.CollectCpu | src/core.c:125-136 | decimal text that strtol reads back as max(1, count): a count below 1 becomes exactly 1 |
| LinuxExtras.ParseKibValue | src/linux_extras.c:12-34 | -1 without the tag prefix; else strtol after blanks |
| LinuxExtras.KibReadsDecimal | src/linux_extras.c:24-33 | "tag blanks n rest" reads back n |
| LinuxExtras.KibNoDigits | src/linux_extras.c:29-33 | no digits after the tag gives 0 |
| LinuxExtras.DispatchLine | src/linux_extras.c:63-89 | the first tag in table order that parses non-negative claims the line |
| LinuxExtras.Absorb | src/linux_extras.c:64-89 | a claimed line sets only its own field |
| LinuxExtras.ScanMeminfo | src/linux_extras.c:57-90 | the loop computes MemScan |
| LinuxExtras.LastLineWins | src/linux_extras.c:63-90 | a field holds the value of the last line that sets it |
| LinuxExtras.NeverSet | src/linux_extras.c:57-61 | a field no line sets stays -1 |
| LinuxExtras.CollectMem | src/linux_extras.c:37-124 | -1 without the file, a positive total, or an available figure (MemAvailable, else Free+Buffers+Cached); else used and total in bytes, 0 <= used <= total |
| LinuxExtras.TotalMinutes | src/linux_extras.c:155 | the whole minutes of the seconds |
| LinuxExtras.SplitMinutesExact | src/linux_extras.c:160-163 | hours < 24, minutes < 60, and the parts add back up |
| LinuxExtras.SplitMinutesUnique | src/linux_extras.c:160-163 | any normal span with that total is the split |
| LinuxExtras.UptimeTextRoundTrip | src/linux_extras.c:165-171 | reading the text gives back the span, in each of the three formats |
| LinuxExtras.UptimeTextShape | src/linux_extras.c:165-171 | the day part appears exactly when days > 0, the hour part exactly when days > 0 or hours > 0 |
| LinuxExtras.CollectUptime | src/linux_extras.c:126-178 | -1 without a non-negative number; else UptimeText of the split, whose shape UptimeTextShape fixes and which reads back as the split |
| Minifetch.RTrimSpace | minifetch.c:26 | the longest prefix not ending in isspace; all bytes cut are isspace |
| Minifetch.TrimText | minifetch.c:23-29 | no isspace at either end |
| Minifetch.TrimIsInfix | minifetch.c:23-29 | the result is a contiguous piece of the input with only isspace bytes around it |
| Minifetch.TrimIdempotent | minifetch.c:23-29 | trimming twice is trimming once |
| Minifetch.Trim | minifetch.c:23-29 | NULs over the trailing white space only; the returned offset's string is TrimText |
| Minifetch.SkipLeading | minifetch.c:27 | the offset of the first non-space byte, whose string is SkipSpace of the contents |
| Minifetch.KvQuotes | minifetch.c:66-70 | quotes are dropped only from a value of length > 1 starting and ending with '"' |
| Minifetch.FirstKv | minifetch.c:62-64 | no value exactly when no line is key immediately followed by '=' |
| Minifetch.FirstKvAt | minifetch.c:62-75 | the first key line wins |
| Minifetch.ReadKv | minifetch.c:57-79 | NULL without the file or a key line; else the first value cut to outsz-1 bytes |
| Minifetch.GetDistro | minifetch.c:98-102 | PRETTY_NAME from /etc, else from /usr/lib, else "Linux" |
| Minifetch.GetUptime | minifetch.c:117-129 | "unknown" without a number; else UptimeText of the seconds split (shape fixed by UptimeTextShape), which reads back as the split |
| Minifetch.SplitSecondsExact | minifetch.c:122-125 | the split is normal and adds up to the whole minutes |
| Minifetch.UptimeAgrees | minifetch.c:117-129 | gives the same text as the streamlined collector |
| Minifetch.LegacyBase | minifetch.c:151-152 | the text after the last '/', empty when '/' is last |
| Minifetch.GetShell | minifetch.c:147-163 | the safety loop, run over every printed byte, returns ShellReportChecked: "n/a", "unknown", or the base cut to 255 |
| Minifetch.ShellReportPassesUnsafe | minifetch.c:155-162 | after any 127 checked safe bytes, an escape byte at offset 127 is printed |
| Minifetch.ShellReportChecked | minifetch.c:154-162 | with every printed byte checked, the output is "n/a", "unknown", or a non-empty all-safe prefix of the base |
| Minifetch.ShellReportsAgree | minifetch.c:155-162 | both checks agree on base names of at most 127 bytes |
| Minifetch.FirstModelAt | minifetch.c:204-208 | the model is the first non-empty trimmed value of a "model name" line with a colon |
| Minifetch.CpuText | minifetch.c:212-213 | "n/a" without a model; else the model, then " (", then the count, then ")" |
| Minifetch.CpuCountReadsBack | minifetch.c:212 | the count reads back as the processors, 1 when none |
| Minifetch.GetCpu | minifetch.c:198-214 | the loop computes the first model and the processor line count |
| Minifetch.InfoLine | minifetch.c:290 | at most 639 bytes |
| Minifetch.InfoLineValue | minifetch.c:290 | a value that fits is found whole after the label prefix |
| Minifetch.InfoLinesShown | minifetch.c:292-304 | one line per shown entry, each the line of a shown entry |
| Minifetch.AddLines | minifetch.c:290-304 | nlines counts the lines, which are InfoLines |
| Minifetch.Pad | minifetch.c:257-259 | logo_w - strlen(left), clamped at 0 |
| Minifetch.PrintLineAligned | minifetch.c:255-265 | every line whose logo text fits starts its info at the same byte |
| Minifetch.MaxLen | minifetch.c:307-312 | logo_w is the longest logo line in bytes |
| Minifetch.LogoSize | minifetch.c:306-312 | logo_w is the widest logo line and logo_h the line count |
| Minifetch.Render | minifetch.c:306-320 | the output is the max(logo_h, nlines) rows, each empty past its side |
| Minifetch.PrintRow | minifetch.c:316-319 | one pass prints row r with the logo and info text of r, or empty text past either |
| Minifetch.RenderLines | minifetch.c:315-320 | the output has max(logo_h, nlines) newlines |
| App.Fields | src/main.c:24-33 | the eight fields in order; memory and uptime are enabled only with the Linux extras |
| App.WantColour | src/main.c:66-73 | colour exactly when stdout is a tty, -c is absent and hidden mode is not asked for |
| App.PadRight | src/main.c:101-104 | %-*s: the label then spaces up to 10, a longer label kept whole |
| App.Formatted | src/main.c:96-108 | at most 511 bytes |
| App.VisibleWidth | src/main.c:98-109 | quiet: the display width; else 10 + 1 + the display width |
| App.WidthMatchesPlain | src/main.c:96-110 | without colour, the recorded width is the line's display width for ASCII text that fits |
| App.PlainHasNoEscape | src/main.c:75-77 | without colour no escape byte is added |
| App.SelectedExact | src/main.c:80-113 | the kept fields (enabled or -a, collector 0), each once, in table order |
| App.LinesOfSelected | src/main.c:80-113 | line j is the formatted line and width of the j-th kept field |
| App.CollectLines | src/main.c:79-113 | the loop fills formatted, widths and line_count as Lines |
| App.ColumnGap | src/main.c:139-142 | 2 exactly when both sides are non-empty, else 0 |
| App.LogoPad | src/main.c:148-156 | pads a logo line to g_logo_width, 0 when it is as wide or wider |
| App.EmitSpaces | src/main.c:161-165 | the count-down loop writes n spaces |
| App.StaticLayout | src/main.c:130-178 | the output is StaticText |
| App.EmitRow | src/main.c:145-176 | one row: logo or full padding, then gap and line for info rows, then '\n' |
| App.StaticRowCount | src/main.c:134-137 | max(line_count, g_logo_line_count) newlines |
| App.RowAligned | src/main.c:148-174 | with an ASCII logo every info line starts at g_logo_width plus the gap |
| App.Run | src/main.c:40-181 | usage on parse error or -h; silent with no lines and no logo; hidden mode only on a tty; else the static layout |

## Left out

- Noise: value noise, fBm, the quintic smoothing and the sine bands (src/hidden.c:179-239, 660-664). They are floating point, and the lattice hash multiplies signed ints that overflow. Each cell's intensity is an input before the clamp of src/hidden.c:665-670.
- The animation loop (src/hidden.c:615-713) is not modelled. It covers timing, `nanosleep`, the deadline resync, the `select`/`read` quit-key polling and the resize check. One frame is modelled (HiddenScreen.FrameBuffers.RenderFrame), and so are the set-up (BeginScreen) and the resize copy (CopyCurrToPrev).
- `mf_run_hidden_mode`'s own entry checks are not modelled: its non-tty fallback is unreachable from `main`, and `setvbuf`, `atexit` and signal set-up are OS calls.
- The terminal that the diff's convergence (`HiddenDiff.DiffConverges`, `HiddenScreen.PresentShowsFrame`) is proved against is a simple one. Every cell write takes exactly one column, the bytes of a cell are never interpreted, and writing the last column does not wrap. On a real terminal the screen may not converge in three cases: a wide glyph (CJK, emoji), an ESC or control byte inside a collected value (PRETTY_NAME, host name), and autowrap at the last column.
- termios, `ioctl(TIOCGWINSZ)`, `sigaction`, `isatty` and `fflush`: only the two flags, a restore counter and the escape output are modelled.
- The fx/fy coordinate tables: they only feed the noise.
- HiddenCell.Cell: a cell freshly allocated by `malloc` holds unspecified bytes. The model gives it a fixed value that no setter produces, and `Ensure` overwrites it at once.
- The integer widths of C are not modelled, because no modelled input reaches them:
  - strtol overflow clamping;
  - `long`/`int`/`unsigned` wrap-around in counters and the uptime split.
- `fgets` line-buffer truncation: lines are inputs of any length.
- Double arithmetic:
  - `mf_collect_uptime` divides by 60.0 in double, and the model uses exact reals;
  - `get_uptime` casts the double to `unsigned long`, and the model uses the floor of a non-negative real. A negative reading would be undefined behaviour, so `Minifetch.GetUptime` requires a non-negative reading.
- Byte formatting: `mf_format_bytes`, `human_bytes`, the memory text, `mf_collect_disk`, `get_mem` and `get_disk_root` use double arithmetic and `%.Nf`. `LinuxExtras.CollectMem` stops at the two byte counts.
- `snprintf` truncation to each collector's `outsz`. Where a limit matters it is modelled: the 127-byte shell buffer, the 255-byte os-release buffers, the 511-byte formatted lines and the 639-byte info lines. The uptime and cpu texts always fit their buffers.
- `mf_collect_kernel` and `get_kernel` copy `uname`'s release, and `get_host` copies the first line or the node name. These are plain copies, so they are not modelled.
- Shelling out and environment probing: `cmd_exists`, `exec_read_first_line`, `get_packages`, `get_resolution`, `get_wm_de` and `get_gpu` are `popen`/`access`/`getenv` plumbing.
- src/cli.c: `getopt` parsing. Its result is an input of `App.Run`.
- topo.c is not part of this model: it is a separate demo that duplicates the float noise.
- The logo (`g_logo_lines`, `g_logo_line_count`, `g_logo_width` from `logo.h`) is an input; logo.h is not part of this model.

## Findings

| source | as written | input that shows it | evidently intended | confidence | as-written member | corrected member |
|---|---|---|---|---|---|---|
| src/hidden.c:421-436 | the overlay's glyph walks advance by `mf_hidden_utf8_glyph_len(p)`, which looks only at the lead byte | a logo or formatted line ending in lead byte 0xC3: `p` jumps from offset 0 to offset 2, past the terminator at offset 1, and the next `*p` reads outside the string | advance only as far as the bytes before the terminator allow, as `mf_utf8_display_width` does | not executed | HiddenOverlay.AsWrittenStepOverruns | HiddenOverlay.GuardedStepAgrees |
| minifetch.c:155-162 | `get_shell` checks only the first `strnlen(base, 127)` bytes, but prints up to 255 | SHELL = "/" followed by 127 safe bytes (say 'a') and an ESC byte: all checked bytes are safe, and the ESC is printed | every printed byte is checked | not executed | Minifetch.ShellReportPassesUnsafe | Minifetch.ShellReportChecked |

The overlay in this model walks with the guarded step. `Minifetch.GetShell` checks the first 255 bytes of the base name, which are the bytes it prints. `Minifetch.ShellReport` is the check as written, and `Minifetch.ShellReportsAgree` shows that the two checks differ only for base names longer than 127 bytes.
