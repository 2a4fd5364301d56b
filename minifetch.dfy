/** minifetch.c, the single-file program the streamlined one grew from: its trim, its
    key=value reader, its uptime, shell and cpu collectors and its side-by-side printer.
    Files and the environment arrive as parameters (None when absent or unreadable). */
module Minifetch {
  import opened CBytes
  import opened Decimal
  import Core
  import LinuxExtras
  import Grid

  // ---------------------------------------------------------------- trim

  /** The longest prefix that does not end in an isspace byte. */
  function RTrimSpace(t: seq<byte>): (r: seq<byte>)
    ensures HasPrefix(t, r)
    ensures r == [] || !IsSpace(r[|r| - 1])
    ensures forall i | |r| <= i < |t| :: IsSpace(t[i])
  {
    if t != [] && IsSpace(t[|t| - 1]) then RTrimSpace(t[..|t| - 1]) else t
  }

  /** What trim leaves: no isspace byte at either end. */
  function TrimText(t: seq<byte>): (r: seq<byte>)
    ensures r == [] || (!IsSpace(r[0]) && !IsSpace(r[|r| - 1]))
  {
    SkipSpace(RTrimSpace(t))
  }

  /** The trimmed text is the piece of t between a run of white space at its start and one at
      its end. */
  lemma TrimIsInfix(t: seq<byte>)
    ensures |TrimText(t)| <= |RTrimSpace(t)|
    ensures t[|RTrimSpace(t)| - |TrimText(t)|..|RTrimSpace(t)|] == TrimText(t)
    ensures forall i | 0 <= i < |RTrimSpace(t)| - |TrimText(t)| :: IsSpace(t[i])
    ensures forall i | |RTrimSpace(t)| <= i < |t| :: IsSpace(t[i])
  {
    var u := RTrimSpace(t);
    assert u == t[..|u|];
    InfixOf(t, u, SkipSpace(u));
  }

  lemma InfixOf(t: seq<byte>, u: seq<byte>, r: seq<byte>)
    requires |u| <= |t| && u == t[..|u|]
    requires |r| <= |u| && r == u[|u| - |r|..]
    requires forall i | 0 <= i < |u| - |r| :: IsSpace(u[i])
    ensures t[|u| - |r|..|u|] == r
    ensures forall i | 0 <= i < |u| - |r| :: IsSpace(t[i])
  {
    forall i | 0 <= i < |u| - |r| ensures IsSpace(t[i]) {
      assert t[i] == u[i];
    }
  }

  /** The right trim keeps any text that ends in a non-space byte, whatever white space
      follows it. */
  lemma {:induction false} RTrimTail(a: seq<byte>, w: seq<byte>)
    requires a == [] || !IsSpace(a[|a| - 1])
    requires forall i | 0 <= i < |w| :: IsSpace(w[i])
    ensures RTrimSpace(a + w) == a
  {
    if w == [] {
      assert a + w == a;
    } else {
      assert (a + w)[..|a + w| - 1] == a + w[..|w| - 1];
      RTrimTail(a, w[..|w| - 1]);
    }
  }

  /** Trimming twice is trimming once. */
  lemma TrimIdempotent(t: seq<byte>)
    ensures TrimText(TrimText(t)) == TrimText(t)
  {
    var r := TrimText(t);
    assert RTrimSpace(r) == r;
    assert SkipSpace(r) == r;
  }

  /** trim(s): NULs over the trailing white space, then the index of the first byte that is
      not white space (the returned pointer, as an offset; trim(NULL) returns NULL, here 0). */
  method Trim(s: array?<byte>) returns (start: nat)
    requires s != null ==> NUL in s[..]
    modifies s
    ensures s == null ==> start == 0
    ensures s != null ==> start < s.Length && NUL in s[start..] && Str(s[start..]) == TrimText(Str(old(s[..])))
    ensures s != null ==> Wiped(s[..], old(s[..]), |RTrimSpace(Str(old(s[..])))|, |Str(old(s[..]))|)
  {
    if s == null {
      return 0;
    }
    ghost var s0 := s[..];
    ghost var t := Str(s0);
    var len := StrLen(s[..]);
    while len > 0
      invariant 0 <= len <= |t|
      invariant forall i | len <= i < |t| :: IsSpace(t[i])
      invariant Wiped(s[..], s0, len, |t|)
    {
      var c := s[len - 1];
      assert c == t[len - 1];
      if c == LF || c == CR || IsSpace(c) {
        WipedStep(s[..], s0, len, |t|);
        s[len - 1] := NUL;
        len := len - 1;
      } else {
        break;
      }
    }
    assert len == 0 || !IsSpace(t[len - 1]);
    TrimmedTail(s0, s[..], len);
    start := SkipLeading(s[..], len);
  }

  /** The buffer after trim's first loop: the string is the trimmed tail of the old one. */
  lemma TrimmedTail(s0: seq<byte>, s1: seq<byte>, len: nat)
    requires NUL in s0 && len <= |Str(s0)| && |s1| == |s0|
    requires forall i | len <= i < |Str(s0)| :: IsSpace(Str(s0)[i])
    requires len == 0 || !IsSpace(Str(s0)[len - 1])
    requires Wiped(s1, s0, len, |Str(s0)|)
    ensures len < |s1| && s1[..len] == RTrimSpace(Str(s0)) && s1[len] == NUL && IsText(s1[..len])
  {
    var t := Str(s0);
    assert s1[..len] == t[..len] by {
      forall k | 0 <= k < len ensures s1[k] == t[k] {
        assert s1[k] == s0[k];
      }
    }
    assert t[..len] + t[len..] == t;
    RTrimTail(t[..len], t[len..]);
  }

  /** trim's second loop: the offset of the first byte of the string that is not white
      space. */
  method SkipLeading(b: seq<byte>, len: nat) returns (start: nat)
    requires len < |b| && b[len] == NUL && IsText(b[..len])
    ensures start <= len && NUL in b[start..] && Str(b[start..]) == SkipSpace(b[..len])
  {
    ghost var u := b[..len];
    start := 0;
    while b[start] != NUL && IsSpace(b[start])
      invariant 0 <= start <= len
      invariant SkipSpace(u[start..]) == SkipSpace(u)
      decreases len - start
    {
      assert b[start] == u[start];
      assert u[start..][1..] == u[start + 1..];
      start := start + 1;
    }
    assert start < len ==> b[start] == u[start];
    SkippedBuffer(b, u, start);
  }

  /** From `start` on, the buffer holds the rest of u, which begins with no white space. */
  lemma SkippedBuffer(b: seq<byte>, u: seq<byte>, start: nat)
    requires start <= |u| < |b| && b[..|u|] == u && b[|u|] == NUL && IsText(u)
    requires SkipSpace(u[start..]) == SkipSpace(u)
    requires start == |u| || !IsSpace(u[start])
    ensures NUL in b[start..] && Str(b[start..]) == SkipSpace(u)
  {
    var v := u[start..];
    assert SkipSpace(v) == v;
    TailText(b, u, start);
    StrOfTerminated(b[start..], v);
  }

  lemma TailText(b: seq<byte>, u: seq<byte>, start: nat)
    requires start <= |u| < |b| && b[..|u|] == u && b[|u|] == NUL && IsText(u)
    ensures var w := b[start..]; var v := u[start..];
      IsText(v) && |v| < |w| && w[..|v|] == v && w[|v|] == NUL
  {
    var w := b[start..];
    var v := u[start..];
    assert w[..|v|] == v by {
      forall k | 0 <= k < |v| ensures w[k] == v[k] {
        assert w[k] == b[start + k] == u[start + k];
      }
    }
    assert w[|v|] == b[|u|];
    assert IsText(v) by {
      forall k | 0 <= k < |v| ensures v[k] != NUL {
        assert v[k] == u[start + k];
      }
    }
  }

  // ---------------------------------------------------------------- read_kv_from_file

  /** A line that holds the key: the key's bytes, then '=' right after them. */
  predicate KeyLine(line: seq<byte>, key: seq<byte>)
  {
    HasPrefix(line, key) && |line| > |key| && line[|key|] == EQUALS
  }

  /** The value of a key line: trimmed, then stripped of a pair of double quotes when it starts
      and ends with one and is longer than one byte. */
  function KvValue(line: seq<byte>, key: seq<byte>): (v: seq<byte>)
    requires KeyLine(line, key)
  {
    var t := TrimText(line[|key| + 1..]);
    if |t| > 1 && t[0] == DQUOTE && t[|t| - 1] == DQUOTE then t[1..|t| - 1] else t
  }

  /** A quoted value loses exactly its two quotes; an unquoted or lone quote is kept. */
  lemma KvQuotes(line: seq<byte>, key: seq<byte>)
    requires KeyLine(line, key)
    ensures var t := TrimText(line[|key| + 1..]);
      && (|t| > 1 && t[0] == DQUOTE && t[|t| - 1] == DQUOTE ==> |KvValue(line, key)| == |t| - 2 && KvValue(line, key) == t[1..|t| - 1])
      && (!(|t| > 1 && t[0] == DQUOTE && t[|t| - 1] == DQUOTE) ==> KvValue(line, key) == t)
  {
  }

  /** The value of the first key line, if any. */
  function FirstKv(lines: seq<seq<byte>>, key: seq<byte>): (r: Option<seq<byte>>)
    ensures r.None? <==> forall h | 0 <= h < |lines| :: !KeyLine(lines[h], key)
  {
    if lines == [] then None
    else if KeyLine(lines[0], key) then Some(KvValue(lines[0], key))
    else
      var r := FirstKv(lines[1..], key);
      assert forall h | 1 <= h < |lines| :: lines[h] == lines[1..][h - 1];
      r
  }

  /** The first key line wins, whatever follows. */
  lemma {:induction false} FirstKvAt(lines: seq<seq<byte>>, key: seq<byte>, j: nat)
    requires j < |lines| && KeyLine(lines[j], key)
    requires forall h | 0 <= h < j :: !KeyLine(lines[h], key)
    ensures FirstKv(lines, key) == Some(KvValue(lines[j], key))
    decreases j
  {
    if j > 0 {
      assert !KeyLine(lines[0], key);
      forall h | 0 <= h < j - 1 ensures !KeyLine(lines[1..][h], key) {
        assert lines[1..][h] == lines[h + 1];
      }
      FirstKvAt(lines[1..], key, j - 1);
    }
  }

  /** read_kv_from_file(path, key, out, outsz): the first key line's value, copied with
      strncpy into outsz - 1 bytes and terminated; NULL (None) without the file or without a
      key line. */
  method ReadKv(file: Option<seq<seq<byte>>>, key: seq<byte>, outsz: nat) returns (r: Option<seq<byte>>)
    requires outsz >= 1
    ensures file.None? ==> r.None?
    ensures file.Some? ==> r.Some? == FirstKv(file.value, key).Some?
    ensures file.Some? && r.Some? ==> r.value == Truncated(FirstKv(file.value, key).value, outsz - 1)
  {
    if file.None? {
      return None;
    }
    var lines := file.value;
    var i := 0;
    while i < |lines|
      invariant 0 <= i <= |lines|
      invariant FirstKv(lines[i..], key) == FirstKv(lines, key)
    {
      var line := lines[i];
      if HasPrefix(line, key) && |line| > |key| && line[|key|] == EQUALS {
        var v := TrimText(line[|key| + 1..]);
        if |v| > 0 && v[0] == DQUOTE {
          if |v| > 1 && v[|v| - 1] == DQUOTE {
            v := v[1..|v| - 1];
          }
        }
        return Some(Truncated(v, outsz - 1));
      }
      assert lines[i..][1..] == lines[i + 1..];
      i := i + 1;
    }
    return None;
  }

  const PRETTY_NAME: seq<byte> := Ascii("PRETTY_NAME")
  const LINUX: seq<byte> := Ascii("Linux")

  /** get_distro: PRETTY_NAME from /etc/os-release, else from /usr/lib/os-release, else
      "Linux" (distro[256]). */
  method GetDistro(etc: Option<seq<seq<byte>>>, usr: Option<seq<seq<byte>>>) returns (out: seq<byte>)
    ensures etc.Some? && FirstKv(etc.value, PRETTY_NAME).Some? ==>
      out == Truncated(FirstKv(etc.value, PRETTY_NAME).value, 255)
    ensures !(etc.Some? && FirstKv(etc.value, PRETTY_NAME).Some?) && usr.Some? && FirstKv(usr.value, PRETTY_NAME).Some? ==>
      out == Truncated(FirstKv(usr.value, PRETTY_NAME).value, 255)
    ensures !(etc.Some? && FirstKv(etc.value, PRETTY_NAME).Some?) && !(usr.Some? && FirstKv(usr.value, PRETTY_NAME).Some?) ==>
      out == LINUX
  {
    var r := ReadKv(etc, PRETTY_NAME, 256);
    if r.Some? {
      return r.value;
    }
    r := ReadKv(usr, PRETTY_NAME, 256);
    if r.Some? {
      return r.value;
    }
    return LINUX;
  }

  // ---------------------------------------------------------------- get_uptime

  const UNKNOWN: seq<byte> := Ascii("unknown")
  const NOT_AVAILABLE: seq<byte> := Ascii("n/a")

  /** The split of whole seconds: days = s / 86400, then hours and minutes of the rest. */
  function SplitSeconds(seconds: nat): LinuxExtras.Span
  {
    var days := seconds / 86400;
    var rest := seconds % 86400;
    var hours := rest / 3600;
    LinuxExtras.Span(days, hours, rest % 3600 / 60)
  }

  /** get_uptime: "unknown" without a number (`up` None when the file cannot be opened or
      fscanf fails); otherwise the whole seconds split, in the same three formats as the
      streamlined program. */
  function GetUptime(up: Option<real>): (text: seq<byte>)
    requires up.Some? ==> up.value >= 0.0
    ensures up.None? ==> text == UNKNOWN
    ensures up.Some? ==> text == LinuxExtras.UptimeText(SplitSeconds(up.value.Floor))
    ensures up.Some? ==> LinuxExtras.ReadUptime(text) == Some(SplitSeconds(up.value.Floor))
  {
    if up.None? then UNKNOWN
    else
      LinuxExtras.UptimeTextRoundTrip(SplitSeconds(up.value.Floor));
      LinuxExtras.UptimeText(SplitSeconds(up.value.Floor))
  }

  /** The seconds split is a normal span that adds back up to the whole minutes. */
  lemma SplitSecondsExact(seconds: nat)
    ensures LinuxExtras.Normal(SplitSeconds(seconds))
    ensures LinuxExtras.SpanMinutes(SplitSeconds(seconds)) == seconds / 60
  {
    var s := SplitSeconds(seconds);
    var rest := seconds % 86400;
    var r2 := rest % 3600;
    assert seconds == s.days * 86400 + rest;
    assert rest == s.hours * 3600 + r2;
    assert r2 == s.minutes * 60 + r2 % 60;
    assert seconds == LinuxExtras.SpanMinutes(s) * 60 + r2 % 60;
    Grid.FlatIndex(LinuxExtras.SpanMinutes(s), r2 % 60, 60);
  }

  /** The whole minutes of a non-negative real are the whole minutes of its whole seconds. */
  lemma MinutesOfFloor(up: real)
    requires up >= 0.0
    ensures LinuxExtras.TotalMinutes(up) == up.Floor / 60
  {
    var f := up.Floor;
    var q := f / 60;
    assert q * 60 <= f < q * 60 + 60;
    assert (q as real) * 60.0 <= up < (q as real) * 60.0 + 60.0;
    assert q as real <= up / 60.0 < q as real + 1.0;
  }

  /** Both programs show the same uptime text for the same reading of /proc/uptime. */
  lemma UptimeAgrees(up: real)
    requires up >= 0.0
    ensures LinuxExtras.CollectUptime(Some(up)) == Some(GetUptime(Some(up)))
  {
    MinutesOfFloor(up);
    SplitSecondsExact(up.Floor);
    LinuxExtras.SplitMinutesUnique(up.Floor / 60, SplitSeconds(up.Floor));
  }

  // ---------------------------------------------------------------- get_shell

  /** The part checked before printing (strnlen(base, 127)) and the part printed
      (shell[256]). */
  const SHELL_CHECKED: nat := 127
  const SHELL_PRINTED: nat := 255

  /** get_shell's base name: the text after the last '/', empty when '/' is last. */
  function LegacyBase(s: seq<byte>): (b: seq<byte>)
    ensures SLASH !in b
    ensures SLASH !in s ==> b == s
    ensures SLASH in s ==> |b| < |s| && b == s[|s| - |b|..] && s[|s| - |b| - 1] == SLASH
  {
    match LastIndexOf(s, SLASH)
    case None => s
    case Some(i) => s[i + 1..]
  }

  /** get_shell as written: "n/a" for an unset or empty SHELL; the base name when it is not
      empty and its first 127 bytes are safe; otherwise "unknown". */
  function ShellReport(env: Option<seq<byte>>): (out: seq<byte>)
  {
    if env.None? || env.value == [] then NOT_AVAILABLE
    else
      var b := LegacyBase(env.value);
      var len := Min(|b|, SHELL_CHECKED);
      if len > 0 && forall i | 0 <= i < len :: Core.IsShellSafe(b[i]) then Truncated(b, SHELL_PRINTED)
      else UNKNOWN
  }

  /** The check stops at byte 127 while up to 255 bytes are printed: a base name of 127 safe
      bytes followed by an escape byte (say SHELL = "/" then 127 'a' then ESC) is printed,
      escape byte and all. */
  lemma ShellReportPassesUnsafe(checked: seq<byte>)
    requires |checked| == SHELL_CHECKED && forall i | 0 <= i < |checked| :: Core.IsShellSafe(checked[i])
    ensures var out := ShellReport(Some([SLASH] + checked + [ESC]));
      |out| == SHELL_CHECKED + 1 && out[SHELL_CHECKED] == ESC && !Core.IsShellSafe(ESC)
  {
    var b := checked + [ESC];
    SafeBase(checked);
    assert forall i | 0 <= i < SHELL_CHECKED :: b[i] == checked[i];
    ShellReportOfBase([SLASH] + checked + [ESC], b);
  }

  /** Safe bytes hold no '/', so the base name is everything after the leading one. */
  lemma SafeBase(checked: seq<byte>)
    requires forall i | 0 <= i < |checked| :: Core.IsShellSafe(checked[i])
    ensures LegacyBase([SLASH] + checked + [ESC]) == checked + [ESC]
  {
    var env := [SLASH] + checked + [ESC];
    var b := checked + [ESC];
    assert env == [SLASH] + b;
    assert SLASH !in b by {
      forall i | 0 <= i < |b| ensures b[i] != SLASH {
        if i < |checked| {
          assert Core.IsShellSafe(checked[i]);
        }
      }
    }
    assert LastIndexOf(env, SLASH) == Some(0);
  }

  /** A base name whose first 127 bytes are safe is printed, up to 255 bytes. */
  lemma ShellReportOfBase(env: seq<byte>, b: seq<byte>)
    requires env != [] && LegacyBase(env) == b && |b| > SHELL_CHECKED
    requires forall i | 0 <= i < SHELL_CHECKED :: Core.IsShellSafe(b[i])
    ensures ShellReport(Some(env)) == Truncated(b, SHELL_PRINTED)
  {
  }

  /** get_shell as its comment intends: every byte that is printed (the first 255 of the base
      name) is checked. */
  function ShellReportChecked(env: Option<seq<byte>>): (out: seq<byte>)
    ensures out == NOT_AVAILABLE || out == UNKNOWN || forall i | 0 <= i < |out| :: Core.IsShellSafe(out[i])
    ensures out != NOT_AVAILABLE && out != UNKNOWN ==> env.Some? && out != [] && HasPrefix(LegacyBase(env.value), out)
  {
    if env.None? || env.value == [] then NOT_AVAILABLE
    else
      var b := LegacyBase(env.value);
      var len := Min(|b|, SHELL_PRINTED);
      if len > 0 && forall i | 0 <= i < len :: Core.IsShellSafe(b[i]) then Truncated(b, SHELL_PRINTED)
      else UNKNOWN
  }

  /** The safety loop of get_shell, which stops at the first unsafe byte, run over every byte
      that is printed. */
  method GetShell(env: Option<seq<byte>>) returns (out: seq<byte>)
    ensures out == ShellReportChecked(env)
  {
    if env.None? || env.value == [] {
      return NOT_AVAILABLE;
    }
    var base := LegacyBase(env.value);
    var len := Min(|base|, SHELL_PRINTED);
    var safe := len > 0;
    var i := 0;
    while i < len
      invariant 0 <= i <= len
      invariant safe <==> len > 0 && forall k | 0 <= k < i :: Core.IsShellSafe(base[k])
    {
      if !Core.IsShellSafe(base[i]) {
        safe := false;
        break;
      }
      i := i + 1;
    }
    if !safe {
      return UNKNOWN;
    }
    assert forall k | 0 <= k < len :: Core.IsShellSafe(base[k]);
    return Truncated(base, SHELL_PRINTED);
  }

  /** The two agree on every base name of at most 127 bytes. */
  lemma ShellReportsAgree(env: Option<seq<byte>>)
    requires env.Some? ==> |LegacyBase(env.value)| <= SHELL_CHECKED
    ensures ShellReport(env) == ShellReportChecked(env)
  {
  }

  // ---------------------------------------------------------------- get_cpu

  const MODEL_NAME: seq<byte> := Ascii("model name")
  const PROCESSOR: seq<byte> := Ascii("processor")

  /** The model a "model name" line gives: the text after its first ':', trimmed, cut to the
      256-byte model buffer; None for other lines and lines without ':'. */
  function ModelOf(line: seq<byte>): Option<seq<byte>>
  {
    if !HasPrefix(line, MODEL_NAME) then None
    else
      match IndexOf(line, COLON)
      case None => None
      case Some(c) => Some(Truncated(TrimText(line[c + 1..]), 255))
  }

  /** The model after the lines: set by a model line while it is still empty. */
  function FirstModel(lines: seq<seq<byte>>): seq<byte>
  {
    if lines == [] then []
    else NextModel(FirstModel(lines[..|lines| - 1]), lines[|lines| - 1])
  }

  /** One line's effect on the model: kept once set, otherwise what the line gives. */
  function NextModel(model: seq<byte>, line: seq<byte>): seq<byte>
  {
    if model != [] then model
    else
      match ModelOf(line)
      case Some(m) => m
      case None => []
  }

  /** The number of lines that start with "processor". */
  function Processors(lines: seq<seq<byte>>): nat
  {
    if lines == [] then 0
    else Processors(lines[..|lines| - 1]) + (if HasPrefix(lines[|lines| - 1], PROCESSOR) then 1 else 0)
  }

  /** The model is the first non-empty one a model line gives; the model lines before it that
      give nothing are passed over. */
  lemma {:induction false} FirstModelAt(lines: seq<seq<byte>>, j: nat)
    requires j < |lines| && ModelOf(lines[j]).Some? && ModelOf(lines[j]).value != []
    requires forall h | 0 <= h < j :: ModelOf(lines[h]).None? || ModelOf(lines[h]).value == []
    ensures FirstModel(lines) == ModelOf(lines[j]).value
    decreases |lines|
  {
    var init := lines[..|lines| - 1];
    if j < |lines| - 1 {
      forall h | 0 <= h < j ensures ModelOf(init[h]).None? || ModelOf(init[h]).value == [] {
        assert init[h] == lines[h];
      }
      FirstModelAt(init, j);
    } else {
      forall h | 0 <= h < |init| ensures ModelOf(init[h]).None? || ModelOf(init[h]).value == [] {
        assert init[h] == lines[h];
      }
      NoModel(init);
    }
  }

  lemma {:induction false} NoModel(lines: seq<seq<byte>>)
    requires forall h | 0 <= h < |lines| :: ModelOf(lines[h]).None? || ModelOf(lines[h]).value == []
    ensures FirstModel(lines) == []
    decreases |lines|
  {
    if lines != [] {
      var init := lines[..|lines| - 1];
      forall h | 0 <= h < |init| ensures ModelOf(init[h]).None? || ModelOf(init[h]).value == [] {
        assert init[h] == lines[h];
      }
      NoModel(init);
    }
  }

  /** get_cpu's output: "model (cores)", the count reported as 1 when no processor line was
      seen, or "n/a" without a model. */
  function CpuText(model: seq<byte>, cores: nat): (out: seq<byte>)
    ensures model == [] ==> out == NOT_AVAILABLE
    ensures model != [] ==> |out| > |model| + 2 && HasPrefix(out, model) && out[|model|..|model| + 2] == [SPACE, 0x28]
    ensures model != [] ==> out[|out| - 1] == 0x29
  {
    if model == [] then NOT_AVAILABLE
    else model + [SPACE, 0x28] + ToDecimal(if cores == 0 then 1 else cores) + [0x29]
  }

  /** The count in the text reads back as the processor count, clamped to at least 1. */
  lemma CpuCountReadsBack(model: seq<byte>, cores: nat)
    requires model != []
    ensures Strtol(CpuText(model, cores)[|model| + 2..]) == (if cores == 0 then 1 else cores)
  {
    var n := if cores == 0 then 1 else cores;
    assert CpuText(model, cores)[|model| + 2..] == ToDecimal(n) + [0x29];
    StrtolOfDecimal(n, [0x29]);
  }

  lemma CpuScanStep(lines: seq<seq<byte>>, i: nat)
    requires i < |lines|
    ensures FirstModel(lines[..i + 1]) == NextModel(FirstModel(lines[..i]), lines[i])
    ensures Processors(lines[..i + 1]) == Processors(lines[..i]) + (if HasPrefix(lines[i], PROCESSOR) then 1 else 0)
  {
    assert lines[..i + 1][..i] == lines[..i];
  }

  /** get_cpu: the line loop over /proc/cpuinfo (None when it cannot be opened). */
  method GetCpu(file: Option<seq<seq<byte>>>) returns (out: seq<byte>)
    ensures file.None? ==> out == NOT_AVAILABLE
    ensures file.Some? ==> out == CpuText(FirstModel(file.value), Processors(file.value))
  {
    if file.None? {
      return NOT_AVAILABLE;
    }
    var lines := file.value;
    var model: seq<byte> := [];
    var cores: nat := 0;
    var i := 0;
    while i < |lines|
      invariant 0 <= i <= |lines|
      invariant model == FirstModel(lines[..i]) && cores == Processors(lines[..i])
    {
      var line := lines[i];
      CpuScanStep(lines, i);
      ghost var model0 := model;
      if model == [] {
        if HasPrefix(line, MODEL_NAME) {
          var colon := IndexOf(line, COLON);
          if colon.Some? {
            model := Truncated(TrimText(line[colon.value + 1..]), 255);
          }
        }
      }
      assert model == NextModel(model0, line);
      if HasPrefix(line, PROCESSOR) {
        cores := cores + 1;
      }
      i := i + 1;
    }
    assert lines[..|lines|] == lines;
    return CpuText(model, cores);
  }

  // ---------------------------------------------------------------- ADD

  const LABEL_COLOR: seq<byte> := [ESC] + Ascii("[37m")
  const VALUE_COLOR: seq<byte> := [ESC] + Ascii("[0m")
  const RESET: seq<byte> := [ESC] + Ascii("[0m")
  /** sizeof(linebuf[n]): 640 bytes, so at most 639 of text. */
  const INFO_LINE_MAX: nat := 639

  /** A field main may show: whether its CFG_SHOW_ flag is on, its label (caption) and its collected
      value. */
  datatype Entry = Entry(shown: bool, caption: seq<byte>, value: seq<byte>)

  /** The bytes before the value in an info line. */
  function InfoPrefix(caption: seq<byte>): seq<byte>
  {
    LABEL_COLOR + caption + RESET + [SPACE] + VALUE_COLOR
  }

  /** ADD(L, V): the label in the caption colour, a space, then the value in the value colour,
      cut to the line buffer. */
  function InfoLine(caption: seq<byte>, value: seq<byte>): (line: seq<byte>)
    ensures |line| <= INFO_LINE_MAX
  {
    Truncated(InfoPrefix(caption) + value + RESET, INFO_LINE_MAX)
  }

  /** A value that fits is found whole, ended by the reset, right after the prefix. */
  lemma InfoLineValue(caption: seq<byte>, value: seq<byte>)
    requires |InfoPrefix(caption)| + |value| + |RESET| <= INFO_LINE_MAX
    ensures var k := |InfoPrefix(caption)|;
      |InfoLine(caption, value)| == k + |value| + |RESET| && InfoLine(caption, value)[k..k + |value|] == value
  {
    var k := |InfoPrefix(caption)|;
    assert (InfoPrefix(caption) + value + RESET)[k..k + |value|] == value;
  }

  /** The info lines of the shown entries, in the order of the table. */
  function InfoLines(es: seq<Entry>): seq<seq<byte>>
  {
    if es == [] then []
    else
      var last := es[|es| - 1];
      InfoLines(es[..|es| - 1]) + (if last.shown then [InfoLine(last.caption, last.value)] else [])
  }

  /** How many entries are shown. */
  function ShownCount(es: seq<Entry>): nat
  {
    if es == [] then 0 else ShownCount(es[..|es| - 1]) + (if es[|es| - 1].shown then 1 else 0)
  }

  /** The line is the info line of a shown entry. */
  predicate LineOfShown(es: seq<Entry>, line: seq<byte>)
  {
    exists k | 0 <= k < |es| :: es[k].shown && line == InfoLine(es[k].caption, es[k].value)
  }

  /** One info line per shown entry, and every line is the line of a shown entry. */
  lemma {:induction false} InfoLinesShown(es: seq<Entry>)
    ensures |InfoLines(es)| == ShownCount(es)
    ensures forall j | 0 <= j < |InfoLines(es)| :: LineOfShown(es, InfoLines(es)[j])
    decreases |es|
  {
    if es != [] {
      var init := es[..|es| - 1];
      var last := es[|es| - 1];
      InfoLinesShown(init);
      var tail := if last.shown then [InfoLine(last.caption, last.value)] else [];
      assert InfoLines(es) == InfoLines(init) + tail;
      forall j | 0 <= j < |InfoLines(es)|
        ensures LineOfShown(es, InfoLines(es)[j])
      {
        if j < |InfoLines(init)| {
          assert InfoLines(es)[j] == InfoLines(init)[j];
          assert LineOfShown(init, InfoLines(init)[j]);
          var k :| 0 <= k < |init| && init[k].shown && InfoLines(init)[j] == InfoLine(init[k].caption, init[k].value);
          assert es[k] == init[k];
        } else {
          assert InfoLines(es)[j] == tail[0];
          assert es[|es| - 1] == last;
        }
      }
    } else {
      assert InfoLines(es) == [];
    }
  }

  /** main's sequence of ADD calls: linebuf[nlines] is written and nlines counts up, once per
      shown entry. */
  method AddLines(es: seq<Entry>) returns (info: seq<seq<byte>>, nlines: nat)
    ensures info == InfoLines(es) && nlines == |info|
  {
    info := [];
    nlines := 0;
    var i := 0;
    while i < |es|
      invariant 0 <= i <= |es|
      invariant info == InfoLines(es[..i]) && nlines == |info|
    {
      assert es[..i + 1][..i] == es[..i];
      if es[i].shown {
        info := info + [InfoLine(es[i].caption, es[i].value)];
        nlines := nlines + 1;
      }
      i := i + 1;
    }
    assert es[..|es|] == es;
  }

  // ---------------------------------------------------------------- print_line and main

  const LOGO_COLOR: seq<byte> := [ESC] + Ascii("[34m")
  /** CFG_GAP_SPACES. */
  const GAP_SPACES: nat := 4

  /** The padding after the logo text: logo_w - strlen(left), at least 0, in bytes. */
  function Pad(left: seq<byte>, logoW: int): (p: nat)
    ensures p == Max(0, logoW - |left|)
  {
    if logoW - |left| < 0 then 0 else logoW - |left|
  }

  /** print_line(left, right, logo_w): the coloured logo text, the padding, the gap, then the
      info text or nothing, then a newline. */
  function PrintLine(left: seq<byte>, right: seq<byte>, logoW: int): seq<byte>
  {
    LOGO_COLOR + left + RESET + Spaces(Pad(left, logoW)) + Spaces(GAP_SPACES) + right + [LF]
  }

  /** Every line whose logo text fits the logo width starts its info text at the same byte,
      so the info column lines up. */
  lemma PrintLineAligned(left: seq<byte>, right: seq<byte>, logoW: nat)
    requires |left| <= logoW
    ensures var k := |LOGO_COLOR| + logoW + |RESET| + GAP_SPACES;
      var line := PrintLine(left, right, logoW);
      |line| == k + |right| + 1 && line[k..] == right + [LF]
  {
    var pre := LOGO_COLOR + left + RESET + Spaces(Pad(left, logoW)) + Spaces(GAP_SPACES);
    assert PrintLine(left, right, logoW) == pre + (right + [LF]);
  }

  /** The widest logo line in bytes (logo_w) and the line count (logo_h). */
  function MaxLen(lines: seq<seq<byte>>): (w: nat)
    ensures forall i | 0 <= i < |lines| :: |lines[i]| <= w
    ensures w == 0 || exists i | 0 <= i < |lines| :: |lines[i]| == w
  {
    if lines == [] then 0
    else
      var w := MaxLen(lines[..|lines| - 1]);
      assert forall i | 0 <= i < |lines| - 1 :: lines[i] == lines[..|lines| - 1][i];
      if |lines[|lines| - 1]| > w then |lines[|lines| - 1]| else w
  }

  /** Row r of the output: the logo line and the info line for r, empty past either side. */
  function Row(logo: seq<seq<byte>>, info: seq<seq<byte>>, r: nat): seq<byte>
  {
    PrintLine(if r < |logo| then logo[r] else [], if r < |info| then info[r] else [], MaxLen(logo))
  }

  /** The first n rows of the output. */
  function Rows(logo: seq<seq<byte>>, info: seq<seq<byte>>, n: nat): (rows: seq<seq<byte>>)
    ensures |rows| == n
  {
    if n == 0 then [] else Rows(logo, info, n - 1) + [Row(logo, info, n - 1)]
  }

  lemma {:induction false} RowsAt(logo: seq<seq<byte>>, info: seq<seq<byte>>, n: nat, r: nat)
    requires r < n
    ensures Rows(logo, info, n)[r] == Row(logo, info, r)
    decreases n
  {
    if r < n - 1 {
      RowsAt(logo, info, n - 1, r);
    }
  }

  /** The output: the first n rows, one after another. */
  function Output(logo: seq<seq<byte>>, info: seq<seq<byte>>, n: nat): seq<byte>
  {
    if n == 0 then [] else Output(logo, info, n - 1) + Row(logo, info, n - 1)
  }

  lemma {:induction false} OutputRows(logo: seq<seq<byte>>, info: seq<seq<byte>>, n: nat)
    ensures Output(logo, info, n) == Concat(Rows(logo, info, n))
    decreases n
  {
    if n > 0 {
      OutputRows(logo, info, n - 1);
      ConcatAppend(Rows(logo, info, n - 1), Row(logo, info, n - 1));
    }
  }

  /** One pass of main's row loop: print_line with the logo line and the info line of row r,
      or empty text past either. */
  method PrintRow(logo: seq<seq<byte>>, info: seq<seq<byte>>, logoW: nat, logoH: nat, r: nat,
                  out: seq<byte>) returns (out': seq<byte>)
    requires logoW == MaxLen(logo) && logoH == |logo| && out == Output(logo, info, r)
    ensures out' == Output(logo, info, r + 1)
  {
    var left := if r < logoH then logo[r] else [];
    var right := if r < |info| then info[r] else [];
    var line := PrintLine(left, right, logoW);
    assert line == Row(logo, info, r);
    out' := out + line;
  }

  /** main's first loop: logo_w, the widest logo line, and logo_h, the number of lines. */
  method LogoSize(logo: seq<seq<byte>>) returns (logoW: nat, logoH: nat)
    ensures logoW == MaxLen(logo) && logoH == |logo|
  {
    logoH := 0;
    logoW := 0;
    while logoH < |logo|
      invariant 0 <= logoH <= |logo|
      invariant logoW == MaxLen(logo[..logoH])
    {
      assert logo[..logoH + 1][..logoH] == logo[..logoH];
      if |logo[logoH]| > logoW {
        logoW := |logo[logoH]|;
      }
      logoH := logoH + 1;
    }
    assert logo[..logoH] == logo;
  }

  /** main's layout: logo_w and logo_h from the logo, then max(logo_h, nlines) rows. */
  method Render(logo: seq<seq<byte>>, info: seq<seq<byte>>) returns (out: seq<byte>)
    ensures out == Output(logo, info, Max(|logo|, |info|))
  {
    var logoW, logoH := LogoSize(logo);
    var maxRows := if logoH > |info| then logoH else |info|;
    out := [];
    var r := 0;
    while r < maxRows
      invariant 0 <= r <= maxRows
      invariant out == Output(logo, info, r)
    {
      out := PrintRow(logo, info, logoW, logoH, r, out);
      r := r + 1;
    }
  }

  /** Without newlines in the logo and info text, the output has exactly max(logo_h, nlines)
      lines. */
  lemma RenderLines(logo: seq<seq<byte>>, info: seq<seq<byte>>, n: nat)
    requires forall i | 0 <= i < |logo| :: LF !in logo[i]
    requires forall i | 0 <= i < |info| :: LF !in info[i]
    ensures Newlines(Output(logo, info, n)) == n
  {
    OutputRows(logo, info, n);
    var rows := Rows(logo, info, n);
    forall r | 0 <= r < n
      ensures Newlines(rows[r]) == 1
    {
      RowsAt(logo, info, n, r);
      RowLines(logo, info, r);
    }
    ConcatLines(rows);
  }

  /** The colour escapes hold no newline. */
  lemma ColorsPlain()
    ensures LF !in LOGO_COLOR && LF !in RESET
  {
    assert LOGO_COLOR == [ESC, 0x5B, 0x33, 0x34, 0x6D];
    assert RESET == [ESC, 0x5B, 0x30, 0x6D];
  }

  lemma NoSpaceNewlines(n: nat)
    ensures LF !in Spaces(n)
  {
  }

  lemma RowLines(logo: seq<seq<byte>>, info: seq<seq<byte>>, r: nat)
    requires forall i | 0 <= i < |logo| :: LF !in logo[i]
    requires forall i | 0 <= i < |info| :: LF !in info[i]
    ensures Newlines(Row(logo, info, r)) == 1
  {
    var left := if r < |logo| then logo[r] else [];
    var right := if r < |info| then info[r] else [];
    var body := LOGO_COLOR + left + RESET + Spaces(Pad(left, MaxLen(logo))) + Spaces(GAP_SPACES) + right;
    ColorsPlain();
    NoSpaceNewlines(Pad(left, MaxLen(logo)));
    NoSpaceNewlines(GAP_SPACES);
    assert LF !in body;
    NoNewlines(body);
    NewlinesAppend(body, [LF]);
    assert Row(logo, info, r) == body + [LF];
  }
}
