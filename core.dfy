/** src/core.c: the collectors of the streamlined program whose decisions do not depend on
    floating point. Everything they read (the environment, files, uname, sysconf) arrives as a
    parameter; a file that cannot be opened or read is None. */
module Core {
  import opened CBytes
  import opened Decimal
  import opened Compat

  // ---------------------------------------------------------------- SHELL

  /** tmp[128] in mf_collect_shell: at most 127 bytes of the base name are kept. */
  const SHELL_MAX: nat := 127

  /** The bytes mf_collect_shell keeps: letters, digits, '_', '.' and '-'. */
  predicate IsShellSafe(c: byte) { IsAlnum(c) || c == UNDERSCORE || c == DOT || c == DASH }

  /** The base name of $SHELL: the text after the last '/', or the whole value when there is
      no '/' or the last '/' ends the value. */
  function ShellBase(s: seq<byte>): (b: seq<byte>)
    ensures SLASH !in s ==> b == s
    ensures s != [] && s[|s| - 1] == SLASH ==> b == s
    ensures b == s || (0 < |b| < |s| && b == s[|s| - |b|..] && s[|s| - |b| - 1] == SLASH && SLASH !in b)
    ensures s != [] ==> b != []
  {
    match LastIndexOf(s, SLASH)
    case None => s
    case Some(i) => if i + 1 < |s| then s[i + 1..] else s
  }

  /** Every unsafe byte replaced by '_'. */
  function Sanitized(t: seq<byte>): (r: seq<byte>)
    ensures |r| == |t|
  {
    seq(|t|, i requires 0 <= i < |t| => if IsShellSafe(t[i]) then t[i] else UNDERSCORE)
  }

  /** Sanitizing keeps the length and the safe bytes, leaves only safe bytes, and a second
      pass changes nothing. */
  lemma SanitizedSafe(t: seq<byte>)
    ensures |Sanitized(t)| == |t|
    ensures forall i | 0 <= i < |t| :: IsShellSafe(Sanitized(t)[i])
    ensures forall i | 0 <= i < |t| :: IsShellSafe(t[i]) ==> Sanitized(t)[i] == t[i]
    ensures Sanitized(Sanitized(t)) == Sanitized(t)
  {
  }

  /** mf_collect_shell: -1 when SHELL is unset or empty; otherwise the base name, cut to 127
      bytes, with every unsafe byte replaced by '_' in place. */
  method CollectShell(env: Option<seq<byte>>) returns (rc: int, value: seq<byte>)
    requires env.Some? ==> IsText(env.value)
    ensures rc == 0 || rc == -1
    ensures rc == -1 <==> env.None? || env.value == []
    ensures rc == 0 ==> value == Sanitized(Truncated(ShellBase(env.value), SHELL_MAX))
  {
    if env.None? || env.value == [] {
      return -1, [];
    }
    var shell := env.value;
    var base := shell;
    var slash := LastIndexOf(shell, SLASH);
    if slash.Some? && slash.value + 1 < |shell| {
      base := shell[slash.value + 1..];
    }
    var tmp := Truncated(base, SHELL_MAX);
    ghost var t0 := tmp;
    var i := 0;
    while i < |tmp|
      invariant 0 <= i <= |tmp| == |t0|
      invariant forall k | 0 <= k < |tmp| :: tmp[k] == if k < i then Sanitized(t0)[k] else t0[k]
    {
      if !IsShellSafe(tmp[i]) {
        tmp := tmp[i := UNDERSCORE];
      }
      i := i + 1;
    }
    if tmp == [] {
      return -1, [];
    }
    return 0, tmp;
  }

  /** Any non-empty SHELL succeeds with a non-empty value made only of safe bytes, as long as
      the base name's first 127 bytes, each safe byte kept where it was. */
  lemma ShellValue(s: seq<byte>)
    requires IsText(s) && s != []
    ensures var v := Sanitized(Truncated(ShellBase(s), SHELL_MAX));
      && v != []
      && |v| == Min(|ShellBase(s)|, SHELL_MAX)
      && (forall i | 0 <= i < |v| :: IsShellSafe(v[i]))
      && (forall i | 0 <= i < |v| :: IsShellSafe(ShellBase(s)[i]) ==> v[i] == ShellBase(s)[i])
  {
    SanitizedSafe(Truncated(ShellBase(s), SHELL_MAX));
  }

  // ---------------------------------------------------------------- os-release

  /** The two keys mf_linux_read_os_release looks for. */
  const PRETTY_KEY: seq<byte> := Ascii("PRETTY_NAME=")
  const NAME_KEY: seq<byte> := Ascii("NAME=")

  /** pretty[256] and name[256]: at most 255 bytes of a value are kept. */
  const OS_VALUE_MAX: nat := 255

  predicate IsPretty(line: seq<byte>) { HasPrefix(line, PRETTY_KEY) }
  predicate IsName(line: seq<byte>) { HasPrefix(line, NAME_KEY) }

  /** The value a line carries after its key: unquoted (trailing white space, the newline
      among it, stripped first) and cut to the buffer. */
  function KeyValue(line: seq<byte>, key: seq<byte>): seq<byte>
    requires HasPrefix(line, key)
  {
    Truncated(UnquoteText(line[|key|..]), OS_VALUE_MAX)
  }

  /** A line is never both a PRETTY_NAME= line and a NAME= line. */
  lemma KeysDisjoint(line: seq<byte>)
    ensures !(IsPretty(line) && IsName(line))
  {
    if IsPretty(line) {
      assert line[0] == PRETTY_KEY[0] != NAME_KEY[0];
    }
  }

  /** What the scan of one file leaves in pretty and name. */
  datatype Scan = Scan(pretty: seq<byte>, name: seq<byte>)

  /** The scan from line i on, with name as it stands: a PRETTY_NAME= line sets pretty and
      ends the scan; a NAME= line sets name while name is still empty. */
  function ScanFrom(lines: seq<seq<byte>>, i: nat, name: seq<byte>): Scan
    requires i <= |lines|
    decreases |lines| - i
  {
    if i == |lines| then Scan([], name)
    else if IsPretty(lines[i]) then Scan(KeyValue(lines[i], PRETTY_KEY), name)
    else if name == [] && IsName(lines[i]) then ScanFrom(lines, i + 1, KeyValue(lines[i], NAME_KEY))
    else ScanFrom(lines, i + 1, name)
  }

  function ScanLines(lines: seq<seq<byte>>): Scan { ScanFrom(lines, 0, []) }

  /** The line loop of one candidate file. */
  method ScanOsRelease(lines: seq<seq<byte>>) returns (pretty: seq<byte>, name: seq<byte>)
    ensures Scan(pretty, name) == ScanLines(lines)
  {
    pretty := [];
    name := [];
    var i := 0;
    while i < |lines|
      invariant 0 <= i <= |lines|
      invariant ScanFrom(lines, i, name) == ScanLines(lines)
    {
      if IsPretty(lines[i]) {
        pretty := KeyValue(lines[i], PRETTY_KEY);
        return;
      }
      if name == [] && IsName(lines[i]) {
        name := KeyValue(lines[i], NAME_KEY);
      }
      i := i + 1;
    }
  }

  /** The first PRETTY_NAME= line gives pretty, whatever comes before or after it. */
  lemma {:induction false} ScanPrettyFrom(lines: seq<seq<byte>>, i: nat, name: seq<byte>, j: nat)
    requires i <= j < |lines| && IsPretty(lines[j])
    requires forall h | i <= h < j :: !IsPretty(lines[h])
    ensures ScanFrom(lines, i, name).pretty == KeyValue(lines[j], PRETTY_KEY)
    decreases j - i
  {
    if i < j {
      assert !IsPretty(lines[i]);
      if name == [] && IsName(lines[i]) {
        var v := KeyValue(lines[i], NAME_KEY);
        assert ScanFrom(lines, i, name) == ScanFrom(lines, i + 1, v);
        ScanPrettyFrom(lines, i + 1, v, j);
      } else {
        assert ScanFrom(lines, i, name) == ScanFrom(lines, i + 1, name);
        ScanPrettyFrom(lines, i + 1, name, j);
      }
    }
  }

  lemma ScanPrettyFirst(lines: seq<seq<byte>>, j: nat)
    requires j < |lines| && IsPretty(lines[j])
    requires forall h | 0 <= h < j :: !IsPretty(lines[h])
    ensures ScanLines(lines).pretty == KeyValue(lines[j], PRETTY_KEY)
  {
    ScanPrettyFrom(lines, 0, [], j);
  }

  /** Without a PRETTY_NAME= line, pretty stays empty. */
  lemma {:induction false} ScanNoPrettyFrom(lines: seq<seq<byte>>, i: nat, name: seq<byte>)
    requires i <= |lines|
    requires forall h | i <= h < |lines| :: !IsPretty(lines[h])
    ensures ScanFrom(lines, i, name).pretty == []
    decreases |lines| - i
  {
    if i < |lines| {
      if name == [] && IsName(lines[i]) {
        ScanNoPrettyFrom(lines, i + 1, KeyValue(lines[i], NAME_KEY));
      } else {
        ScanNoPrettyFrom(lines, i + 1, name);
      }
    }
  }

  lemma ScanNoPretty(lines: seq<seq<byte>>)
    requires forall h | 0 <= h < |lines| :: !IsPretty(lines[h])
    ensures ScanLines(lines).pretty == []
  {
    ScanNoPrettyFrom(lines, 0, []);
  }

  /** A NAME= line with a non-empty value is a name the scan keeps. */
  predicate NamesOs(line: seq<byte>) { IsName(line) && KeyValue(line, NAME_KEY) != [] }

  /** name is the value of the first NAME= line with a non-empty value, provided no
      PRETTY_NAME= line comes first; the empty NAME= lines before it are passed over. */
  lemma {:induction false} ScanNameFrom(lines: seq<seq<byte>>, i: nat, j: nat)
    requires i <= j < |lines| && NamesOs(lines[j])
    requires forall h | i <= h <= j :: !IsPretty(lines[h])
    requires forall h | i <= h < j :: !NamesOs(lines[h])
    ensures ScanFrom(lines, i, []).name == KeyValue(lines[j], NAME_KEY)
    decreases j - i
  {
    if i == j {
      ScanNameAt(lines, j);
    } else {
      ScanPastLine(lines, i);
      ScanNameFrom(lines, i + 1, j);
    }
  }

  /** A NAME= line with a value, met while name is empty, sets name for good. */
  lemma ScanNameAt(lines: seq<seq<byte>>, j: nat)
    requires j < |lines| && NamesOs(lines[j]) && !IsPretty(lines[j])
    ensures ScanFrom(lines, j, []).name == KeyValue(lines[j], NAME_KEY)
  {
    var v := KeyValue(lines[j], NAME_KEY);
    assert ScanFrom(lines, j, []) == ScanFrom(lines, j + 1, v);
    KeepName(lines, j + 1, v);
  }

  /** A line that is neither PRETTY_NAME= nor a NAME= line with a value leaves an empty name
      empty. */
  lemma ScanPastLine(lines: seq<seq<byte>>, i: nat)
    requires i < |lines| && !NamesOs(lines[i]) && !IsPretty(lines[i])
    ensures ScanFrom(lines, i, []) == ScanFrom(lines, i + 1, [])
  {
  }

  /** Once name is set, it is kept to the end of the scan. */
  lemma {:induction false} KeepName(lines: seq<seq<byte>>, i: nat, name: seq<byte>)
    requires i <= |lines| && name != []
    ensures ScanFrom(lines, i, name).name == name
    decreases |lines| - i
  {
    if i < |lines| && !IsPretty(lines[i]) {
      KeepName(lines, i + 1, name);
    }
  }

  lemma ScanNameFirst(lines: seq<seq<byte>>, j: nat)
    requires j < |lines| && NamesOs(lines[j])
    requires forall h | 0 <= h <= j :: !IsPretty(lines[h])
    requires forall h | 0 <= h < j :: !NamesOs(lines[h])
    ensures ScanLines(lines).name == KeyValue(lines[j], NAME_KEY)
  {
    ScanNameFrom(lines, 0, j);
  }

  /** Without a NAME= line of non-empty value, name stays empty. */
  lemma {:induction false} ScanNoNameFrom(lines: seq<seq<byte>>, i: nat)
    requires i <= |lines|
    requires forall h | i <= h < |lines| :: !NamesOs(lines[h])
    ensures ScanFrom(lines, i, []).name == []
    decreases |lines| - i
  {
    if i < |lines| && !IsPretty(lines[i]) {
      assert !NamesOs(lines[i]);
      ScanNoNameFrom(lines, i + 1);
    }
  }

  lemma ScanNoName(lines: seq<seq<byte>>)
    requires forall h | 0 <= h < |lines| :: !NamesOs(lines[h])
    ensures ScanLines(lines).name == []
  {
    ScanNoNameFrom(lines, 0);
  }

  /** The value one candidate file yields: pretty if it is set, else name, else nothing. */
  function FileValue(file: Option<seq<seq<byte>>>): (r: Option<seq<byte>>)
    ensures r.Some? ==> r.value != []
  {
    if file.None? then None
    else
      var sc := ScanLines(file.value);
      if sc.pretty != [] then Some(sc.pretty)
      else if sc.name != [] then Some(sc.name)
      else None
  }

  /** mf_linux_read_os_release over the candidates /etc/os-release and /usr/lib/os-release:
      the first candidate that yields a value gives it; -1 when none does. */
  method ReadOsRelease(etc: Option<seq<seq<byte>>>, usr: Option<seq<seq<byte>>>)
    returns (rc: int, value: seq<byte>)
    ensures rc == 0 || rc == -1
    ensures rc == 0 <==> FileValue(etc).Some? || FileValue(usr).Some?
    ensures FileValue(etc).Some? ==> value == FileValue(etc).value
    ensures FileValue(etc).None? && FileValue(usr).Some? ==> value == FileValue(usr).value
    ensures rc == 0 ==> value != []
  {
    var candidates := [etc, usr];
    var i := 0;
    while i < |candidates|
      invariant 0 <= i <= 2 && candidates == [etc, usr]
      invariant forall h | 0 <= h < i :: FileValue(candidates[h]).None?
    {
      var file := candidates[i];
      if file.Some? {
        var pretty, name := ScanOsRelease(file.value);
        assert FileValue(file) == if pretty != [] then Some(pretty) else if name != [] then Some(name) else None;
        assert i == 1 ==> FileValue(candidates[0]).None?;
        if pretty != [] {
          return 0, pretty;
        }
        if name != [] {
          return 0, name;
        }
      }
      i := i + 1;
    }
    assert FileValue(candidates[0]).None? && FileValue(candidates[1]).None?;
    return -1, [];
  }

  /** mf_collect_os: the os-release value, else uname's sysname, else -1 (`osRelease` is what
      ReadOsRelease found, `sysname` None when uname fails). */
  function CollectOs(osRelease: Option<seq<byte>>, sysname: Option<seq<byte>>): (r: Option<seq<byte>>)
    ensures osRelease.Some? ==> r == osRelease
    ensures osRelease.None? ==> r == sysname
  {
    if osRelease.Some? then osRelease else sysname
  }

  // ---------------------------------------------------------------- host and cpu

  /** mf_collect_host: the first line of /etc/hostname with trailing white space stripped,
      when that leaves something (`hostLine` None when the file cannot be opened or read);
      otherwise uname's nodename (None when uname fails); otherwise -1. */
  function CollectHost(hostLine: Option<seq<byte>>, nodename: Option<seq<byte>>): (r: Option<seq<byte>>)
    ensures hostLine.Some? && RStripText(hostLine.value) != [] ==> r == Some(RStripText(hostLine.value))
    ensures (hostLine.None? || RStripText(hostLine.value) == []) ==> r == nodename
  {
    if hostLine.Some? && RStripText(hostLine.value) != [] then Some(RStripText(hostLine.value))
    else nodename
  }

  /** A blank /etc/hostname never gives an empty host name while uname answers: the file's
      value, when used, has no trailing white space and is not empty. */
  lemma HostNotBlank(hostLine: Option<seq<byte>>, nodename: Option<seq<byte>>)
    requires hostLine.Some? && RStripText(hostLine.value) != []
    ensures var r := CollectHost(hostLine, nodename);
      r.Some? && r.value != [] && !IsStripped(r.value[|r.value| - 1]) && HasPrefix(hostLine.value, r.value)
  {
  }

  /** mf_collect_cpu: the decimal text of the online processor count, clamped to at least 1;
      the text reads back as that count. */
  function CollectCpu(cpus: int): (text: seq<byte>)
    ensures AllDigits(text) && text != []
    ensures Strtol(text) == Max(1, cpus)
  {
    var n := if cpus < 1 then 1 else cpus;
    StrtolOfDecimal(n, []);
    assert ToDecimal(n) + [] == ToDecimal(n);
    ToDecimal(n)
  }
}
