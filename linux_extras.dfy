/** src/linux_extras.c: the /proc/meminfo reader and the /proc/uptime formatter. The file
    lines arrive as parameters (None when the file cannot be opened); the uptime arrives as
    the number strtod read. */
module LinuxExtras {
  import opened CBytes
  import opened Decimal
  import Grid

  // ---------------------------------------------------------------- mf_parse_kib_value

  /** The bytes mf_parse_kib_value skips after the label: ' ' and '\t'. */
  predicate IsBlank(c: byte) { c == SPACE || c == TAB }

  /** The text after the leading blanks. */
  function SkipBlanks(s: seq<byte>): (r: seq<byte>)
    ensures |r| <= |s| && r == s[|s| - |r|..]
    ensures r == [] || !IsBlank(r[0])
    ensures forall i | 0 <= i < |s| - |r| :: IsBlank(s[i])
  {
    if s != [] && IsBlank(s[0]) then SkipBlanks(s[1..]) else s
  }

  /** The value of a meminfo line for a label: -1 unless the line starts with the label;
      otherwise strtol of what follows the blanks (0 when no digits follow). */
  function KibValue(line: seq<byte>, tag: seq<byte>): int
  {
    if HasPrefix(line, tag) then Strtol(SkipBlanks(line[|tag|..])) else -1
  }

  /** mf_parse_kib_value(line, label): compares the label, advances past spaces and tabs, and
      hands the rest to strtol. */
  method ParseKibValue(line: seq<byte>, tag: seq<byte>) returns (value: int)
    ensures !HasPrefix(line, tag) ==> value == -1
    ensures value == KibValue(line, tag)
  {
    if !HasPrefix(line, tag) {
      return -1;
    }
    var p := |tag|;
    while p < |line| && IsBlank(line[p])
      invariant |tag| <= p <= |line|
      invariant forall i | |tag| <= i < p :: IsBlank(line[i])
    {
      p := p + 1;
    }
    BlanksSkipped(line, |tag|, p);
    value := Strtol(line[p..]);
  }

  /** Blanks over [from, p) followed by a non-blank or the end: the text after the blanks
      starts at p. */
  lemma BlanksSkipped(line: seq<byte>, from: nat, p: nat)
    requires from <= p <= |line|
    requires forall i | from <= i < p :: IsBlank(line[i])
    requires p == |line| || !IsBlank(line[p])
    ensures SkipBlanks(line[from..]) == line[p..]
  {
    assert line[from..] == line[from..p] + line[p..];
    SkipLeadingBlanks(line[from..p], line[p..]);
  }

  /** A line "label", blanks, the decimal text of n, then anything that is not a digit, has
      the value n. */
  lemma KibReadsDecimal(tag: seq<byte>, blanks: seq<byte>, n: nat, rest: seq<byte>)
    requires forall i | 0 <= i < |blanks| :: IsBlank(blanks[i])
    requires rest == [] || !IsDigit(rest[0])
    ensures KibValue(tag + blanks + ToDecimal(n) + rest, tag) == n
  {
    KibAfterBlanks(tag, blanks, ToDecimal(n), rest);
    StrtolOfDecimal(n, rest);
  }

  /** After the label and the blanks, strtol reads from the first byte that is not blank. */
  lemma KibAfterBlanks(tag: seq<byte>, blanks: seq<byte>, d: seq<byte>, rest: seq<byte>)
    requires forall i | 0 <= i < |blanks| :: IsBlank(blanks[i])
    requires d != [] && IsDigit(d[0])
    ensures KibValue(tag + blanks + d + rest, tag) == Strtol(d + rest)
  {
    var t := d + rest;
    var line := tag + (blanks + t);
    assert tag + blanks + d + rest == line;
    assert line[..|tag|] == tag;
    assert line[|tag|..] == blanks + t;
    SkipLeadingBlanks(blanks, t);
  }

  lemma {:induction false} SkipLeadingBlanks(blanks: seq<byte>, t: seq<byte>)
    requires forall i | 0 <= i < |blanks| :: IsBlank(blanks[i])
    requires t == [] || !IsBlank(t[0])
    ensures SkipBlanks(blanks + t) == t
  {
    if blanks == [] {
      assert blanks + t == t;
    } else {
      assert (blanks + t)[1..] == blanks[1..] + t;
      SkipLeadingBlanks(blanks[1..], t);
    }
  }

  /** With no sign and no digit after the blanks and the white space, the value is 0, as
      strtol gives when it reads nothing. */
  lemma KibNoDigits(line: seq<byte>, tag: seq<byte>)
    requires HasPrefix(line, tag)
    requires var t := SkipSpace(SkipBlanks(line[|tag|..]));
      t == [] || (!IsDigit(t[0]) && t[0] != DASH && t[0] != PLUS)
    ensures KibValue(line, tag) == 0
  {
  }

  // ---------------------------------------------------------------- mf_collect_mem

  const MEM_TOTAL: seq<byte> := Ascii("MemTotal:")
  const MEM_AVAILABLE: seq<byte> := Ascii("MemAvailable:")
  const MEM_FREE: seq<byte> := Ascii("MemFree:")
  const BUFFERS: seq<byte> := Ascii("Buffers:")
  const CACHED: seq<byte> := Ascii("Cached:")

  /** The five meminfo variables, each -1 until a line sets it. */
  datatype MemInfo = MemInfo(total: int, avail: int, free: int, buffers: int, cached: int)

  const UNSET: MemInfo := MemInfo(-1, -1, -1, -1, -1)

  datatype MemKind = Total | Available | Free | Buffers | Cached

  function Field(m: MemInfo, k: MemKind): int
  {
    match k
    case Total => m.total
    case Available => m.avail
    case Free => m.free
    case Buffers => m.buffers
    case Cached => m.cached
  }

  /** The labels in the order mf_collect_mem tries them, and the variable each sets. The source
      writes these tests as an if-chain, one label after another; the table lists them in the
      chain's order, so a walk over it makes the same tests in the same order. */
  const TAGS: seq<seq<byte>> := [MEM_TOTAL, MEM_AVAILABLE, MEM_FREE, BUFFERS, CACHED]
  const KINDS: seq<MemKind> := [Total, Available, Free, Buffers, Cached]

  /** Which variable a line sets and to what: the first of the labels from the i-th on whose
      value is not negative. */
  function DispatchFrom(line: seq<byte>, i: nat): (r: Option<(MemKind, int)>)
    ensures r.Some? ==> r.value.1 >= 0
    decreases 5 - i
  {
    if i >= 5 then None
    else if KibValue(line, TAGS[i]) >= 0 then Some((KINDS[i], KibValue(line, TAGS[i])))
    else DispatchFrom(line, i + 1)
  }

  function Dispatched(line: seq<byte>): Option<(MemKind, int)> { DispatchFrom(line, 0) }

  /** The chain of label tests of one line, in the order of TAGS; the first that parses to a
      value that is not negative sets its variable and ends the chain (`continue`). */
  method DispatchLine(line: seq<byte>) returns (d: Option<(MemKind, int)>)
    ensures d == Dispatched(line)
  {
    var i := 0;
    while i < |TAGS|
      invariant 0 <= i <= 5
      invariant DispatchFrom(line, i) == Dispatched(line)
    {
      var value := ParseKibValue(line, TAGS[i]);
      if value >= 0 {
        return Some((KINDS[i], value));
      }
      i := i + 1;
    }
    return None;
  }

  /** The variables after one more line. */
  function Absorb(m: MemInfo, d: Option<(MemKind, int)>): (r: MemInfo)
    ensures forall k :: Field(r, k) == if d.Some? && d.value.0 == k then d.value.1 else Field(m, k)
  {
    match d
    case None => m
    case Some((k, v)) =>
      match k
      case Total => m.(total := v)
      case Available => m.(avail := v)
      case Free => m.(free := v)
      case Buffers => m.(buffers := v)
      case Cached => m.(cached := v)
  }

  /** The variables after all the lines, each line in turn. */
  function MemScan(lines: seq<seq<byte>>): MemInfo
  {
    if lines == [] then UNSET else Absorb(MemScan(lines[..|lines| - 1]), Dispatched(lines[|lines| - 1]))
  }

  /** The line loop of mf_collect_mem, with its five locals and its `continue`s. */
  method ScanMeminfo(lines: seq<seq<byte>>) returns (m: MemInfo)
    ensures m == MemScan(lines)
  {
    var totalKib, availKib, freeKib, buffersKib, cachedKib := -1, -1, -1, -1, -1;
    var i := 0;
    while i < |lines|
      invariant 0 <= i <= |lines|
      invariant MemInfo(totalKib, availKib, freeKib, buffersKib, cachedKib) == MemScan(lines[..i])
    {
      assert lines[..i + 1][..i] == lines[..i];
      var d := DispatchLine(lines[i]);
      match d {
        case None =>
        case Some((k, value)) =>
          match k {
            case Total => totalKib := value;
            case Available => availKib := value;
            case Free => freeKib := value;
            case Buffers => buffersKib := value;
            case Cached => cachedKib := value;
          }
      }
      i := i + 1;
    }
    assert lines[..|lines|] == lines;
    m := MemInfo(totalKib, availKib, freeKib, buffersKib, cachedKib);
  }

  /** A variable holds the value of the last line that set it: later lines overwrite earlier
      ones. */
  lemma {:induction false} LastLineWins(lines: seq<seq<byte>>, k: MemKind, j: nat)
    requires j < |lines| && Dispatched(lines[j]).Some? && Dispatched(lines[j]).value.0 == k
    requires forall h | j < h < |lines| :: Dispatched(lines[h]).None? || Dispatched(lines[h]).value.0 != k
    ensures Field(MemScan(lines), k) == Dispatched(lines[j]).value.1
    decreases |lines|
  {
    var init := lines[..|lines| - 1];
    if j < |lines| - 1 {
      forall h | j < h < |init| ensures Dispatched(init[h]).None? || Dispatched(init[h]).value.0 != k {
        assert init[h] == lines[h];
      }
      LastLineWins(init, k, j);
    }
  }

  /** A variable no line sets stays -1. */
  lemma {:induction false} NeverSet(lines: seq<seq<byte>>, k: MemKind)
    requires forall h | 0 <= h < |lines| :: Dispatched(lines[h]).None? || Dispatched(lines[h]).value.0 != k
    ensures Field(MemScan(lines), k) == -1
    decreases |lines|
  {
    if lines != [] {
      var init := lines[..|lines| - 1];
      forall h | 0 <= h < |init| ensures Dispatched(init[h]).None? || Dispatched(init[h]).value.0 != k {
        assert init[h] == lines[h];
      }
      NeverSet(init, k);
    }
  }

  /** The memory line's numbers: bytes used and bytes in total (mf_format_bytes turns them
      into text). */
  datatype MemUsage = MemUsage(usedBytes: int, totalBytes: int)

  /** The available KiB mf_collect_mem settles on: MemAvailable, or else MemFree + Buffers +
      Cached when all three were seen; negative when neither is known. */
  function AvailableKib(m: MemInfo): int
  {
    if m.avail < 0 && m.free >= 0 && m.buffers >= 0 && m.cached >= 0 then m.free + m.buffers + m.cached
    else m.avail
  }

  /** mf_collect_mem's decision: -1 (None) without the file, without a positive MemTotal, or
      without an available figure; otherwise used = total - available, clamped at 0, and the
      total, both in bytes. */
  function CollectMem(file: Option<seq<seq<byte>>>): (r: Option<MemUsage>)
    ensures file.None? ==> r.None?
    ensures file.Some? ==> var m := MemScan(file.value);
      && (r.None? <==> m.total <= 0 || (m.avail < 0 && (m.free < 0 || m.buffers < 0 || m.cached < 0)))
      && (r.Some? && m.avail >= 0 ==> r.value.usedBytes == 1024 * Max(0, m.total - m.avail))
      && (r.Some? && m.avail < 0 ==> r.value.usedBytes == 1024 * Max(0, m.total - (m.free + m.buffers + m.cached)))
      && (r.Some? ==> r.value.totalBytes == 1024 * m.total && 0 <= r.value.usedBytes <= r.value.totalBytes)
  {
    if file.None? then None
    else
      var m := MemScan(file.value);
      var avail := AvailableKib(m);
      if m.total <= 0 || avail < 0 then None
      else Some(MemUsage(Max(0, m.total - avail) * 1024, m.total * 1024))
  }

  // ---------------------------------------------------------------- mf_collect_uptime

  /** An uptime split into days, hours and minutes. */
  datatype Span = Span(days: nat, hours: nat, minutes: nat)

  /** The whole minutes of a non-negative number of seconds ((long)(seconds / 60.0)). */
  function TotalMinutes(seconds: real): (tm: nat)
    requires seconds >= 0.0
    ensures tm as real <= seconds / 60.0 < tm as real + 1.0
  {
    (seconds / 60.0).Floor
  }

  /** days = tm / 1440, then hours and minutes of what is left. */
  function SplitMinutes(tm: nat): Span
  {
    var days := tm / (60 * 24);
    var rest := tm - days * 60 * 24;
    var hours := rest / 60;
    Span(days, hours, rest - hours * 60)
  }

  predicate Normal(s: Span) { s.hours < 24 && s.minutes < 60 }

  function SpanMinutes(s: Span): nat { s.days * 1440 + s.hours * 60 + s.minutes }

  /** The split is the one normal span that adds back up to tm. */
  lemma SplitMinutesExact(tm: nat)
    ensures Normal(SplitMinutes(tm)) && SpanMinutes(SplitMinutes(tm)) == tm
  {
  }

  lemma SplitMinutesUnique(tm: nat, s: Span)
    requires Normal(s) && SpanMinutes(s) == tm
    ensures s == SplitMinutes(tm)
  {
    var inner := s.hours * 60 + s.minutes;
    Grid.FlatIndex(s.hours, s.minutes, 60);
    assert inner < 1440;
    Grid.FlatIndex(s.days, inner, 1440);
  }

  const DAY_UNIT: byte := 0x64
  const HOUR_UNIT: byte := 0x68
  const MINUTE_UNIT: byte := 0x6d

  /** "%ldd %ldh %ldm" when there are days, else "%ldh %ldm" when there are hours, else
      "%ldm". */
  function UptimeText(s: Span): (t: seq<byte>)
    ensures t != [] && t[|t| - 1] == MINUTE_UNIT
  {
    var m := ToDecimal(s.minutes) + [MINUTE_UNIT];
    var hm := ToDecimal(s.hours) + [HOUR_UNIT] + ([SPACE] + m);
    if s.days > 0 then ToDecimal(s.days) + [DAY_UNIT] + ([SPACE] + hm)
    else if s.hours > 0 then hm
    else m
  }

  /** The format choice: the day part appears exactly when there are days, the hour part
      exactly when there are days or hours; the minute part always ends the text. */
  lemma UptimeTextShape(s: Span)
    ensures DAY_UNIT in UptimeText(s) <==> s.days > 0
    ensures HOUR_UNIT in UptimeText(s) <==> s.days > 0 || s.hours > 0
  {
    var dd, hd, md := ToDecimal(s.days), ToDecimal(s.hours), ToDecimal(s.minutes);
    NoUnitInDigits(dd);
    NoUnitInDigits(hd);
    NoUnitInDigits(md);
    var m := md + [MINUTE_UNIT];
    var hm := hd + [HOUR_UNIT] + ([SPACE] + m);
    assert DAY_UNIT !in m && HOUR_UNIT !in m;
    assert DAY_UNIT !in hm && HOUR_UNIT in hm;
    if s.days > 0 {
      assert UptimeText(s) == dd + [DAY_UNIT] + ([SPACE] + hm);
    }
  }

  /** Decimal digits hold no unit letter. */
  lemma NoUnitInDigits(d: seq<byte>)
    requires AllDigits(d)
    ensures DAY_UNIT !in d && HOUR_UNIT !in d && MINUTE_UNIT !in d
  {
    forall i | 0 <= i < |d|
      ensures d[i] != DAY_UNIT && d[i] != HOUR_UNIT && d[i] != MINUTE_UNIT
    {
      assert IsDigit(d[i]);
    }
  }

  /** A number followed by its unit letter, and the text after the letter. */
  function ReadUnit(t: seq<byte>, unit: byte): Option<(nat, seq<byte>)>
  {
    var d := LeadingDigits(t);
    if d != [] && |d| < |t| && t[|d|] == unit then Some((DigitsValue(d), t[|d| + 1..])) else None
  }

  /** "Nm" and nothing after it. */
  function ReadMinutes(t: seq<byte>): Option<nat>
  {
    match ReadUnit(t, MINUTE_UNIT)
    case Some((m, rest)) => if rest == [] then Some(m) else None
    case None => None
  }

  /** "Nh Mm". */
  function ReadHoursMinutes(t: seq<byte>): Option<(nat, nat)>
  {
    match ReadUnit(t, HOUR_UNIT)
    case Some((h, rest)) =>
      if rest == [] || rest[0] != SPACE then None
      else
        (match ReadMinutes(rest[1..])
         case Some(m) => Some((h, m))
         case None => None)
    case None => None
  }

  /** A reader for the three shapes of UptimeText. */
  function ReadUptime(t: seq<byte>): Option<Span>
  {
    match ReadUnit(t, DAY_UNIT)
    case Some((d, rest)) =>
      if rest == [] || rest[0] != SPACE then None
      else
        (match ReadHoursMinutes(rest[1..])
         case Some((h, m)) => Some(Span(d, h, m))
         case None => None)
    case None =>
      match ReadHoursMinutes(t)
      case Some((h, m)) => Some(Span(0, h, m))
      case None =>
        match ReadMinutes(t)
        case Some(m) => Some(Span(0, 0, m))
        case None => None
  }

  /** The number and its letter read back, and a different letter finds nothing. */
  lemma ReadUnitOfDecimal(n: nat, unit: byte, rest: seq<byte>)
    requires !IsDigit(unit)
    ensures ReadUnit(ToDecimal(n) + [unit] + rest, unit) == Some((n, rest))
    ensures forall other :: other != unit ==> ReadUnit(ToDecimal(n) + [unit] + rest, other).None?
  {
    ReadUnitOf(ToDecimal(n), unit, rest);
    DecimalRoundTrip(n);
  }

  lemma ReadUnitOf(d: seq<byte>, unit: byte, rest: seq<byte>)
    requires d != [] && AllDigits(d) && !IsDigit(unit)
    ensures ReadUnit(d + [unit] + rest, unit) == Some((DigitsValue(d), rest))
    ensures forall other :: other != unit ==> ReadUnit(d + [unit] + rest, other).None?
  {
    var t := d + ([unit] + rest);
    assert d + [unit] + rest == t;
    LeadingDigitsOfDigits(d, [unit] + rest);
    assert t[|d|] == unit;
    assert t[|d| + 1..] == rest;
  }

  lemma ReadMinutesOf(m: nat)
    ensures ReadMinutes(ToDecimal(m) + [MINUTE_UNIT]) == Some(m)
    ensures ReadUnit(ToDecimal(m) + [MINUTE_UNIT], HOUR_UNIT).None?
    ensures ReadUnit(ToDecimal(m) + [MINUTE_UNIT], DAY_UNIT).None?
  {
    ReadUnitOfDecimal(m, MINUTE_UNIT, []);
    assert ToDecimal(m) + [MINUTE_UNIT] + [] == ToDecimal(m) + [MINUTE_UNIT];
  }

  lemma ReadHoursMinutesOf(h: nat, m: nat)
    ensures var hm := ToDecimal(h) + [HOUR_UNIT] + ([SPACE] + (ToDecimal(m) + [MINUTE_UNIT]));
      ReadHoursMinutes(hm) == Some((h, m)) && ReadUnit(hm, DAY_UNIT).None?
  {
    var mt := ToDecimal(m) + [MINUTE_UNIT];
    ReadMinutesOf(m);
    ReadUnitOfDecimal(h, HOUR_UNIT, [SPACE] + mt);
    assert ([SPACE] + mt)[1..] == mt;
  }

  /** The uptime text reads back as the span it was made from. */
  lemma UptimeTextRoundTrip(s: Span)
    ensures ReadUptime(UptimeText(s)) == Some(s)
  {
    if s.days > 0 {
      DaysTextRoundTrip(s);
    } else if s.hours > 0 {
      HoursTextRoundTrip(s);
    } else {
      ReadMinutesOf(s.minutes);
    }
  }

  lemma DaysTextRoundTrip(s: Span)
    requires s.days > 0
    ensures ReadUptime(UptimeText(s)) == Some(s)
  {
    var hm := ToDecimal(s.hours) + [HOUR_UNIT] + ([SPACE] + (ToDecimal(s.minutes) + [MINUTE_UNIT]));
    var t := ToDecimal(s.days) + [DAY_UNIT] + ([SPACE] + hm);
    assert UptimeText(s) == t;
    ReadHoursMinutesOf(s.hours, s.minutes);
    ReadUnitOfDecimal(s.days, DAY_UNIT, [SPACE] + hm);
    ReadDays(t, s.days, hm, s.hours, s.minutes);
  }

  lemma ReadDays(t: seq<byte>, d: nat, hm: seq<byte>, h: nat, m: nat)
    requires ReadUnit(t, DAY_UNIT) == Some((d, [SPACE] + hm))
    requires ReadHoursMinutes(hm) == Some((h, m))
    ensures ReadUptime(t) == Some(Span(d, h, m))
  {
    assert ([SPACE] + hm)[1..] == hm;
  }

  lemma HoursTextRoundTrip(s: Span)
    requires s.days == 0 && s.hours > 0
    ensures ReadUptime(UptimeText(s)) == Some(s)
  {
    ReadHoursMinutesOf(s.hours, s.minutes);
  }

  /** mf_collect_uptime: -1 (None) when the file gives no number (`seconds` None) or a
      negative one; otherwise the text of the whole minutes split into days, hours and
      minutes. */
  function CollectUptime(seconds: Option<real>): (r: Option<seq<byte>>)
    ensures r.Some? <==> seconds.Some? && seconds.value >= 0.0
    ensures r.Some? ==> r.value == UptimeText(SplitMinutes(TotalMinutes(seconds.value)))
    ensures r.Some? ==> ReadUptime(r.value) == Some(SplitMinutes(TotalMinutes(seconds.value)))
  {
    if seconds.None? || seconds.value < 0.0 then None
    else
      var s := SplitMinutes(TotalMinutes(seconds.value));
      UptimeTextRoundTrip(s);
      Some(UptimeText(s))
  }
}
