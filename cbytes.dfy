/** Byte strings as the C code sees them: bytes, NUL-terminated buffers,
    prefixes, and the C-locale character classes of <ctype.h>. */
module CBytes {

  type byte = bv8

  datatype Option<T> = None | Some(value: T)

  const NUL: byte := 0x00
  const TAB: byte := 0x09
  const LF: byte := 0x0A
  const CR: byte := 0x0D
  const SPACE: byte := 0x20
  const DQUOTE: byte := 0x22
  const SQUOTE: byte := 0x27
  const PLUS: byte := 0x2B
  const DASH: byte := 0x2D
  const DOT: byte := 0x2E
  const SLASH: byte := 0x2F
  const COLON: byte := 0x3A
  const SEMICOLON: byte := 0x3B
  const EQUALS: byte := 0x3D
  const UNDERSCORE: byte := 0x5F
  const ESC: byte := 0x1B

  function Min(a: int, b: int): int { if a <= b then a else b }
  function Max(a: int, b: int): int { if a >= b then a else b }

  /** The bytes of an ASCII string literal. */
  function Ascii(s: string): (r: seq<byte>)
    requires forall i | 0 <= i < |s| :: s[i] < 128 as char
    ensures |r| == |s|
  {
    seq(|s|, i requires 0 <= i < |s| => s[i] as bv8)
  }

  /** A C string's contents: the bytes before its terminator, none of them NUL. */
  predicate IsText(s: seq<byte>) { NUL !in s }

  /** strlen of a NUL-terminated buffer: the index of its first NUL. */
  function StrLen(s: seq<byte>): (n: nat)
    requires NUL in s
    ensures n < |s| && s[n] == NUL && IsText(s[..n])
  {
    if s[0] == NUL then 0
    else
      assert NUL in s[1..] by {
        var k :| 0 <= k < |s| && s[k] == NUL;
        assert s[1..][k - 1] == NUL;
      }
      var n := 1 + StrLen(s[1..]);
      assert s[..n] == [s[0]] + s[1..][..n - 1];
      n
  }

  /** The string a terminated buffer holds. */
  function Str(s: seq<byte>): (r: seq<byte>)
    requires NUL in s
    ensures IsText(r) && |r| < |s| && r == s[..|r|] && s[|r|] == NUL
  {
    s[..StrLen(s)]
  }

  /** A buffer whose first NUL follows the bytes of `t` holds the string `t`. */
  lemma StrOfTerminated(s: seq<byte>, t: seq<byte>)
    requires IsText(t) && |t| < |s| && s[..|t|] == t && s[|t|] == NUL
    ensures NUL in s && Str(s) == t
  {
  }

  /** `a` is `s0` with NULs written over the positions [lo, hi). */
  predicate Wiped(a: seq<byte>, s0: seq<byte>, lo: int, hi: int)
  {
    |a| == |s0| && forall i | 0 <= i < |a| :: a[i] == (if lo <= i < hi then NUL else s0[i])
  }

  /** Writing one more NUL just below the wiped range extends it downwards. */
  lemma WipedStep(a: seq<byte>, s0: seq<byte>, lo: nat, hi: int)
    requires Wiped(a, s0, lo, hi) && 0 < lo <= hi && lo <= |a|
    ensures Wiped(a[lo - 1 := NUL], s0, lo - 1, hi)
  {
  }

  /** isspace in the "C" locale: space, \t, \n, \v, \f and \r. */
  predicate IsSpace(c: byte) { c == SPACE || (0x09 <= c <= 0x0D) }

  /** isdigit. */
  predicate IsDigit(c: byte) { 0x30 <= c <= 0x39 }

  /** isalnum in the "C" locale. */
  predicate IsAlnum(c: byte) { IsDigit(c) || (0x41 <= c <= 0x5A) || (0x61 <= c <= 0x7A) }

  /** strncmp(s, p, strlen(p)) == 0 for NUL-free strings: s begins with p. */
  predicate HasPrefix(s: seq<byte>, p: seq<byte>) { |p| <= |s| && s[..|p|] == p }

  /** A run of n spaces. */
  function Spaces(n: nat): (r: seq<byte>)
    ensures |r| == n && forall i | 0 <= i < n :: r[i] == SPACE
  {
    seq(n, _ => SPACE)
  }

  /** The bytes of several strings written one after another. */
  function Concat(ss: seq<seq<byte>>): seq<byte>
  {
    if ss == [] then [] else Concat(ss[..|ss| - 1]) + ss[|ss| - 1]
  }

  lemma ConcatAppend(ss: seq<seq<byte>>, t: seq<byte>)
    ensures Concat(ss + [t]) == Concat(ss) + t
  {
    assert (ss + [t])[..|ss|] == ss;
  }

  /** strrchr(s, c): the index of the last occurrence of c in s. */
  function LastIndexOf(s: seq<byte>, c: byte): (r: Option<nat>)
    ensures r.None? <==> c !in s
    ensures r.Some? ==> r.value < |s| && s[r.value] == c && c !in s[r.value + 1..]
  {
    if s == [] then None
    else if s[|s| - 1] == c then Some(|s| - 1)
    else
      var r := LastIndexOf(s[..|s| - 1], c);
      assert s == s[..|s| - 1] + [s[|s| - 1]];
      if r.Some? then
        assert s[r.value + 1..] == s[..|s| - 1][r.value + 1..] + [s[|s| - 1]];
        r
      else r
  }

  /** strchr(s, c): the index of the first occurrence of c in s. */
  function IndexOf(s: seq<byte>, c: byte): (r: Option<nat>)
    ensures r.None? <==> c !in s
    ensures r.Some? ==> r.value < |s| && s[r.value] == c && c !in s[..r.value]
  {
    if s == [] then None
    else if s[0] == c then Some(0)
    else
      var r := IndexOf(s[1..], c);
      if r.Some? then
        assert s[..r.value + 1] == [s[0]] + s[1..][..r.value];
        Some(r.value + 1)
      else None
  }

  /** What a copy into a buffer of n + 1 bytes keeps of s (strlcpy, snprintf "%s", strncpy
      followed by a terminating NUL): its first min(|s|, n) bytes. */
  function Truncated(s: seq<byte>, n: nat): (r: seq<byte>)
    ensures |r| == Min(|s|, n) && HasPrefix(s, r)
  {
    s[..Min(|s|, n)]
  }

  /** The number of newline bytes. */
  function Newlines(s: seq<byte>): nat
  {
    if s == [] then 0 else Newlines(s[..|s| - 1]) + (if s[|s| - 1] == LF then 1 else 0)
  }

  lemma {:induction false} NewlinesAppend(a: seq<byte>, b: seq<byte>)
    ensures Newlines(a + b) == Newlines(a) + Newlines(b)
    decreases |b|
  {
    if b == [] {
      assert a + b == a;
    } else {
      assert (a + b)[..|a + b| - 1] == a + b[..|b| - 1];
      NewlinesAppend(a, b[..|b| - 1]);
    }
  }

  lemma {:induction false} NoNewlines(s: seq<byte>)
    requires LF !in s
    ensures Newlines(s) == 0
    decreases |s|
  {
    if s != [] {
      NoNewlines(s[..|s| - 1]);
    }
  }

  /** Rows of one newline each make as many lines as there are rows. */
  lemma {:induction false} ConcatLines(rows: seq<seq<byte>>)
    requires forall r | 0 <= r < |rows| :: Newlines(rows[r]) == 1
    ensures Newlines(Concat(rows)) == |rows|
    decreases |rows|
  {
    if rows != [] {
      var init := rows[..|rows| - 1];
      assert forall r | 0 <= r < |init| :: init[r] == rows[r];
      ConcatLines(init);
      NewlinesAppend(Concat(init), rows[|rows| - 1]);
    }
  }
}
