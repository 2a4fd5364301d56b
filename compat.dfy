/** src/compat.c: bounded copy, trailing-whitespace strip and quote removal,
    each rewriting a NUL-terminated buffer in place. */
module Compat {
  import opened CBytes

  /** The four bytes mf_rstrip removes: '\n', '\r', '\t' and ' '. */
  predicate IsStripped(c: byte) { c == LF || c == CR || c == TAB || c == SPACE }

  /** The longest prefix of `t` that does not end in a stripped byte. */
  function RStripText(t: seq<byte>): (r: seq<byte>)
    ensures HasPrefix(t, r)
    ensures r == [] || !IsStripped(r[|r| - 1])
    ensures forall i | |r| <= i < |t| :: IsStripped(t[i])
  {
    if t != [] && IsStripped(t[|t| - 1]) then RStripText(t[..|t| - 1]) else t
  }

  /** Stripping what is already stripped changes nothing. */
  lemma RStripIdempotent(t: seq<byte>)
    ensures RStripText(RStripText(t)) == RStripText(t)
  {
  }

  /** Stripping keeps any text that ends in a kept byte, whatever stripped bytes follow it. */
  lemma {:induction false} RStripTail(a: seq<byte>, w: seq<byte>)
    requires a == [] || !IsStripped(a[|a| - 1])
    requires forall i | 0 <= i < |w| :: IsStripped(w[i])
    ensures RStripText(a + w) == a
  {
    if w == [] {
      assert a + w == a;
    } else {
      assert (a + w)[..|a + w| - 1] == a + w[..|w| - 1];
      RStripTail(a, w[..|w| - 1]);
    }
  }

  /** mf_strlcpy(dst, src, dstsz): copies n = min(strlen(src), dstsz - 1) bytes and a NUL, and
      returns n (the truncated length, unlike BSD strlcpy). A null dst or a zero dstsz writes
      nothing; a null src leaves dst empty. */
  method Strlcpy(dst: array?<byte>, src: array?<byte>, dstsz: nat) returns (n: nat)
    requires dst != null ==> dstsz <= dst.Length
    requires src != null ==> NUL in src[..]
    requires dst != null && src != null ==> dst != src
    modifies dst
    ensures dst == null || dstsz == 0 ==> n == 0
    ensures dst != null && dstsz == 0 ==> dst[..] == old(dst[..])
    ensures dst != null && dstsz > 0 && src == null ==> n == 0 && dst[..] == old(dst[..])[0 := NUL]
    ensures dst != null && dstsz > 0 && src != null ==>
      && n == Min(StrLen(src[..]), dstsz - 1)
      && dst[..] == src[..n] + [NUL] + old(dst[..])[n + 1..]
      && Str(dst[..]) == Str(src[..])[..n]
  {
    if dst == null || dstsz == 0 {
      return 0;
    }
    if src == null {
      dst[0] := NUL;
      return 0;
    }
    var len := StrLen(src[..]);
    if len >= dstsz {
      len := dstsz - 1;
    }
    ghost var d0 := dst[..];
    CopyBytes(dst, src, len);
    ghost var d1 := dst[..];
    dst[len] := NUL;
    n := len;
    CopiedString(d0, d1, dst[..], src[..], n);
  }

  /** The buffer strlcpy leaves: the copied prefix, its NUL, then the old bytes. */
  lemma CopiedString(d0: seq<byte>, d1: seq<byte>, d2: seq<byte>, sr: seq<byte>, n: nat)
    requires NUL in sr && n <= StrLen(sr) && n < |d0|
    requires d1 == sr[..n] + d0[n..] && d2 == d1[n := NUL]
    ensures d2 == sr[..n] + [NUL] + d0[n + 1..]
    ensures NUL in d2 && Str(d2) == Str(sr)[..n]
  {
    assert d2 == sr[..n] + [NUL] + d0[n + 1..];
    StrOfTerminated(d2, sr[..n]);
  }

  /** strlcpy's copy loop: the first len bytes of src over those of dst. */
  method CopyBytes(dst: array<byte>, src: array<byte>, len: nat)
    requires len <= dst.Length && len <= src.Length && dst != src
    modifies dst
    ensures dst[..] == src[..len] + old(dst[..])[len..]
  {
    var i := 0;
    while i < len
      invariant 0 <= i <= len
      invariant dst[..i] == src[..i]
      invariant dst[i..] == old(dst[..])[i..]
    {
      dst[i] := src[i];
      i := i + 1;
    }
  }

  /** mf_rstrip(s): writes NULs over the trailing '\n', '\r', '\t' and ' ' bytes of the string;
      nothing before the new terminator and nothing after the old one changes. */
  method Rstrip(s: array?<byte>)
    requires s != null ==> NUL in s[..]
    modifies s
    ensures s != null ==> NUL in s[..] && Str(s[..]) == RStripText(Str(old(s[..])))
    ensures s != null ==> Wiped(s[..], old(s[..]), |RStripText(Str(old(s[..])))|, |Str(old(s[..]))|)
  {
    if s == null {
      return;
    }
    ghost var s0 := s[..];
    ghost var t := Str(s0);
    var len := StrLen(s[..]);
    while len > 0
      invariant 0 <= len <= |t|
      invariant forall i | len <= i < |t| :: IsStripped(t[i])
      invariant Wiped(s[..], s0, len, |t|)
    {
      var c := s[len - 1];
      assert c == t[len - 1];
      if c == LF || c == CR || c == TAB || c == SPACE {
        WipedStep(s[..], s0, len, |t|);
        s[len - 1] := NUL;
        len := len - 1;
      } else {
        break;
      }
    }
    assert len == 0 || !IsStripped(t[len - 1]);
    StrippedBuffer(s0, s[..], len);
  }

  /** The buffer Rstrip leaves: NULs over [len, strlen) of the old buffer, which held `t`. */
  lemma StrippedBuffer(s0: seq<byte>, s1: seq<byte>, len: nat)
    requires NUL in s0 && len <= |Str(s0)| && |s1| == |s0|
    requires forall i | len <= i < |Str(s0)| :: IsStripped(Str(s0)[i])
    requires len == 0 || !IsStripped(Str(s0)[len - 1])
    requires Wiped(s1, s0, len, |Str(s0)|)
    ensures NUL in s1 && Str(s1) == RStripText(Str(s0)) && |Str(s1)| == len
  {
    var t := Str(s0);
    assert s1[..len] == t[..len] by {
      forall k | 0 <= k < len ensures s1[k] == t[k] {
        assert s1[k] == s0[k];
      }
    }
    assert t[..len] + t[len..] == t;
    RStripTail(t[..len], t[len..]);
    StrOfTerminated(s1, t[..len]);
  }

  /** The pair of quotes mf_unquote removes: both '"' or both '\''. */
  predicate IsQuotePair(first: byte, last: byte)
  {
    (first == DQUOTE && last == DQUOTE) || (first == SQUOTE && last == SQUOTE)
  }

  /** The string mf_unquote leaves: the stripped text, less its first and last byte when they
      are a matching pair of quotes. */
  function UnquoteText(t: seq<byte>): (r: seq<byte>)
    ensures var u := RStripText(t);
      if |u| >= 2 && IsQuotePair(u[0], u[|u| - 1]) then |r| == |u| - 2 && r == u[1..|u| - 1] else r == u
  {
    var u := RStripText(t);
    if |u| >= 2 && IsQuotePair(u[0], u[|u| - 1]) then u[1..|u| - 1] else u
  }

  /** A quoted value loses exactly its quotes; white space inside them is kept, white space
      after the closing quote is not. */
  lemma QuotedValue(q: byte, x: seq<byte>, w: seq<byte>)
    requires q == DQUOTE || q == SQUOTE
    requires forall i | 0 <= i < |w| :: IsStripped(w[i])
    ensures UnquoteText([q] + x + [q] + w) == x
  {
    RStripTail([q] + x + [q], w);
    assert ([q] + x + [q])[1..|x| + 1] == x;
  }

  /** Mismatched quotes, or an unquoted value, leave the stripped text as it is. */
  lemma UnquotedValue(t: seq<byte>)
    requires var u := RStripText(t); |u| < 2 || !IsQuotePair(u[0], u[|u| - 1])
    ensures UnquoteText(t) == RStripText(t)
  {
  }

  /** mf_unquote's shift: the bytes between the quotes move one place left and a NUL ends them
      where the closing quote's predecessor was; the closing quote and everything after it stay. */
  method ShiftInside(s: array<byte>, len: nat, ghost u: seq<byte>)
    requires 2 <= len <= s.Length && s[..len] == u
    modifies s
    ensures s[..] == u[1..len - 1] + [NUL] + old(s[..])[len - 1..]
  {
    ghost var before := s[..];
    var i := 0;
    while i < len - 2
      invariant 0 <= i <= len - 2
      invariant forall k | 0 <= k < i :: s[k] == u[k + 1]
      invariant forall k | i <= k < s.Length :: s[k] == before[k]
    {
      s[i] := s[i + 1];
      i := i + 1;
    }
    s[len - 2] := NUL;
  }

  /** The buffer mf_unquote leaves in place of `s0`: it holds UnquoteText of the old string, the
      stripped tail is NUL, the closing quote of a quoted value is still in place, and nothing
      after the old terminator changes. */
  predicate UnquotedBuffer(s1: seq<byte>, s0: seq<byte>)
    requires NUL in s0
  {
    var t := Str(s0);
    var u := RStripText(t);
    && |s1| == |s0|
    && NUL in s1 && Str(s1) == UnquoteText(t)
    && (forall i | |u| <= i < |t| :: s1[i] == NUL)
    && (forall i | |t| <= i < |s1| :: s1[i] == s0[i])
    && (|u| >= 2 && IsQuotePair(u[0], u[|u| - 1]) ==> s1[|u| - 1] == u[|u| - 1])
  }

  /** Without a pair of quotes the stripped buffer is already the result. */
  lemma UnquotedPlain(s0: seq<byte>, s1: seq<byte>)
    requires NUL in s0
    requires var t := Str(s0); var u := RStripText(t);
      && Wiped(s1, s0, |u|, |t|) && NUL in s1 && Str(s1) == u
      && (|u| < 2 || !IsQuotePair(u[0], u[|u| - 1]))
    ensures UnquotedBuffer(s1, s0)
  {
  }

  /** With a pair of quotes the shifted buffer is the result. */
  lemma UnquotedShifted(s0: seq<byte>, s1: seq<byte>, s2: seq<byte>)
    requires NUL in s0
    requires var t := Str(s0); var u := RStripText(t);
      && Wiped(s1, s0, |u|, |t|) && |u| >= 2 && IsQuotePair(u[0], u[|u| - 1])
      && s1[..|u|] == u && s2 == u[1..|u| - 1] + [NUL] + s1[|u| - 1..]
    ensures UnquotedBuffer(s2, s0)
  {
    var t := Str(s0);
    var u := RStripText(t);
    ShiftedParts(u[1..|u| - 1], s1, |u| - 1, s2);
  }

  /** The shifted buffer: the inside, a NUL, then the old bytes from the closing quote on. */
  lemma ShiftedParts(inner: seq<byte>, s1: seq<byte>, k: nat, s2: seq<byte>)
    requires IsText(inner) && k == |inner| + 1 && k <= |s1| && s2 == inner + [NUL] + s1[k..]
    ensures NUL in s2 && Str(s2) == inner
    ensures forall i | k <= i < |s2| :: s2[i] == s1[i]
  {
    assert s2[..|inner|] == inner;
    StrOfTerminated(s2, inner);
  }

  /** mf_unquote(s): mf_rstrip, then, for a string of at least two bytes that starts and ends
      with the same quote, shifts the inside one byte left and terminates it two bytes short. */
  method Unquote(s: array?<byte>)
    requires s != null ==> NUL in s[..]
    modifies s
    ensures s != null ==> NUL in old(s[..]) && UnquotedBuffer(s[..], old(s[..]))
  {
    if s == null {
      return;
    }
    ghost var s0 := s[..];
    ghost var t := Str(s0);
    Rstrip(s);
    ghost var s1 := s[..];
    var len := StrLen(s[..]);
    ghost var u := s[..len];
    assert u == RStripText(t);
    if len >= 2 {
      var first := s[0];
      var last := s[len - 1];
      if (first == DQUOTE && last == DQUOTE) || (first == SQUOTE && last == SQUOTE) {
        ShiftInside(s, len, u);
        UnquotedShifted(s0, s1, s[..]);
        return;
      }
    }
    UnquotedPlain(s0, s1);
  }
}
