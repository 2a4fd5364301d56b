/** src/term.c, mf_utf8_display_width: the number of glyphs in a UTF-8 string,
    walking its bytes defensively so that the walk never passes the terminator. */
module Term {
  import opened CBytes

  /** How far one step of the walk advances from byte `p` of the string `s` (whose terminator
      sits at |s|): 2, 3 or 4 for a lead byte 110xxxxx, 1110xxxx or 11110xxx when that many
      bytes remain before the terminator (following bytes are not checked to be continuation
      bytes), and 1 otherwise: ASCII, a stray continuation byte, an invalid lead byte or a
      sequence cut short by the terminator. */
  function Step(s: seq<byte>, p: nat): (n: nat)
    requires p < |s|
    ensures 1 <= n <= 4 && p + n <= |s|
    ensures s[p] < 0x80 ==> n == 1
    ensures n > 1 ==> s[p] >= 0xC0
  {
    var c := s[p];
    if c & 0x80 == 0 then 1
    else if c & 0xE0 == 0xC0 && p + 1 < |s| then 2
    else if c & 0xF0 == 0xE0 && p + 1 < |s| && p + 2 < |s| then 3
    else if c & 0xF8 == 0xF0 && p + 1 < |s| && p + 2 < |s| && p + 3 < |s| then 4
    else 1
  }

  /** The number of glyphs from byte `p` to the end. */
  function WidthFrom(s: seq<byte>, p: nat): nat
    requires p <= |s|
    decreases |s| - p
  {
    if p == |s| then 0 else 1 + WidthFrom(s, p + Step(s, p))
  }

  /** The display width of a string: the number of steps the walk takes. */
  function Width(s: seq<byte>): nat { WidthFrom(s, 0) }

  /** The glyphs from byte `p` on, one byte string per step. */
  function GlyphsFrom(s: seq<byte>, p: nat): seq<seq<byte>>
    requires p <= |s|
    decreases |s| - p
  {
    if p == |s| then [] else [s[p..p + Step(s, p)]] + GlyphsFrom(s, p + Step(s, p))
  }

  /** The glyphs of a string, in order. */
  function Glyphs(s: seq<byte>): seq<seq<byte>> { GlyphsFrom(s, 0) }

  /** Each step counts one glyph and advances at least one byte, so the width never exceeds
      the length, and a non-empty string has a non-zero width. */
  lemma {:induction false} WidthFromBounded(s: seq<byte>, p: nat)
    requires p <= |s|
    ensures WidthFrom(s, p) <= |s| - p
    ensures p < |s| ==> WidthFrom(s, p) >= 1
    decreases |s| - p
  {
    if p < |s| {
      WidthFromBounded(s, p + Step(s, p));
    }
  }

  lemma WidthBounded(s: seq<byte>)
    ensures Width(s) <= |s|
    ensures s != [] ==> Width(s) >= 1
  {
    WidthFromBounded(s, 0);
  }

  /** For pure-ASCII text the width is the byte length. */
  lemma {:induction false} WidthFromAscii(s: seq<byte>, p: nat)
    requires p <= |s|
    requires forall i | p <= i < |s| :: s[i] < 0x80
    ensures WidthFrom(s, p) == |s| - p
    decreases |s| - p
  {
    if p < |s| {
      WidthFromAscii(s, p + 1);
    }
  }

  lemma WidthAscii(s: seq<byte>)
    requires forall i | 0 <= i < |s| :: s[i] < 0x80
    ensures Width(s) == |s|
  {
    WidthFromAscii(s, 0);
  }

  /** The glyphs the walk visits are as many as the width, each is 1 to 4 bytes, and written
      one after another they give back the string. */
  lemma {:induction false} GlyphsFromCover(s: seq<byte>, p: nat)
    requires p <= |s|
    ensures |GlyphsFrom(s, p)| == WidthFrom(s, p)
    ensures Concat(GlyphsFrom(s, p)) == s[p..]
    ensures forall k | 0 <= k < |GlyphsFrom(s, p)| :: 1 <= |GlyphsFrom(s, p)[k]| <= 4
    decreases |s| - p
  {
    if p < |s| {
      var n := Step(s, p);
      GlyphsFromCover(s, p + n);
      ConcatPrepend(s[p..p + n], GlyphsFrom(s, p + n));
      assert s[p..] == s[p..p + n] + s[p + n..];
    }
  }

  lemma {:induction false} ConcatPrepend(g: seq<byte>, gs: seq<seq<byte>>)
    ensures Concat([g] + gs) == g + Concat(gs)
    decreases |gs|
  {
    if gs == [] {
      assert [g] + gs == [g];
      assert Concat([g]) == Concat([]) + g;
    } else {
      var last := gs[|gs| - 1];
      var init := gs[..|gs| - 1];
      assert [g] + gs == ([g] + init) + [last];
      ConcatAppend([g] + init, last);
      ConcatPrepend(g, init);
      assert gs == init + [last];
      ConcatAppend(init, last);
    }
  }

  lemma GlyphsCover(s: seq<byte>)
    ensures |Glyphs(s)| == Width(s)
    ensures Concat(Glyphs(s)) == s
    ensures forall k | 0 <= k < |Glyphs(s)| :: 1 <= |Glyphs(s)[k]| <= 4
  {
    GlyphsFromCover(s, 0);
  }

  /** mf_utf8_display_width(s): 0 for a null pointer; otherwise the width of the string the
      buffer holds, found by a walk that reads no byte past its terminator. */
  method DisplayWidth(s: array?<byte>) returns (width: nat)
    requires s != null ==> NUL in s[..]
    ensures s == null ==> width == 0
    ensures s != null ==> width == Width(Str(s[..])) && width <= StrLen(s[..])
  {
    if s == null {
      return 0;
    }
    ghost var t := Str(s[..]);
    width := 0;
    var p := 0;
    while s[p] != NUL
      invariant 0 <= p <= |t|
      invariant width + WidthFrom(t, p) == Width(t)
      decreases |t| - p
    {
      assert p < |t| && s[p] == t[p];
      width := width + 1;
      if s[p] & 0x80 == 0 {
        p := p + 1;
      } else if s[p] & 0xE0 == 0xC0 && s[p + 1] != NUL {
        p := p + 2;
      } else if s[p] & 0xF0 == 0xE0 && s[p + 1] != NUL && s[p + 2] != NUL {
        p := p + 3;
      } else if s[p] & 0xF8 == 0xF0 && s[p + 1] != NUL && s[p + 2] != NUL && s[p + 3] != NUL {
        p := p + 4;
      } else {
        p := p + 1;
      }
    }
    WidthBounded(t);
  }
}
