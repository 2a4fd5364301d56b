/** src/hidden.c, the leaves of the compositor: a cell of the frame grid and its two setters,
    the lead-byte classifier used when glyphs are copied into cells, and the 256-entry
    gradient table that maps a noise intensity to a ramp character. */
module HiddenCell {
  import opened CBytes

  /** The four glyph bytes a cell stores (struct mf_hidden_cell.bytes). */
  type Quad = s: seq<byte> | |s| == 4 witness [0, 0, 0, 0]

  /** A cell's byte count. It is an unsigned char in C; the setters only ever store 1 to 4,
      and no cell is read before ensure_buffers has set it. */
  type CellLen = n: int | 0 <= n <= 4

  datatype Cell = Cell(len: CellLen, bytes: Quad)

  /** What malloc hands out before the first fill. */
  const Uninit: Cell := Cell(0, [0, 0, 0, 0])

  /** The bytes the cell puts on the terminal (fwrite(bytes, 1, len)). */
  function Glyph(c: Cell): seq<byte> { c.bytes[..c.len] }

  /** A cell as the setters leave it: never empty. */
  predicate Filled(c: Cell) { c.len >= 1 }

  /** The diff renderer's test: equal length and memcmp of the first len bytes. */
  predicate Same(a: Cell, b: Cell) { a.len == b.len && a.bytes[..a.len] == b.bytes[..a.len] }

  /** Two cells are the same exactly when they show the same glyph. */
  lemma SameIsSameGlyph(a: Cell, b: Cell)
    ensures Same(a, b) <==> Glyph(a) == Glyph(b)
  {
    if Glyph(a) == Glyph(b) {
      assert |Glyph(a)| == a.len && |Glyph(b)| == b.len;
    }
  }

  /** mf_hidden_cell_set_char: a one-byte glyph; the other three bytes stay as they were. */
  function SetChar(cell: Cell, c: byte): (r: Cell)
    ensures Filled(r) && Glyph(r) == [c]
    ensures r.bytes[1..] == cell.bytes[1..]
  {
    Cell(1, [c] + cell.bytes[1..])
  }

  /** mf_hidden_cell_set_utf8: copies min(len, 4) bytes of `src` into the cell, or stores a
      space when len is 0. */
  function SetUtf8(cell: Cell, src: seq<byte>, len: nat): (r: Cell)
    requires Min(len, 4) <= |src|
    ensures Filled(r)
    ensures len == 0 ==> r == SetChar(cell, SPACE)
    ensures len > 0 ==> Glyph(r) == src[..Min(len, 4)] && r.bytes[r.len..] == cell.bytes[r.len..]
  {
    if len == 0 then SetChar(cell, SPACE)
    else
      var n := Min(len, 4);
      Cell(n, src[..n] + cell.bytes[n..])
  }

  /** mf_hidden_utf8_glyph_len, on the byte its pointer designates. */
  function GlyphLen(c: byte): (n: nat)
  {
    if c == 0 then 0
    else if c & 0x80 == 0 then 1
    else if c & 0xE0 == 0xC0 then 2
    else if c & 0xF0 == 0xE0 then 3
    else if c & 0xF8 == 0xF0 then 4
    else 1
  }

  /** 0 for NUL, 1 for ASCII, 2, 3 or 4 for the lead bytes of longer sequences, and 1 for a
      stray continuation byte or an invalid lead byte. */
  lemma GlyphLenClasses(c: byte)
    ensures GlyphLen(c) <= 4
    ensures GlyphLen(c) == 0 <==> c == 0
    ensures 0x01 <= c <= 0x7F ==> GlyphLen(c) == 1
    ensures 0xC0 <= c <= 0xDF ==> GlyphLen(c) == 2
    ensures 0xE0 <= c <= 0xEF ==> GlyphLen(c) == 3
    ensures 0xF0 <= c <= 0xF7 ==> GlyphLen(c) == 4
    ensures (0x80 <= c <= 0xBF || 0xF8 <= c) ==> GlyphLen(c) == 1
  {
  }

  /** MF_HIDDEN_GRADIENT, the configured ramp, and the fallback used when it is too short. */
  const HIDDEN_GRADIENT: seq<byte> := Ascii(" .+100")
  const FALLBACK_GRADIENT: seq<byte> := Ascii(" .-+#@")

  /** The ramp the table is built from. */
  function Ramp(gradient: seq<byte>): (r: seq<byte>)
    ensures |r| >= 2
    ensures |gradient| >= 2 ==> r == gradient
    ensures |gradient| < 2 ==> r == FALLBACK_GRADIENT
  {
    if |gradient| < 2 then FALLBACK_GRADIENT else gradient
  }

  /** (size_t)(i / 255.0 * (len - 1) + 0.5), capped at len - 1, in exact integer arithmetic. */
  function RampIndex(i: nat, len: nat): nat
    requires len >= 1
  {
    Min((2 * i * (len - 1) + 255) / 510, len - 1)
  }

  /** The integer formula is exactly the rounding of i / 255 * (len - 1). */
  lemma RampIndexIsRounding(i: nat, len: nat)
    requires len >= 1
    ensures ((i as real / 255.0) * ((len - 1) as real) + 0.5).Floor >= 0
    ensures RampIndex(i, len) == Min(((i as real / 255.0) * ((len - 1) as real) + 0.5).Floor, len - 1)
  {
    var m := 2 * i * (len - 1) + 255;
    var q := m / 510;
    var x := (i as real / 255.0) * ((len - 1) as real) + 0.5;
    assert x == m as real / 510.0;
    assert m == 510 * q + m % 510;
    assert x == q as real + (m % 510) as real / 510.0;
    assert q as real <= x < q as real + 1.0;
  }

  /** The rounded value is never at a tie (its numerator is odd), so the double computation of
      the source rounds the same way, and for i <= 255 the cap never applies. */
  lemma RampIndexNoTie(i: nat, len: nat)
    requires len >= 1 && i <= 255
    ensures (2 * i * (len - 1) + 255) % 2 == 1
    ensures (2 * i * (len - 1) + 255) / 510 <= len - 1
  {
    var a := i * (len - 1);
    assert 2 * i * (len - 1) + 255 == 2 * a + 255;
    assert a <= 255 * (len - 1) by {
      assert i * (len - 1) <= 255 * (len - 1);
    }
    assert 2 * a + 255 < 510 * (len - 1) + 510;
  }

  /** lut[0] is the first ramp character, lut[255] the last, and the ramp index grows with i
      and stays below the ramp's length. */
  lemma RampIndexMonotone(i: nat, j: nat, len: nat)
    requires len >= 1 && i <= j
    ensures RampIndex(i, len) <= RampIndex(j, len) < len
    ensures RampIndex(0, len) == 0 && RampIndex(255, len) == len - 1
  {
    assert 2 * i * (len - 1) <= 2 * j * (len - 1) by {
      assert i * (len - 1) <= j * (len - 1);
    }
    Div510Monotone(2 * i * (len - 1) + 255, 2 * j * (len - 1) + 255);
    assert (2 * 255 * (len - 1) + 255) / 510 == len - 1 by {
      assert 2 * 255 * (len - 1) + 255 == 510 * (len - 1) + 255;
    }
  }

  lemma Div510Monotone(a: nat, b: nat)
    requires a <= b
    ensures a / 510 <= b / 510
  {
  }

  /** mf_hidden_build_gradient(lut): fills the 256 entries from the ramp. */
  method BuildGradient(lut: array<byte>, gradient: seq<byte>)
    requires lut.Length == 256
    modifies lut
    ensures forall i | 0 <= i < 256 :: lut[i] == Ramp(gradient)[RampIndex(i, |Ramp(gradient)|)]
  {
    var ramp := gradient;
    var len := |ramp|;
    if len < 2 {
      ramp := FALLBACK_GRADIENT;
      len := |ramp|;
    }
    var i := 0;
    while i < 256
      invariant 0 <= i <= 256
      invariant forall k | 0 <= k < i :: lut[k] == ramp[RampIndex(k, len)]
    {
      var idx := (2 * i * (len - 1) + 255) / 510;
      if idx >= len {
        idx := len - 1;
      }
      lut[i] := ramp[idx];
      i := i + 1;
    }
  }

  /** The table built from the configured ramp: entry 0 is ' ' and entry 255 is '0'. */
  lemma ConfiguredGradientEnds()
    ensures |HIDDEN_GRADIENT| == 6
    ensures Ramp(HIDDEN_GRADIENT) == HIDDEN_GRADIENT
    ensures HIDDEN_GRADIENT[RampIndex(0, 6)] == SPACE
    ensures HIDDEN_GRADIENT[RampIndex(255, 6)] == 0x30
  {
    RampIndexMonotone(0, 255, 6);
  }
}
