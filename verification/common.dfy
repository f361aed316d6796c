/**
  The types every driver file of `src/` shares (`Tiny4kOLED_common.h`):
  the font descriptor `DCfont`, the Unicode font references, and the
  byte view of a codepoint that the Unicode block selection works with.
*/
module Common {
  import opened Bytes

  /** A `uint8_t` table entry that is only ever added up. */
  type u8 = x: int | 0 <= x < 0x100
  /** A `uint16_t` table entry. */
  type u16 = x: int | 0 <= x < 0x1_0000

  /** `DCfont`. Arrays behind pointers are sequences (empty for a null
      pointer). `width` 0 marks a proportional font, whose glyph widths
      are in `widths` and whose widths in blocks of sixteen glyphs are in
      `widths16s`. */
  datatype DCFont = DCFont(
    bitmap: seq<byte>,
    width: byte,
    height: byte,
    first: byte,
    last: byte,
    widths16s: seq<u16>,
    widths: seq<u8>,
    spacing: byte)
  {
    /** The font has a glyph for code `c` (the low byte of a codepoint). */
    predicate Covers(c: byte)
    {
      first <= c <= last
    }

    predicate Proportional()
    {
      width == 0
    }

    /** The glyph of code `c` is entry `c - first` of the tables. */
    function Index(c: byte): (i: nat)
      requires Covers(c)
      ensures i == c as int - first as int
      ensures i <= last as int - first as int
    {
      c as int - first as int
    }

    /** The width tables of a proportional font: one width per covered
        code, and each entry of `widths16s` the sum of the widths of one
        block of sixteen glyphs (the last block may be shorter). */
    predicate WidthTables()
    {
      && first <= last
      && |widths| == last as int - first as int + 1
      && |widths16s| == (|widths| + 15) / 16
      && forall b :: 0 <= b < |widths16s| ==>
           widths16s[b] == SumTo(widths, Min(16 * b + 16, |widths|)) - SumTo(widths, 16 * b)
    }
  }

  function Min(a: int, b: int): int
  {
    if a <= b then a else b
  }

  /** The sum of the first `n` entries of a table. */
  function SumTo(ws: seq<int>, n: nat): int
    requires n <= |ws|
  {
    if n == 0 then 0 else SumTo(ws, n - 1) + ws[n - 1]
  }

  /** Summing a table made of two parts. */
  lemma {:induction false} SumToAppend(a: seq<int>, b: seq<int>, n: nat)
    requires n <= |b|
    ensures SumTo(a + b, |a| + n) == SumTo(a, |a|) + SumTo(b, n)
  {
    if n == 0 {
      SumToPrefix(a, b, |a|);
    } else {
      SumToAppend(a, b, n - 1);
      assert (a + b)[|a| + n - 1] == b[n - 1];
    }
  }

  /** Appending entries does not change the sum of a prefix. */
  lemma {:induction false} SumToPrefix(a: seq<int>, b: seq<int>, n: nat)
    requires n <= |a|
    ensures SumTo(a + b, n) == SumTo(a, n)
  {
    if n > 0 {
      SumToPrefix(a, b, n - 1);
      assert (a + b)[n - 1] == a[n - 1];
    }
  }

  /** The sum of `n` entries none of which is negative is not negative. */
  lemma {:induction false} SumToNonNegative(ws: seq<u8>, n: nat)
    requires n <= |ws|
    ensures SumTo(ws, n) >= 0
  {
    if n > 0 {
      SumToNonNegative(ws, n - 1);
    }
  }

  /** Sums of non-negative entries grow with the number of entries. */
  lemma {:induction false} SumToMonotone(ws: seq<u8>, i: nat, j: nat)
    requires i <= j <= |ws|
    ensures 0 <= SumTo(ws, i) <= SumTo(ws, j)
    decreases j
  {
    if i < j {
      SumToMonotone(ws, i, j - 1);
    } else {
      SumToNonNegative(ws, i);
    }
  }

  /** Where the glyph of `c` starts in the bitmap of a proportional font:
      whole blocks of sixteen glyphs are skipped through `widths16s`, then
      the widths of the glyphs before `c` in its own block are added; a
      glyph takes `height` bytes per column. */
  method CharacterDataOffset(f: DCFont, c: byte) returns (offset: int)
    requires f.Proportional() && f.WidthTables() && f.Covers(c)
    ensures offset == f.height as int * SumTo(f.widths, f.Index(c))
    ensures offset >= 0
  {
    var i := f.Index(c);
    var total := GlyphsBefore(f.widths, f.widths16s, i);
    SumToNonNegative(f.widths, i);
    offset := f.height as int * total;
  }

  /** The two-level sum of the widths of the first `i` glyphs. */
  method GlyphsBefore(ws: seq<u8>, bs: seq<u16>, i: nat) returns (total: int)
    requires i < |ws| && |bs| == (|ws| + 15) / 16
    requires forall b :: 0 <= b < |bs| ==> bs[b] == SumTo(ws, Min(16 * b + 16, |ws|)) - SumTo(ws, 16 * b)
    ensures total == SumTo(ws, i)
  {
    var block := i / 16;
    total := 0;
    var b := 0;
    var start := 0;
    while b < block
      invariant 0 <= b <= block && start == 16 * b
      invariant total == SumTo(ws, start)
    {
      assert b < |bs| && start + 16 <= |ws|;
      total := total + bs[b];
      b := b + 1;
      start := start + 16;
    }
    var k := start;
    while k < i
      invariant start <= k <= i
      invariant total == SumTo(ws, k)
    {
      total := total + ws[k];
      k := k + 1;
    }
  }

  /** `DCUnicodeFontRef`: the font for the codepoints of one 256-code
      block, named by the plane and by the byte above the low byte. */
  datatype DCUnicodeFontRef = DCUnicodeFontRef(plane: byte, block: byte, font: DCFont)

  /** `DCUnicodeFont`: the width of the space glyph, which need not be in
      any font, and `numFonts` block references. */
  datatype DCUnicodeFont = DCUnicodeFont(spaceWidth: byte, numFonts: byte, fonts: seq<DCUnicodeFontRef>)
  {
    predicate Valid()
    {
      |fonts| == numFonts as int
    }
  }

  /** `DCUnicodeCodepoint`: a 32-bit codepoint seen through its four
      bytes, lowest first (the byte order of the AVR and RP2040 targets). */
  datatype UnicodeParts = UnicodeParts(offset: byte, block: byte, plane: byte, unused: byte)

  /** Reading the union's byte fields after storing `codepoint`. */
  function SplitCodepoint(codepoint: bv32): (u: UnicodeParts)
    ensures u.offset as bv32 == codepoint & 0xFF
    ensures u.block as bv32 == (codepoint >> 8) & 0xFF
    ensures u.plane as bv32 == (codepoint >> 16) & 0xFF
    ensures u.unused as bv32 == codepoint >> 24
  {
    UnicodeParts(
      (codepoint & 0xFF) as byte,
      ((codepoint >> 8) & 0xFF) as byte,
      ((codepoint >> 16) & 0xFF) as byte,
      (codepoint >> 24) as byte)
  }

  /** Reading `codepoint` after storing the four byte fields. */
  function JoinCodepoint(u: UnicodeParts): bv32
  {
    (u.unused as bv32 << 24) | (u.plane as bv32 << 16) | (u.block as bv32 << 8) | u.offset as bv32
  }

  /** Both views of the union describe the same four bytes: splitting
      and joining are inverse to each other. */
  lemma CodepointRoundTrip(codepoint: bv32, u: UnicodeParts)
    ensures JoinCodepoint(SplitCodepoint(codepoint)) == codepoint
    ensures SplitCodepoint(JoinCodepoint(u)) == u
  {
  }

  /** Every Unicode codepoint is below 2^24, so its top byte is zero and
      plane, block and offset alone determine it. */
  lemma CodepointBelow24Bits(codepoint: bv32)
    requires codepoint < 0x100_0000
    ensures SplitCodepoint(codepoint).unused == 0
    ensures var u := SplitCodepoint(codepoint);
      codepoint == (u.plane as bv32 << 16) | (u.block as bv32 << 8) | u.offset as bv32
  {
  }
}
