/**
  The proportional 8x16 font of `src/font8x16p.h`: 95 glyphs for the
  codes 32 (space) to 126 (tilde), two pages high, each glyph stored as
  its top-page columns followed by its bottom-page columns.

  The pixel bytes are not part of this model; what is modelled is the
  shape of the tables that locate a glyph: the width table, the table of
  widths summed over blocks of sixteen glyphs, the length of the bitmap
  and the descriptor that ties them together.
*/
module Font8x16p {
  import opened Bytes
  import opened Common

  // Tiny4kOLED_font8x16_widths, one constant per line of sixteen glyphs

  const WidthsRow0: seq<u8> := [7, 2, 6, 7, 5, 7, 8, 3, 4, 4, 7, 7, 3, 6, 2, 7]  //   ! " # $ % & ' ( ) * + , - . /
  const WidthsRow1: seq<u8> := [6, 5, 6, 6, 6, 6, 6, 6, 6, 6, 2, 2, 6, 7, 6, 6]  // 0 1 2 3 4 5 6 7 8 9 : ; < = > ?
  const WidthsRow2: seq<u8> := [7, 8, 7, 7, 7, 7, 7, 7, 8, 5, 7, 7, 7, 7, 8, 7]  // @ A B C D E F G H I J K L M N O
  const WidthsRow3: seq<u8> := [7, 7, 8, 6, 7, 8, 8, 7, 8, 7, 7, 4, 6, 6, 5, 8]  // P Q R S T U V W X Y Z [ \ ] ^ _
  const WidthsRow4: seq<u8> := [3, 7, 7, 6, 7, 6, 7, 6, 8, 5, 5, 7, 5, 8, 8, 6]  // ` a b c d e f g h i j k l m n o
  const WidthsRow5: seq<u8> := [7, 7, 7, 6, 5, 8, 8, 8, 6, 8, 6, 4, 1, 4, 7]  // p q r s t u v w x y z { | } ~

  /** The width of each glyph, from code 32 to code 126. */
  const Widths: seq<u8> :=
    WidthsRow0 + (WidthsRow1 + (WidthsRow2 + (WidthsRow3 + (WidthsRow4 + WidthsRow5))))

  /** `Tiny4kOLED_font8x16_widths_16s`, written as the header writes it. */
  const Widths16s: seq<u16> := [
    7+2+6+7+5+7+8+3+4+4+7+7+3+6+2+7,
    6+5+6+6+6+6+6+6+6+6+2+2+6+7+6+6,
    7+8+7+7+7+7+7+7+8+5+7+7+7+7+8+7,
    7+7+8+6+7+8+8+7+8+7+7+4+6+6+5+8,
    3+7+7+6+7+6+7+6+8+5+5+7+5+8+8+6,
    7+7+7+6+5+8+8+8+6+8+6+4+1+4+7
  ]

  /** The number of bytes in `Tiny4kOLED_font8x16`, counted line by line:
      every glyph has one line of top-page bytes and one of bottom-page
      bytes, each as long as the glyph's width. */
  const BitmapLength: nat := 1176

  /** `Tiny4kOLEDfont8x16`: proportional (width 0), two pages high, codes
      32 to 126, one blank column between glyphs. The pixel bytes are a
      parameter. */
  function Descriptor(bitmap: seq<byte>): (f: DCFont)
    requires |bitmap| == BitmapLength
    ensures f.Proportional() && f.height == 2 && f.spacing == 1
  {
    DCFont(bitmap, 0, 2, 32, 126, Widths16s, Widths, 1)
  }

  /** Where the glyph of entry `i` of width table `ws` starts: two bytes
      (one per page) for every column of the glyphs before it. */
  function DataOffset(ws: seq<u8>, i: nat): nat
    requires i <= |ws|
  {
    SumToNonNegative(ws, i);
    2 * SumTo(ws, i)
  }

  /** Entry `i` as stored: its top-page columns, then its bottom-page
      columns. */
  function Glyph(bitmap: seq<byte>, ws: seq<u8>, i: nat): (g: seq<byte>)
    requires |bitmap| == 2 * SumTo(ws, |ws|) && i < |ws|
    ensures |g| == 2 * (ws[i] as int)
  {
    SumToMonotone(ws, i + 1, |ws|);
    var start := DataOffset(ws, i);
    var top := bitmap[start .. start + ws[i]];
    var bottom := bitmap[start + ws[i] .. start + 2 * (ws[i] as int)];
    top + bottom
  }

  /** The glyphs from entry `i` on, back to back. */
  function GlyphsFrom(bitmap: seq<byte>, ws: seq<u8>, i: nat): seq<byte>
    requires |bitmap| == 2 * SumTo(ws, |ws|) && i <= |ws|
    decreases |ws| - i
  {
    if i == |ws| then [] else Glyph(bitmap, ws, i) + GlyphsFrom(bitmap, ws, i + 1)
  }

  /** The glyphs tile the bitmap: each starts where the one before ends,
      the first at byte 0, and the last ends at the end of the bitmap. */
  lemma {:induction false} GlyphsTileBitmap(bitmap: seq<byte>, ws: seq<u8>, i: nat)
    requires |bitmap| == 2 * SumTo(ws, |ws|) && i <= |ws|
    ensures DataOffset(ws, i) <= |bitmap|
    ensures GlyphsFrom(bitmap, ws, i) == bitmap[DataOffset(ws, i)..]
    decreases |ws| - i
  {
    SumToMonotone(ws, i, |ws|);
    if i < |ws| {
      GlyphsTileBitmap(bitmap, ws, i + 1);
      GlyphsTileStep(bitmap, ws, i);
    }
  }

  /** The step of `GlyphsTileBitmap`: entry `i` fills the bytes up to where
      entry `i + 1` starts. */
  lemma GlyphsTileStep(bitmap: seq<byte>, ws: seq<u8>, i: nat)
    requires |bitmap| == 2 * SumTo(ws, |ws|) && i < |ws|
    requires DataOffset(ws, i + 1) <= |bitmap|
    requires GlyphsFrom(bitmap, ws, i + 1) == bitmap[DataOffset(ws, i + 1)..]
    ensures GlyphsFrom(bitmap, ws, i) == bitmap[DataOffset(ws, i)..]
  {
    var start := DataOffset(ws, i);
    assert DataOffset(ws, i + 1) == start + 2 * (ws[i] as int);
    SplitAt(bitmap, start, start + ws[i], DataOffset(ws, i + 1));
  }

  /** The whole bitmap of the font is its glyphs in code order, each
      `2 * width` bytes, the glyph of code 32 first at offset 0. */
  lemma FontGlyphs(bitmap: seq<byte>)
    requires |bitmap| == BitmapLength
    ensures |bitmap| == 2 * SumTo(Widths, |Widths|)
    ensures DataOffset(Widths, 0) == 0 && DataOffset(Widths, 1) == 14 && DataOffset(Widths, 2) == 18
    ensures GlyphsFrom(bitmap, Widths, 0) == bitmap
  {
    WidthsShape();
    FirstGlyphs();
    GlyphsTileBitmap(bitmap, Widths, 0);
  }

  /** The two-level lookup through `widths16s` finds each glyph of this
      font where the width table puts it. */
  method GlyphStart(bitmap: seq<byte>, c: byte) returns (offset: int)
    requires |bitmap| == BitmapLength && 32 <= c <= 126
    ensures offset == DataOffset(Widths, c as int - 32)
    ensures offset + 2 * (Widths[c as int - 32] as int) <= |bitmap|
  {
    DescriptorTables(bitmap);
    offset := CharacterDataOffset(Descriptor(bitmap), c);
    WidthsShape();
    SumToMonotone(Widths, c as int - 32 + 1, |Widths|);
  }

  /** The widths of space and of the exclamation mark. */
  lemma FirstGlyphs()
    ensures |Widths| == 95 && SumTo(Widths, 1) == 7 && SumTo(Widths, 2) == 9
  {
    var t1 := WidthsRow1 + (WidthsRow2 + (WidthsRow3 + (WidthsRow4 + WidthsRow5)));
    SumToPrefix(WidthsRow0, t1, 1);
    SumToPrefix(WidthsRow0, t1, 2);
    WidthsShape();
  }

  /** Every glyph is one to eight columns wide; the vertical bar (code
      124) is the narrowest, one column. */
  lemma WidthBounds()
    ensures |Widths| == 95
    ensures forall i :: 0 <= i < |Widths| ==> 1 <= Widths[i] <= 8
    ensures Widths[124 - 32] == 1
  {
    RowBounds();
    var t5 := WidthsRow5;
    var t4 := WidthsRow4 + t5;
    var t3 := WidthsRow3 + t4;
    var t2 := WidthsRow2 + t3;
    var t1 := WidthsRow1 + t2;
    BetweenAppend(WidthsRow4, t5);
    BetweenAppend(WidthsRow3, t4);
    BetweenAppend(WidthsRow2, t3);
    BetweenAppend(WidthsRow1, t2);
    BetweenAppend(WidthsRow0, t1);
    assert Widths[92] == t1[76] == t2[60] == t3[44] == t4[28] == t5[12];
  }

  predicate Between(ws: seq<u8>, lo: int, hi: int)
  {
    forall i :: 0 <= i < |ws| ==> lo <= ws[i] <= hi
  }

  lemma BetweenAppend(a: seq<u8>, b: seq<u8>)
    requires Between(a, 1, 8) && Between(b, 1, 8)
    ensures Between(a + b, 1, 8)
  {
    forall i | 0 <= i < |a + b|
      ensures 1 <= (a + b)[i] <= 8
    {
      if i >= |a| {
        assert (a + b)[i] == b[i - |a|];
      }
    }
  }

  lemma RowBounds()
    ensures Between(WidthsRow0, 1, 8) && Between(WidthsRow1, 1, 8) && Between(WidthsRow2, 1, 8)
    ensures Between(WidthsRow3, 1, 8) && Between(WidthsRow4, 1, 8) && Between(WidthsRow5, 1, 8)
  {
  }

  lemma SplitAt(s: seq<byte>, a: nat, b: nat, c: nat)
    requires a <= b <= c <= |s|
    ensures s[a..] == s[a..b] + s[b..c] + s[c..]
  {
  }

  /** The tables agree with each other and with the descriptor: one width
      per code from first to last, each block entry the sum of its sixteen
      widths (fifteen in the last block), and a bitmap of height times the
      total width bytes. */
  lemma DescriptorTables(bitmap: seq<byte>)
    requires |bitmap| == BitmapLength
    ensures var f := Descriptor(bitmap);
      && f.WidthTables()
      && |f.widths| == 95
      && |bitmap| == f.height as int * SumTo(f.widths, |f.widths|)
      && (forall c: byte :: f.Covers(c) <==> 32 <= c <= 126)
  {
    WidthsShape();
    BlockSums();
  }

  /** Entries of `widths16s`, each against its block of `widths`. */
  lemma BlockSums()
    ensures |Widths| == 95 && |Widths16s| == 6
    ensures forall b :: 0 <= b < 6 ==>
      Widths16s[b] == SumTo(Widths, Min(16 * b + 16, 95)) - SumTo(Widths, 16 * b)
  {
    WidthsShape();
    assert Widths16s == [85, 88, 113, 109, 101, 92];
    forall b | 0 <= b < 6
      ensures Widths16s[b] == SumTo(Widths, Min(16 * b + 16, 95)) - SumTo(Widths, 16 * b)
    {
      assert b == 0 || b == 1 || b == 2 || b == 3 || b == 4 || b == 5;
    }
  }

  /** The sums of the width table at every block boundary. */
  lemma WidthsShape()
    ensures |Widths| == 95
    ensures SumTo(Widths, 0) == 0 && SumTo(Widths, 16) == 85 && SumTo(Widths, 32) == 173
    ensures SumTo(Widths, 48) == 286 && SumTo(Widths, 64) == 395 && SumTo(Widths, 80) == 496
    ensures SumTo(Widths, 95) == 588
    ensures 2 * SumTo(Widths, 95) == BitmapLength
  {
    Row0Sum(); Row1Sum(); Row2Sum(); Row3Sum(); Row4Sum(); Row5Sum();
    var t5 := WidthsRow5;
    var t4 := WidthsRow4 + t5;
    var t3 := WidthsRow3 + t4;
    var t2 := WidthsRow2 + t3;
    var t1 := WidthsRow1 + t2;
    SumToAppend(WidthsRow4, t5, 0);
    SumToAppend(WidthsRow4, t5, 15);
    SumToAppend(WidthsRow3, t4, 0);
    SumToAppend(WidthsRow3, t4, 16);
    SumToAppend(WidthsRow3, t4, 31);
    SumToAppend(WidthsRow2, t3, 0);
    SumToAppend(WidthsRow2, t3, 16);
    SumToAppend(WidthsRow2, t3, 32);
    SumToAppend(WidthsRow2, t3, 47);
    SumToAppend(WidthsRow1, t2, 0);
    SumToAppend(WidthsRow1, t2, 16);
    SumToAppend(WidthsRow1, t2, 32);
    SumToAppend(WidthsRow1, t2, 48);
    SumToAppend(WidthsRow1, t2, 63);
    SumToAppend(WidthsRow0, t1, 0);
    SumToAppend(WidthsRow0, t1, 16);
    SumToAppend(WidthsRow0, t1, 32);
    SumToAppend(WidthsRow0, t1, 48);
    SumToAppend(WidthsRow0, t1, 64);
    SumToAppend(WidthsRow0, t1, 79);
  }

  lemma Row0Sum()
    ensures |WidthsRow0| == 16 && SumTo(WidthsRow0, 16) == 85
  {
    assert SumTo(WidthsRow0, 1) == 7;
    assert SumTo(WidthsRow0, 2) == 9;
    assert SumTo(WidthsRow0, 3) == 15;
    assert SumTo(WidthsRow0, 4) == 22;
    assert SumTo(WidthsRow0, 5) == 27;
    assert SumTo(WidthsRow0, 6) == 34;
    assert SumTo(WidthsRow0, 7) == 42;
    assert SumTo(WidthsRow0, 8) == 45;
    assert SumTo(WidthsRow0, 9) == 49;
    assert SumTo(WidthsRow0, 10) == 53;
    assert SumTo(WidthsRow0, 11) == 60;
    assert SumTo(WidthsRow0, 12) == 67;
    assert SumTo(WidthsRow0, 13) == 70;
    assert SumTo(WidthsRow0, 14) == 76;
    assert SumTo(WidthsRow0, 15) == 78;
  }

  lemma Row1Sum()
    ensures |WidthsRow1| == 16 && SumTo(WidthsRow1, 16) == 88
  {
    assert SumTo(WidthsRow1, 1) == 6;
    assert SumTo(WidthsRow1, 2) == 11;
    assert SumTo(WidthsRow1, 3) == 17;
    assert SumTo(WidthsRow1, 4) == 23;
    assert SumTo(WidthsRow1, 5) == 29;
    assert SumTo(WidthsRow1, 6) == 35;
    assert SumTo(WidthsRow1, 7) == 41;
    assert SumTo(WidthsRow1, 8) == 47;
    assert SumTo(WidthsRow1, 9) == 53;
    assert SumTo(WidthsRow1, 10) == 59;
    assert SumTo(WidthsRow1, 11) == 61;
    assert SumTo(WidthsRow1, 12) == 63;
    assert SumTo(WidthsRow1, 13) == 69;
    assert SumTo(WidthsRow1, 14) == 76;
    assert SumTo(WidthsRow1, 15) == 82;
  }

  lemma Row2Sum()
    ensures |WidthsRow2| == 16 && SumTo(WidthsRow2, 16) == 113
  {
    assert SumTo(WidthsRow2, 1) == 7;
    assert SumTo(WidthsRow2, 2) == 15;
    assert SumTo(WidthsRow2, 3) == 22;
    assert SumTo(WidthsRow2, 4) == 29;
    assert SumTo(WidthsRow2, 5) == 36;
    assert SumTo(WidthsRow2, 6) == 43;
    assert SumTo(WidthsRow2, 7) == 50;
    assert SumTo(WidthsRow2, 8) == 57;
    assert SumTo(WidthsRow2, 9) == 65;
    assert SumTo(WidthsRow2, 10) == 70;
    assert SumTo(WidthsRow2, 11) == 77;
    assert SumTo(WidthsRow2, 12) == 84;
    assert SumTo(WidthsRow2, 13) == 91;
    assert SumTo(WidthsRow2, 14) == 98;
    assert SumTo(WidthsRow2, 15) == 106;
  }

  lemma Row3Sum()
    ensures |WidthsRow3| == 16 && SumTo(WidthsRow3, 16) == 109
  {
    assert SumTo(WidthsRow3, 1) == 7;
    assert SumTo(WidthsRow3, 2) == 14;
    assert SumTo(WidthsRow3, 3) == 22;
    assert SumTo(WidthsRow3, 4) == 28;
    assert SumTo(WidthsRow3, 5) == 35;
    assert SumTo(WidthsRow3, 6) == 43;
    assert SumTo(WidthsRow3, 7) == 51;
    assert SumTo(WidthsRow3, 8) == 58;
    assert SumTo(WidthsRow3, 9) == 66;
    assert SumTo(WidthsRow3, 10) == 73;
    assert SumTo(WidthsRow3, 11) == 80;
    assert SumTo(WidthsRow3, 12) == 84;
    assert SumTo(WidthsRow3, 13) == 90;
    assert SumTo(WidthsRow3, 14) == 96;
    assert SumTo(WidthsRow3, 15) == 101;
  }

  lemma Row4Sum()
    ensures |WidthsRow4| == 16 && SumTo(WidthsRow4, 16) == 101
  {
    assert SumTo(WidthsRow4, 1) == 3;
    assert SumTo(WidthsRow4, 2) == 10;
    assert SumTo(WidthsRow4, 3) == 17;
    assert SumTo(WidthsRow4, 4) == 23;
    assert SumTo(WidthsRow4, 5) == 30;
    assert SumTo(WidthsRow4, 6) == 36;
    assert SumTo(WidthsRow4, 7) == 43;
    assert SumTo(WidthsRow4, 8) == 49;
    assert SumTo(WidthsRow4, 9) == 57;
    assert SumTo(WidthsRow4, 10) == 62;
    assert SumTo(WidthsRow4, 11) == 67;
    assert SumTo(WidthsRow4, 12) == 74;
    assert SumTo(WidthsRow4, 13) == 79;
    assert SumTo(WidthsRow4, 14) == 87;
    assert SumTo(WidthsRow4, 15) == 95;
  }

  lemma Row5Sum()
    ensures |WidthsRow5| == 15 && SumTo(WidthsRow5, 15) == 92
  {
    assert SumTo(WidthsRow5, 1) == 7;
    assert SumTo(WidthsRow5, 2) == 14;
    assert SumTo(WidthsRow5, 3) == 21;
    assert SumTo(WidthsRow5, 4) == 27;
    assert SumTo(WidthsRow5, 5) == 32;
    assert SumTo(WidthsRow5, 6) == 40;
    assert SumTo(WidthsRow5, 7) == 48;
    assert SumTo(WidthsRow5, 8) == 56;
    assert SumTo(WidthsRow5, 9) == 62;
    assert SumTo(WidthsRow5, 10) == 70;
    assert SumTo(WidthsRow5, 11) == 76;
    assert SumTo(WidthsRow5, 12) == 80;
    assert SumTo(WidthsRow5, 13) == 81;
    assert SumTo(WidthsRow5, 14) == 85;
  }
}
