/**
  The earlier driver at the root of the repository (`Tiny4kOLED.cpp`). It
  has the shape of the current one but its own arithmetic: the selectors
  are 0 or 1 rather than opcode bases, the page of the second frame is
  found by adding 4 and wrapping modulo 8, `write` knows only two built-in
  fonts (6x8 and 8x16) with their limits written out, `fillLength` is a
  counting loop, and several command encoders pass their argument through
  unchanged.

  The pixel tables `font6x8.h` and `font8x16.h` are not part of this
  model; they are parameters (`Fonts`).
*/
module Legacy {
  import opened Bytes
  import opened Ssd1306
  import opened Common
  import InitTables
  import Commands
  import Driver

  /** `FONT6X8`; any other value of `oledFont` selects the 8x16 font. */
  const FONT6X8: byte := 0
  const FONT8X16: byte := 1

  /** `SSD1306_MAX_PAGE` and `SSD1306_MAX_PAGE_8x16`: the lowest row a line
      of the 6x8 and of the 8x16 font may start on. */
  const MAX_PAGE: byte := 3
  const MAX_PAGE_8X16: byte := 2

  /** The globals `oledFont`, `oledX`, `oledY`, `renderingFrame` and
      `drawingFrame`; the selectors are meant to hold 0 or 1. */
  datatype State = State(font: byte, x: byte, y: byte, renderingFrame: byte, drawingFrame: byte)

  /** All five globals start at zero. */
  const Initial: State := State(0, 0, 0, 0, 0)

  predicate Valid(st: State)
  {
    st.renderingFrame <= 1 && st.drawingFrame <= 1
  }

  /** The two pixel tables, laid out as consecutive glyphs from code 32:
      six bytes per glyph in `small`, sixteen (eight for the top page, then
      eight for the bottom page) in `large`. */
  datatype Fonts = Fonts(small: seq<byte>, large: seq<byte>)

  /** A state and the transmissions that led to it. */
  datatype Step = Step(st: State, frames: seq<Frame>)

  function SetFont(st: State, font: byte): (r: State)
    ensures r.font == font && r.x == st.x && r.y == st.y
    ensures r.renderingFrame == st.renderingFrame && r.drawingFrame == st.drawingFrame
  {
    st.(font := font)
  }

  // setCursor

  /** The page opcode for row `y`: B0h-B7h, four pages further on (modulo
      8) when frame 1 is being drawn. */
  function PageByte(renderingFrame: byte, y: byte): (b: byte)
    ensures 0xB0 <= b <= 0xB7
  {
    if renderingFrame == 1 then 0xB0 | ((y + 4) & 0x07) else 0xB0 | (y & 0x07)
  }

  function CursorBytes(renderingFrame: byte, x: byte, y: byte): seq<byte>
  {
    [PageByte(renderingFrame, y), ((x & 0xF0) >> 4) | 0x10, x & 0x0F]
  }

  /** `setCursor(x, y)`: one three-byte command transmission; the cursor
      becomes `(x, y)`. */
  function SetCursor(st: State, x: byte, y: byte): (r: Step)
    ensures r.st == st.(x := x, y := y)
    ensures r.frames == [Command(CursorBytes(st.renderingFrame, x, y))]
    ensures Payloads(r.frames) == []
  {
    var r := Step(st.(x := x, y := y), [Command(CursorBytes(st.renderingFrame, x, y))]);
    assert r.frames[1..] == [];
    r
  }

  /** What the controller reads from `setCursor`: the page of the row in
      the frame being drawn, then the high and the low nibble of `x`. These
      are page addressing commands: under page addressing they put the
      GDDRAM pointer at that page and at column `x`. The legacy init selects
      horizontal addressing instead, under which the datasheet gives them no
      such effect; `Pointed` states the page addressing effect only. */
  lemma CursorDecodes(renderingFrame: byte, x: byte, y: byte)
    ensures Decode(CursorBytes(renderingFrame, x, y))
         == Some([PageStart(PageByte(renderingFrame, y) & 7), HighColumn(x >> 4), LowColumn(x & 0x0F)])
    ensures forall p ::
              Pointed(p, Command(CursorBytes(renderingFrame, x, y))) == Pointer(PageByte(renderingFrame, y) & 7, x as int)
  {
    var b := CursorBytes(renderingFrame, x, y);
    CursorFields(renderingFrame, x, y);
    assert b == [b[0], b[1], b[2]];
    Driver.AddressCommands(b[0], b[1], b[2]);
    forall p
      ensures Pointed(p, Command(CursorBytes(renderingFrame, x, y))) == Pointer(PageByte(renderingFrame, y) & 7, x as int)
    {
      CursorPoints(renderingFrame, x, y, p);
    }
  }

  lemma CursorPoints(renderingFrame: byte, x: byte, y: byte, p: Pointer)
    ensures Pointed(p, Command(CursorBytes(renderingFrame, x, y))) == Pointer(PageByte(renderingFrame, y) & 7, x as int)
  {
    var b := CursorBytes(renderingFrame, x, y);
    CursorFields(renderingFrame, x, y);
    assert b == [b[0], b[1], b[2]];
    Driver.AddressDecodes(b[0], b[1], b[2]);
  }

  /** The three bytes are a page opcode and the two column nibbles. */
  lemma CursorFields(renderingFrame: byte, x: byte, y: byte)
    ensures var b := CursorBytes(renderingFrame, x, y);
      && 0xB0 <= b[0] <= 0xB7 && 0x10 <= b[1] <= 0x1F && b[2] <= 0x0F
      && b[1] & 0x0F == x >> 4
      && (b[1] & 0x0F) as int * 16 + b[2] as int == x as int
  {
    Driver.Nibbles(x);
    assert ((x & 0xF0) >> 4) | 0x10 == 0x10 | ((x & 0xF0) >> 4);
  }

  /** The page that row `y` lands on: `y` in frame 0, `y + 4` in frame 1,
      modulo the eight pages of GDDRAM. */
  lemma PageOfRow(renderingFrame: byte, y: byte)
    ensures PageByte(renderingFrame, y) & 7 == if renderingFrame == 1 then (y + 4) & 7 else y & 7
    ensures y < 4 ==> PageByte(renderingFrame, y) & 7 == (if renderingFrame == 1 then 4 else 0) + y
  {
  }

  /** The opcode base the current driver keeps for a legacy frame number. */
  function CurrentFrame(renderingFrame: byte): (b: byte)
    ensures b == 0xB0 || b == 0xB4
  {
    if renderingFrame == 1 then 0xB4 else 0xB0
  }

  /** The two drivers send the same page opcode for row `y` exactly when
      the row is in frame 0, or when bit 2 of `y` is clear (rows 0-3 in
      particular): from row 4 on, frame 1 wraps back to pages 0-3 here
      while the current driver's `B4h | (y & 7)` stays on pages 4 to 7. */
  lemma PageAgreesWithCurrent(renderingFrame: byte, y: byte)
    ensures PageByte(renderingFrame, y) == Driver.PageOpcode(CurrentFrame(renderingFrame), y)
        <==> renderingFrame != 1 || y & 4 == 0
  {
  }

  /** In frame 1 row 4 shares page 0 with row 0 of frame 0. */
  lemma FrameOneRowFourWraps()
    ensures PageByte(1, 4) == PageByte(0, 0) == 0xB0
    ensures Driver.PageOpcode(0xB4, 4) == 0xB4
  {
  }

  /** Where the page opcodes agree the whole `setCursor` transmission does. */
  lemma CursorAgreesWithCurrent(renderingFrame: byte, x: byte, y: byte)
    requires renderingFrame != 1 || y & 4 == 0
    ensures CursorBytes(renderingFrame, x, y) == Driver.CursorBytes(CurrentFrame(renderingFrame), x, y)
  {
    PageAgreesWithCurrent(renderingFrame, y);
  }

  // write

  /** The row a line feed moves to: one down for the 6x8 font, two for
      any other, but never below the last row a line of that font may
      start on. The addition is in `uint8_t`. */
  function NextLine(font: byte, y: byte): (r: byte)
    ensures r <= if font == FONT6X8 then MAX_PAGE else MAX_PAGE_8X16
    ensures font == FONT6X8 && y < MAX_PAGE ==> r == y + 1
    ensures font != FONT6X8 && y == 0 ==> r == 2
  {
    if font == FONT6X8 then (if y + 1 > MAX_PAGE then MAX_PAGE else y + 1)
    else (if y + 2 > MAX_PAGE_8X16 then MAX_PAGE_8X16 else y + 2)
  }

  /** The line feed of `write`, also used when a glyph would not fit:
      `setCursor(0, NextLine(y))`. */
  function LineFeed(st: State): (r: Step)
    ensures r == SetCursor(st, 0, NextLine(st.font, st.y))
    ensures r.st.x == 0 && r.st.y <= MAX_PAGE
  {
    SetCursor(st, 0, NextLine(st.font, st.y))
  }

  /** The line feed is the current driver's `newLine` for a font one page
      (6x8) or two pages (8x16) high: both drivers move to the same row and
      send the same `setCursor`, in either frame. */
  lemma LineFeedAgrees(st: State, f: DCFont)
    requires f.height == (if st.font == FONT6X8 then 1 else 2)
    ensures AsCurrent(LineFeed(st).st, f) == Driver.NewLine(AsCurrent(st, f), f.height).st
    ensures LineFeed(st).frames == Driver.NewLine(AsCurrent(st, f), f.height).frames
  {
    CursorAgreesWithCurrent(st.renderingFrame, 0, NextLine(st.font, st.y));
  }

  /** The current driver's state that matches a legacy one drawing with
      font `f`: the frame numbers become opcode bases. */
  function AsCurrent(st: State, f: DCFont): (r: Driver.State)
    ensures Valid(st) ==> Driver.Valid(r)
    ensures Valid(st) ==> Driver.CurrentRenderFrame(r) == st.renderingFrame
    ensures Valid(st) ==> Driver.CurrentDisplayFrame(r) == st.drawingFrame
  {
    Driver.State(Some(f), st.x, st.y, CurrentFrame(st.renderingFrame), if st.drawingFrame == 1 then 0x60 else 0x40)
  }

  /** Where glyph `c` starts in the 6x8 table: `ci * 6` with
      `ci = c - 32` in `uint8_t`, so codes below 32 wrap round to glyph
      224 and on. */
  function SmallStart(c: byte): nat
  {
    (c - 32) as int * 6
  }

  /** Where glyph `c` starts in the 8x16 table: `ci * 16`. */
  function LargeStart(c: byte): nat
  {
    (c - 32) as int * 16
  }

  /** The glyph of `c` is inside the table of the selected font; reading
      past the end of a table is undefined in the C code. */
  predicate WriteDefined(st: State, fonts: Fonts, c: byte)
  {
    || c == 10 || c == 13
    || (st.font == FONT6X8 && SmallStart(c) + 6 <= |fonts.small|)
    || (st.font != FONT6X8 && LargeStart(c) + 16 <= |fonts.large|)
  }

  /** The new line `write` starts before a glyph when the cursor is past
      `limit`. */
  function Wrap(st: State, limit: byte): (r: Step)
    ensures Payloads(r.frames) == []
    ensures r.st == if st.x > limit then st.(x := 0, y := NextLine(st.font, st.y)) else st
  {
    if st.x > limit then LineFeed(st) else Step(st, [])
  }

  /** A 6x8 glyph, from index `o` of the table: six bytes in one data
      transmission; the cursor only moves in `oledX`. */
  function SmallGlyph(st: State, table: seq<byte>, o: nat): (r: Step)
    requires o + 6 <= |table|
    ensures r.st == st.(x := st.x + 6)
    ensures Payloads(r.frames) == [table[o .. o + 6]]
  {
    var r := Step(st.(x := st.x + 6), [Data(table[o .. o + 6])]);
    assert r.frames[1..] == [];
    r
  }

  /** An 8x16 glyph, from index `o` of the table: the first eight bytes on
      the cursor's row, the cursor one row down, the last eight bytes, and
      the cursor eight columns right of where it started, back on the
      starting row. */
  function LargeGlyph(st: State, table: seq<byte>, o: nat): (r: Step)
    requires o + 16 <= |table|
    ensures r.st == st.(x := st.x + 8)
  {
    var down := SetCursor(st, st.x, st.y + 1);
    var back := SetCursor(down.st, down.st.x + 8, down.st.y - 1);
    Step(back.st, [Data(table[o .. o + 8])] + down.frames + [Data(table[o + 8 .. o + 16])] + back.frames)
  }

  /** The four transmissions of a two-page glyph. */
  function Halves(top: seq<byte>, down: seq<byte>, bottom: seq<byte>, back: seq<byte>): seq<Frame>
  {
    [Data(top), Command(down), Data(bottom), Command(back)]
  }

  /** The transmissions of an 8x16 glyph: its top half, the cursor on the
      row below, its bottom half, the cursor back. */
  lemma LargeGlyphFrames(st: State, table: seq<byte>, o: nat)
    requires o + 16 <= |table|
    ensures var rf := st.renderingFrame;
      LargeGlyph(st, table, o).frames
        == Halves(table[o .. o + 8], CursorBytes(rf, st.x, st.y + 1), table[o + 8 .. o + 16], CursorBytes(rf, st.x + 8, st.y))
    ensures Payloads(LargeGlyph(st, table, o).frames) == [table[o .. o + 8], table[o + 8 .. o + 16]]
  {
    assert st.y + 1 - 1 == st.y;
    TwoHalves(table[o .. o + 8], CursorBytes(st.renderingFrame, st.x, st.y + 1),
      table[o + 8 .. o + 16], CursorBytes(st.renderingFrame, st.x + 8, st.y));
  }

  /** Data, command, data, command carry the two data payloads. */
  lemma TwoHalves(top: seq<byte>, down: seq<byte>, bottom: seq<byte>, back: seq<byte>)
    ensures Payloads(Halves(top, down, bottom, back)) == [top, bottom]
  {
    var fs := Halves(top, down, bottom, back);
    assert fs[1..] == [Command(down), Data(bottom), Command(back)];
    assert fs[1..][1..] == [Data(bottom), Command(back)];
    assert fs[1..][1..][1..] == [Command(back)];
    assert fs[1..][1..][1..][1..] == [];
    assert Payloads(fs[1..][1..][1..]) == [];
    assert Payloads(fs[1..][1..]) == [bottom];
    assert Payloads(fs[1..]) == [bottom];
  }

  /** `write(c)`: nothing for a carriage return; a line feed for `\n`; any
      other code first starts a new line when the glyph would cross column
      128 (past column 122 for the 6x8 font, past 120 for the 8x16 one),
      then sends glyph `c - 32` of the selected font. */
  function Write(st: State, fonts: Fonts, c: byte): (r: Step)
    requires WriteDefined(st, fonts, c)
    ensures c == 13 ==> r == Step(st, [])
    ensures c == 10 ==> r == LineFeed(st)
    ensures r.st.font == st.font && r.st.renderingFrame == st.renderingFrame && r.st.drawingFrame == st.drawingFrame
  {
    if c == 13 then Step(st, [])
    else if c == 10 then LineFeed(st)
    else if st.font == FONT6X8 then
      var wrap := Wrap(st, 122);
      var g := SmallGlyph(wrap.st, fonts.small, SmallStart(c));
      Step(g.st, wrap.frames + g.frames)
    else
      var wrap := Wrap(st, 120);
      var g := LargeGlyph(wrap.st, fonts.large, LargeStart(c));
      Step(g.st, wrap.frames + g.frames)
  }

  /** The legacy `write` for a printable code: the possible new line, then
      the glyph from the cursor it leaves. */
  lemma WriteGlyph(st: State, fonts: Fonts, c: byte)
    requires c != 10 && c != 13 && WriteDefined(st, fonts, c)
    ensures st.font == FONT6X8 ==>
      var w := Wrap(st, 122); var g := SmallGlyph(w.st, fonts.small, SmallStart(c));
      Write(st, fonts, c) == Step(g.st, w.frames + g.frames)
    ensures st.font != FONT6X8 ==>
      var w := Wrap(st, 120); var g := LargeGlyph(w.st, fonts.large, LargeStart(c));
      Write(st, fonts, c) == Step(g.st, w.frames + g.frames)
  {
  }

  /** A 6x8 glyph: its six table bytes reach GDDRAM; the cursor moves six
      columns right, or to column 6 of the next line when it was past 122. */
  lemma WriteSmall(st: State, fonts: Fonts, c: byte)
    requires st.font == FONT6X8 && c != 10 && c != 13 && WriteDefined(st, fonts, c)
    ensures var o := SmallStart(c);
      Concat(Payloads(Write(st, fonts, c).frames)) == fonts.small[o .. o + 6]
    ensures var r := Write(st, fonts, c).st;
      if st.x > 122 then r.x == 6 && r.y == NextLine(FONT6X8, st.y) else r.x == st.x + 6 && r.y == st.y
  {
    var o := SmallStart(c);
    var wrap := Wrap(st, 122);
    var g := SmallGlyph(wrap.st, fonts.small, o);
    WriteGlyph(st, fonts, c);
    PayloadsAppend(wrap.frames, g.frames);
    assert Concat([fonts.small[o .. o + 6]]) == fonts.small[o .. o + 6] + Concat([]);
  }

  /** An 8x16 glyph: its sixteen table bytes reach GDDRAM as two halves of
      eight; the cursor moves eight columns right, or to column 8 of the
      line two rows down when it was past 120. */
  lemma WriteLarge(st: State, fonts: Fonts, c: byte)
    requires st.font != FONT6X8 && c != 10 && c != 13 && WriteDefined(st, fonts, c)
    ensures var o := LargeStart(c);
      Payloads(Write(st, fonts, c).frames) == [fonts.large[o .. o + 8], fonts.large[o + 8 .. o + 16]]
    ensures var r := Write(st, fonts, c).st;
      if st.x > 120 then r.x == 8 && r.y == NextLine(st.font, st.y) else r.x == st.x + 8 && r.y == st.y
  {
    var o := LargeStart(c);
    var wrap := Wrap(st, 120);
    var g := LargeGlyph(wrap.st, fonts.large, o);
    WriteGlyph(st, fonts, c);
    LargeGlyphFrames(wrap.st, fonts.large, o);
    PayloadsAppend(wrap.frames, g.frames);
  }

  // write, compared with the current driver

  /** The 6x8 table as a current-driver font: six columns, one page,
      glyphs from code 32. */
  function SmallFont(table: seq<byte>): (f: DCFont)
    ensures f.bitmap == table && f.width == 6 && f.height == 1 && f.first == 32
  {
    DCFont(table, 6, 1, 32, 127, [], [], 0)
  }

  /** The 8x16 table as a current-driver font: eight columns, two pages. */
  function LargeFont(table: seq<byte>): (f: DCFont)
    ensures f.bitmap == table && f.width == 8 && f.height == 2 && f.first == 32
  {
    DCFont(table, 8, 2, 32, 127, [], [], 0)
  }

  /** For a printable code the current driver reads a glyph from where
      the legacy one does. */
  lemma GlyphOffsets(table: seq<byte>, c: byte)
    requires c >= 32
    ensures Driver.GlyphOffset(SmallFont(table), c) == SmallStart(c)
    ensures Driver.GlyphOffset(LargeFont(table), c) == LargeStart(c)
  {
    GlyphIndexIsDifference(c);
    assert Driver.GlyphOffset(SmallFont(table), c) == (c as int - 32) * 6 * 1;
    assert Driver.GlyphOffset(LargeFont(table), c) == (c as int - 32) * 8 * 2;
  }

  /** `c - 32` does not wrap for a printable code. */
  lemma GlyphIndexIsDifference(c: byte)
    requires c >= 32
    ensures (c - 32) as int == c as int - 32
  {
  }

  /** The current driver draws a printable 6x8 glyph as one data
      transmission of the six bytes the legacy driver sends. */
  lemma SmallDrawGlyph(cur: Driver.State, x: byte, y: byte, table: seq<byte>, c: byte, o: nat)
    requires c >= 32 && o == SmallStart(c) && o + 6 <= |table|
    ensures Driver.GlyphInBitmap(SmallFont(table), c)
    ensures Driver.DrawGlyph(cur, x, y, SmallFont(table), c) == Driver.Step(cur.(x := x + 6, y := y), [Data(table[o .. o + 6])])
  {
    GlyphOffsets(table, c);
    SmallPass(cur, x, y, table, o);
  }

  /** The one pass of the glyph loop for a six-column, one-page font. */
  lemma SmallPass(cur: Driver.State, x: byte, y: byte, table: seq<byte>, o: nat)
    requires o + 6 <= |table|
    ensures Driver.Size(6, 1) == 6
    ensures Driver.DrawRows(cur, x, y, table, 6, 6, 1, o, 1) == Driver.Step(cur.(x := x + 6, y := y), [Data(table[o .. o + 6])])
  {
    assert Driver.Size(6, 1) == 6 + Driver.Size(6, 0);
  }

  /** The same for an 8x16 glyph, drawn as two passes of eight bytes. */
  lemma LargeDrawGlyph(cur: Driver.State, x: byte, y: byte, table: seq<byte>, c: byte, o: nat)
    requires c >= 32 && o == LargeStart(c) && o + 16 <= |table|
    ensures Driver.GlyphInBitmap(LargeFont(table), c)
    ensures Driver.DrawGlyph(cur, x, y, LargeFont(table), c).st == cur.(x := x + 8, y := y)
    ensures var rf := cur.renderingFrame;
      Driver.DrawGlyph(cur, x, y, LargeFont(table), c).frames
        == Halves(table[o .. o + 8], Driver.CursorBytes(rf, x, y + 1), table[o + 8 .. o + 16], Driver.CursorBytes(rf, x + 8, y))
  {
    GlyphOffsets(table, c);
    LargePasses(cur, x, y, table, o);
  }

  /** The two passes of the glyph loop for an eight-column, two-page font:
      down one row after the first, back up and eight columns on after the
      second. */
  lemma LargePasses(cur: Driver.State, x: byte, y: byte, table: seq<byte>, o: nat)
    requires o + 16 <= |table|
    ensures Driver.Size(8, 2) == 16
    ensures Driver.DrawRows(cur, x, y, table, 8, 8, 2, o, 2).st == cur.(x := x + 8, y := y)
    ensures var rf := cur.renderingFrame;
      Driver.DrawRows(cur, x, y, table, 8, 8, 2, o, 2).frames
        == Halves(table[o .. o + 8], Driver.CursorBytes(rf, x, y + 1), table[o + 8 .. o + 16], Driver.CursorBytes(rf, x + 8, y))
  {
    LargeSizes();
    LargePassesCursor(cur, x, y, table, o);
    LargePassesFrames(cur, x, y, table, o);
  }

  lemma LargeSizes()
    ensures Driver.Size(8, 1) == 8 && Driver.Size(8, 2) == 16
  {
    assert Driver.Size(8, 2) == 8 + (8 + Driver.Size(8, 0));
  }

  lemma LargePassesCursor(cur: Driver.State, x: byte, y: byte, table: seq<byte>, o: nat)
    requires o + 16 <= |table|
    ensures Driver.Size(8, 2) == 16
    ensures Driver.DrawRows(cur, x, y, table, 8, 8, 2, o, 2).st == cur.(x := x + 8, y := y)
  {
    LargeSizes();
    LargeSecondPass(cur, x, y + 1, table, o + 8);
    assert y + 1 - 1 == y;
    assert Driver.NextX(x, 8, 2, 2) == x && Driver.NextY(y, 2, 2) == y + 1;
  }

  lemma LargePassesFrames(cur: Driver.State, x: byte, y: byte, table: seq<byte>, o: nat)
    requires o + 16 <= |table|
    ensures Driver.Size(8, 2) == 16
    ensures var rf := cur.renderingFrame;
      Driver.DrawRows(cur, x, y, table, 8, 8, 2, o, 2).frames
        == Halves(table[o .. o + 8], Driver.CursorBytes(rf, x, y + 1), table[o + 8 .. o + 16], Driver.CursorBytes(rf, x + 8, y))
  {
    LargeSizes();
    var rest := Driver.DrawRows(cur, x, y + 1, table, 8, 8, 2, o + 8, 1);
    LargeSecondPass(cur, x, y + 1, table, o + 8);
    assert y + 1 - 1 == y;
    assert Driver.NextX(x, 8, 2, 2) == x && Driver.NextY(y, 2, 2) == y + 1;
    assert Driver.NextCommands(cur, x, y, 8, 2, 2) == [Command(Driver.CursorBytes(cur.renderingFrame, x, y + 1))];
    assert Driver.Slice(table, o, 8) == table[o .. o + 8];
    assert Driver.DrawRows(cur, x, y, table, 8, 8, 2, o, 2).frames
        == [Data(table[o .. o + 8]), Command(Driver.CursorBytes(cur.renderingFrame, x, y + 1))] + rest.frames;
  }

  lemma LargeSecondPass(cur: Driver.State, x: byte, y: byte, table: seq<byte>, o: nat)
    requires o + 8 <= |table|
    ensures Driver.Size(8, 1) == 8
    ensures Driver.DrawRows(cur, x, y, table, 8, 8, 2, o, 1)
         == Driver.Step(cur.(x := x + 8, y := y - 1), [Data(table[o .. o + 8]), Command(Driver.CursorBytes(cur.renderingFrame, x + 8, y - 1))])
  {
    LargeSizes();
  }

  /** The new line before a glyph is the same in both drivers, for the
      wrap limit that matches the font's width. */
  lemma WrapAgrees(st: State, f: DCFont, limit: byte)
    requires f.height == (if st.font == FONT6X8 then 1 else 2) && f.width as int == 128 - limit as int
    ensures Driver.Wrap(AsCurrent(st, f), f) == Driver.Step(AsCurrent(Wrap(st, limit).st, f), Wrap(st, limit).frames)
  {
    if st.x > limit {
      WrapAgreesWrapped(st, f, limit);
    } else {
      WrapAgreesInLine(st, f, limit);
    }
  }

  lemma WrapAgreesWrapped(st: State, f: DCFont, limit: byte)
    requires f.height == (if st.font == FONT6X8 then 1 else 2) && f.width as int == 128 - limit as int
    requires st.x > limit
    ensures Driver.Wrap(AsCurrent(st, f), f) == Driver.Step(AsCurrent(Wrap(st, limit).st, f), Wrap(st, limit).frames)
  {
    var cur := AsCurrent(st, f);
    assert cur.x as int > 128 - f.width as int;
    var n := Driver.NewLine(cur, f.height);
    assert Driver.Wrap(cur, f) == n;
    assert Wrap(st, limit) == LineFeed(st);
    LineFeedAgrees(st, f);
    assert n == Driver.Step(n.st, n.frames);
  }

  lemma WrapAgreesInLine(st: State, f: DCFont, limit: byte)
    requires f.width as int == 128 - limit as int
    requires st.x <= limit
    ensures Driver.Wrap(AsCurrent(st, f), f) == Driver.Step(AsCurrent(Wrap(st, limit).st, f), Wrap(st, limit).frames)
  {
  }

  /** The current driver's `write` for a printable code: the possible new
      line, then the glyph loop from the cursor it leaves. */
  lemma DriverWriteGlyph(cur: Driver.State, c: byte)
    requires cur.font.Some? && c != 10 && c != 13 && Driver.WriteDefined(cur, c)
    ensures var f := cur.font.value; var w := Driver.Wrap(cur, f).st; var g := Driver.DrawGlyph(cur, w.x, w.y, f, c);
      Driver.Write(cur, c) == Driver.Step(g.st, Driver.Wrap(cur, f).frames + g.frames)
  {
  }

  /** For a printable code in the 6x8 font the legacy `write` sends
      exactly what the current one sends with that table as its font, and
      leaves the matching cursor, in either frame. */
  lemma WriteSmallAgrees(st: State, fonts: Fonts, c: byte)
    requires st.font == FONT6X8 && c >= 32 && WriteDefined(st, fonts, c)
    ensures var cur := AsCurrent(st, SmallFont(fonts.small));
      && Driver.WriteDefined(cur, c)
      && Driver.Write(cur, c).frames == Write(st, fonts, c).frames
      && Driver.Write(cur, c).st == AsCurrent(Write(st, fonts, c).st, SmallFont(fonts.small))
  {
    WriteSmallFramesAgree(st, fonts, c);
    WriteSmallCursorAgrees(st, fonts, c);
  }

  lemma WriteSmallFramesAgree(st: State, fonts: Fonts, c: byte)
    requires st.font == FONT6X8 && c >= 32 && WriteDefined(st, fonts, c)
    ensures var cur := AsCurrent(st, SmallFont(fonts.small));
      && Driver.WriteDefined(cur, c)
      && Driver.Write(cur, c).frames == Write(st, fonts, c).frames
  {
    var f := SmallFont(fonts.small);
    var cur := AsCurrent(st, f);
    var wrap := Wrap(st, 122);
    var w := wrap.st;
    WrapAgrees(st, f, 122);
    SmallDrawGlyph(cur, w.x, w.y, fonts.small, c, SmallStart(c));
    var dwrap := Driver.Wrap(cur, f);
    assert dwrap.st.x == w.x && dwrap.st.y == w.y && dwrap.frames == wrap.frames;
    DriverWriteGlyph(cur, c);
    WriteGlyph(st, fonts, c);
  }

  lemma WriteSmallCursorAgrees(st: State, fonts: Fonts, c: byte)
    requires st.font == FONT6X8 && c >= 32 && WriteDefined(st, fonts, c)
    ensures var cur := AsCurrent(st, SmallFont(fonts.small));
      && Driver.WriteDefined(cur, c)
      && Driver.Write(cur, c).st == AsCurrent(Write(st, fonts, c).st, SmallFont(fonts.small))
  {
    var f := SmallFont(fonts.small);
    var cur := AsCurrent(st, f);
    var w := Wrap(st, 122).st;
    WrapAgrees(st, f, 122);
    SmallDrawGlyph(cur, w.x, w.y, fonts.small, c, SmallStart(c));
    DriverWriteGlyph(cur, c);
    WriteGlyph(st, fonts, c);
  }

  /** For a printable code in the 8x16 font the same holds whenever the
      glyph's second row is on the panel of the frame being drawn: always
      in frame 0, and from rows 0 to 2 in frame 1. */
  lemma WriteLargeAgrees(st: State, fonts: Fonts, c: byte)
    requires st.font != FONT6X8 && c >= 32 && WriteDefined(st, fonts, c)
    requires st.renderingFrame != 1 || st.y < 3
    ensures var cur := AsCurrent(st, LargeFont(fonts.large));
      && Driver.WriteDefined(cur, c)
      && Driver.Write(cur, c).frames == Write(st, fonts, c).frames
      && Driver.Write(cur, c).st == AsCurrent(Write(st, fonts, c).st, LargeFont(fonts.large))
  {
    WriteLargeFramesAgree(st, fonts, c);
    WriteLargeCursorAgrees(st, fonts, c);
  }

  lemma WriteLargeFramesAgree(st: State, fonts: Fonts, c: byte)
    requires st.font != FONT6X8 && c >= 32 && WriteDefined(st, fonts, c)
    requires st.renderingFrame != 1 || st.y < 3
    ensures var cur := AsCurrent(st, LargeFont(fonts.large));
      && Driver.WriteDefined(cur, c)
      && Driver.Write(cur, c).frames == Write(st, fonts, c).frames
  {
    var f := LargeFont(fonts.large);
    var o := LargeStart(c);
    var cur := AsCurrent(st, f);
    var wrap := Wrap(st, 120);
    var w := wrap.st;
    WrapAgrees(st, f, 120);
    WrapRow(st);
    LargeGlyphAgrees(cur, w, fonts.large, c, o);
    var dwrap := Driver.Wrap(cur, f);
    assert dwrap.st.x == w.x && dwrap.st.y == w.y && dwrap.frames == wrap.frames;
    DriverWriteGlyph(cur, c);
    WriteGlyph(st, fonts, c);
  }

  lemma WriteLargeCursorAgrees(st: State, fonts: Fonts, c: byte)
    requires st.font != FONT6X8 && c >= 32 && WriteDefined(st, fonts, c)
    ensures var cur := AsCurrent(st, LargeFont(fonts.large));
      && Driver.WriteDefined(cur, c)
      && Driver.Write(cur, c).st == AsCurrent(Write(st, fonts, c).st, LargeFont(fonts.large))
  {
    var f := LargeFont(fonts.large);
    var o := LargeStart(c);
    var cur := AsCurrent(st, f);
    var w := Wrap(st, 120).st;
    WrapAgrees(st, f, 120);
    LargeDrawGlyph(cur, w.x, w.y, fonts.large, c, o);
    DriverWriteGlyph(cur, c);
    WriteGlyph(st, fonts, c);
  }

  /** A new line for the 8x16 font lands on row 2 at the lowest. */
  lemma WrapRow(st: State)
    requires st.font != FONT6X8 && (st.renderingFrame != 1 || st.y < 3)
    ensures var w := Wrap(st, 120).st;
      w.renderingFrame == st.renderingFrame && (w.renderingFrame != 1 || w.y < 3)
  {
  }

  /** An 8x16 glyph drawn by both drivers from the same cursor, on a row
      whose next row is on the panel of the frame being drawn. */
  lemma LargeGlyphAgrees(cur: Driver.State, w: State, table: seq<byte>, c: byte, o: nat)
    requires c >= 32 && o == LargeStart(c) && o + 16 <= |table|
    requires cur.renderingFrame == CurrentFrame(w.renderingFrame)
    requires w.renderingFrame != 1 || w.y < 3
    ensures Driver.GlyphInBitmap(LargeFont(table), c)
    ensures Driver.DrawGlyph(cur, w.x, w.y, LargeFont(table), c).frames == LargeGlyph(w, table, o).frames
  {
    HalvesAgree(w.renderingFrame, w.x, w.y);
    LargeDrawGlyph(cur, w.x, w.y, table, c, o);
    LargeGlyphFrames(w, table, o);
  }

  /** The two cursor commands of an 8x16 glyph are the same in both
      drivers while the glyph's second row is on the panel of its frame. */
  lemma HalvesAgree(renderingFrame: byte, x: byte, y: byte)
    requires renderingFrame != 1 || y < 3
    ensures CursorBytes(renderingFrame, x, y + 1) == Driver.CursorBytes(CurrentFrame(renderingFrame), x, y + 1)
    ensures CursorBytes(renderingFrame, x + 8, y) == Driver.CursorBytes(CurrentFrame(renderingFrame), x + 8, y)
  {
    assert renderingFrame != 1 || (y & 4 == 0 && (y + 1) & 4 == 0);
    CursorAgreesWithCurrent(renderingFrame, x, y + 1);
    CursorAgreesWithCurrent(renderingFrame, x + 8, y);
  }

  /** On row 3 of frame 1 the legacy driver sends the bottom half of an
      8x16 glyph to page 0, the top row of the other frame, where the
      current driver wraps within frame 1, to its top row (page 4). */
  lemma LargeGlyphOnLastRow(st: State, fonts: Fonts, c: byte)
    requires st.font != FONT6X8 && c >= 32 && WriteDefined(st, fonts, c)
    requires st.renderingFrame == 1 && st.y == 3 && st.x <= 120
    ensures Write(st, fonts, c).frames[1] == Command(CursorBytes(1, st.x, 4))
    ensures PageByte(1, 4) == 0xB0
    ensures Driver.CursorBytes(CurrentFrame(1), st.x, 4)[0] == 0xB4
  {
    WriteGlyph(st, fonts, c);
    LargeGlyphFrames(st, fonts.large, LargeStart(c));
    assert Wrap(st, 120) == Step(st, []);
  }

  // Fills

  /** `n` copies of `fill`, as a counting `for` loop sends them. */
  function Copies(fill: byte, n: nat): (bs: seq<byte>)
    ensures |bs| == n
    ensures forall i :: 0 <= i < n ==> bs[i] == fill
  {
    seq(n, _ => fill)
  }

  /** `fillLength(fill, length)`: one data transmission of exactly
      `length` copies of `fill` (none for 0); the cursor moves right by
      `length`, modulo 256. */
  function FillLength(st: State, fill: byte, length: byte): (r: Step)
    ensures r.st == st.(x := st.x + length)
    ensures Concat(Payloads(r.frames)) == Copies(fill, length as int)
  {
    var r := Step(st.(x := st.x + length), [Data(Copies(fill, length as int))]);
    assert r.frames[1..] == [];
    assert Concat([Copies(fill, length as int)]) == Copies(fill, length as int) + Concat([]);
    r
  }

  /** From 1 to 255 bytes the two `fillLength`s agree; for 0 the legacy
      one sends nothing where the current one sends 256 bytes. */
  lemma FillLengthAgrees(st: State, f: DCFont, fill: byte, length: byte)
    ensures length != 0 ==> FillLength(st, fill, length).frames == Driver.FillLength(AsCurrent(st, f), fill, length).frames
    ensures AsCurrent(FillLength(st, fill, length).st, f) == Driver.FillLength(AsCurrent(st, f), fill, length).st
    ensures length == 0 ==>
      |Concat(Payloads(FillLength(st, fill, length).frames))| == 0
      && |Concat(Payloads(Driver.FillLength(AsCurrent(st, f), fill, length).frames))| == 256
  {
    if length != 0 {
      CopiesAreRepeat(fill, length);
    }
  }

  /** A counting loop and a do-while loop send the same bytes for a
      count from 1 to 255. */
  lemma CopiesAreRepeat(fill: byte, length: byte)
    requires length != 0
    ensures Copies(fill, length as int) == Driver.Repeat(fill, length)
  {
  }

  /** `fillToEOL(fill)`: `fillLength` with `128 - x` in `uint8_t`; from
      any column up to 128 it fills to the end of the line. */
  function FillToEOL(st: State, fill: byte): (r: Step)
    ensures st.x <= 128 ==> r.st == st.(x := 128) && Concat(Payloads(r.frames)) == Copies(fill, 128 - st.x as int)
  {
    FillLength(st, fill, 128 - st.x)
  }

  /** Up to column 128 the legacy `fillToEOL` sends the bytes of the
      corrected current one: in particular none at column 128, where the
      current driver as written sends 256. */
  lemma FillToEOLAgrees(st: State, f: DCFont, fill: byte)
    requires st.x <= 128
    ensures Concat(Payloads(FillToEOL(st, fill).frames)) == Concat(Payloads(Driver.FillToEOLChecked(AsCurrent(st, f), fill).frames))
    ensures AsCurrent(FillToEOL(st, fill).st, f) == Driver.FillToEOLChecked(AsCurrent(st, f), fill).st
  {
    var cur := AsCurrent(st, f);
    if st.x < 128 {
      FillLengthAgrees(st, f, fill, 128 - st.x);
    } else {
      assert Driver.FillToEOLChecked(cur, fill) == Driver.Step(cur, []);
    }
  }

  /** `clearToEOL`. */
  function ClearToEOL(st: State): (r: Step)
    ensures st.x <= 128 ==> r.st == st.(x := 128) && Concat(Payloads(r.frames)) == Copies(0, 128 - st.x as int)
  {
    FillToEOL(st, 0)
  }

  /** The loop of `fill` with `n` pages to go, from row `y` on: each page
      gets the cursor at its first column and then 128 copies of `fill`.
      The cursor the loop leaves behind is overwritten by the
      `setCursor(0, 0)` after it, so only the transmissions are kept. */
  function FillPages(st: State, fill: byte, y: byte, n: nat): (fs: seq<Frame>)
    ensures |fs| == 2 * n
    decreases n
  {
    if n == 0 then []
    else SetCursor(st, 0, y).frames + [Data(Copies(fill, 128))] + FillPages(st, fill, y + 1, n - 1)
  }

  /** `fill(fill)`: pages 0 to 3 of the frame being drawn, then the cursor
      at the top left. */
  function Fill(st: State, fill: byte): (r: Step)
    ensures r.st == st.(x := 0, y := 0)
    ensures |r.frames| == 9
  {
    var home := SetCursor(st, 0, 0);
    Step(home.st, FillPages(st, fill, 0, 4) + home.frames)
  }

  /** The legacy `fill` sends exactly what the current one sends, in
      either frame, and leaves the matching cursor: its four rows are on
      the panel of both frames. */
  lemma FillAgrees(st: State, f: DCFont, fill: byte)
    ensures Fill(st, fill).frames == Driver.Fill(AsCurrent(st, f), fill).frames
    ensures AsCurrent(Fill(st, fill).st, f) == Driver.Fill(AsCurrent(st, f), fill).st
  {
    FillPagesAgree(st, f, fill, 0, 4);
    CursorAgreesWithCurrent(st.renderingFrame, 0, 0);
  }

  /** The page loops agree while every row they visit is below 4. */
  lemma {:induction false} FillPagesAgree(st: State, f: DCFont, fill: byte, y: byte, n: nat)
    requires y as int + n <= 4
    ensures FillPages(st, fill, y, n) == Driver.FillPages(AsCurrent(st, f), fill, y, n)
    decreases n
  {
    if n > 0 {
      NextRow(y);
      FillPagesAgree(st, f, fill, y + 1, n - 1);
      FillPagesAgreeStep(st, f, fill, y, n);
    }
  }

  /** The row after `y`, below the last one, does not wrap. */
  lemma NextRow(y: byte)
    requires y < 0xFF
    ensures (y + 1) as int == y as int + 1
  {
  }

  /** The step of `FillPagesAgree`: one page more in front. */
  lemma FillPagesAgreeStep(st: State, f: DCFont, fill: byte, y: byte, n: nat)
    requires 1 <= n && y as int + n <= 4
    requires FillPages(st, fill, y + 1, n - 1) == Driver.FillPages(AsCurrent(st, f), fill, y + 1, n - 1)
    ensures FillPages(st, fill, y, n) == Driver.FillPages(AsCurrent(st, f), fill, y, n)
  {
    var cur := AsCurrent(st, f);
    CursorAgreesWithCurrent(st.renderingFrame, 0, y);
    var c := Driver.SetCursor(cur, 0, y);
    assert Driver.FillToEOL(c.st, fill).frames == [Data(Driver.Repeat(fill, 128))];
    CopiesAreRepeat(fill, 128);
  }

  /** `clear`: `fill(0)`. */
  function Clear(st: State): (r: Step)
    ensures r == Fill(st, 0)
    ensures r.st == st.(x := 0, y := 0) && |r.frames| == 9
  {
    Fill(st, 0)
  }

  /** What `fill` sends: for each row 0 to 3 the cursor command and 128
      copies of `fill`, then the cursor back to the top left. */
  lemma FillLayout(st: State, fill: byte)
    ensures var r := Fill(st, fill); var rf := st.renderingFrame;
      && (forall k :: 0 <= k < 4 ==> r.frames[2 * k + 1] == Data(Copies(fill, 128)))
      && r.frames[0] == Command(CursorBytes(rf, 0, 0))
      && r.frames[2] == Command(CursorBytes(rf, 0, 1))
      && r.frames[4] == Command(CursorBytes(rf, 0, 2))
      && r.frames[6] == Command(CursorBytes(rf, 0, 3))
      && r.frames[8] == Command(CursorBytes(rf, 0, 0))
  {
    var f := DCFont([], 0, 1, 0, 0, [], [], 0);
    FillAgrees(st, f, fill);
    Driver.FillLayout(AsCurrent(st, f), fill);
    CopiesAreRepeat(fill, 128);
    FillRowsAgree(st.renderingFrame);
  }

  /** Rows 0 to 3 have the same `setCursor` in both drivers. */
  lemma FillRowsAgree(renderingFrame: byte)
    ensures forall y: byte :: y < 4 ==> CursorBytes(renderingFrame, 0, y) == Driver.CursorBytes(CurrentFrame(renderingFrame), 0, y)
  {
    forall y: byte | y < 4
      ensures CursorBytes(renderingFrame, 0, y) == Driver.CursorBytes(CurrentFrame(renderingFrame), 0, y)
    {
      CursorAgreesWithCurrent(renderingFrame, 0, y);
    }
  }

  // bitmap

  /** The row loop of `bitmap` with `n` rows to go, from row `y` on,
      reading the source from index `j`: each row gets the cursor at column
      `x0` and the next `w` source bytes. Only the transmissions are kept,
      since `setCursor(0, 0)` follows the loop; `j` is a `uint16_t` that
      never wraps, as at most 255 rows of 255 bytes are read. */
  function BitmapRows(st: State, x0: byte, y: byte, w: nat, n: nat, source: seq<byte>, j: nat): (fs: seq<Frame>)
    ensures |fs| == 2 * n
    decreases n
  {
    if n == 0 then []
    else SetCursor(st, x0, y).frames + [Data(Driver.Slice(source, j, w))] + BitmapRows(st, x0, y + 1, w, n - 1, source, j + w)
  }

  /** `bitmap(x0, y0, x1, y1, bitmap)`: rows `y0` to `y1 - 1` each receive
      `x1 - x0` consecutive source bytes; the cursor ends at the top left. */
  function Bitmap(st: State, x0: byte, y0: byte, x1: byte, y1: byte, source: seq<byte>): (r: Step)
    requires Driver.Size(Driver.Span(x0, x1), Driver.Span(y0, y1)) <= |source|
    ensures r.st == st.(x := 0, y := 0)
    ensures |r.frames| == 2 * Driver.Span(y0, y1) + 1
    ensures r.frames[|r.frames| - 1] == Command(CursorBytes(st.renderingFrame, 0, 0))
  {
    var home := SetCursor(st, 0, 0);
    Step(home.st, BitmapRows(st, x0, y0, Driver.Span(x0, x1), Driver.Span(y0, y1), source, 0) + home.frames)
  }

  /** The two drivers' `bitmap` send the same bytes to GDDRAM, in either
      frame: only the page opcodes can differ. */
  lemma {:induction false} BitmapRowsPayloads(st: State, f: DCFont, x0: byte, y: byte, w: nat, n: nat, source: seq<byte>, j: nat)
    ensures Payloads(BitmapRows(st, x0, y, w, n, source, j))
         == Payloads(Driver.BitmapRows(AsCurrent(st, f), x0, y, w, n, source, j))
    decreases n
  {
    if n > 0 {
      BitmapRowsPayloads(st, f, x0, y + 1, w, n - 1, source, j + w);
      BitmapRowsPayloadsStep(st, f, x0, y, w, n, source, j);
    }
  }

  /** The step of `BitmapRowsPayloads`: one row more in front. */
  lemma BitmapRowsPayloadsStep(st: State, f: DCFont, x0: byte, y: byte, w: nat, n: nat, source: seq<byte>, j: nat)
    requires n >= 1
    requires Payloads(BitmapRows(st, x0, y + 1, w, n - 1, source, j + w))
          == Payloads(Driver.BitmapRows(AsCurrent(st, f), x0, y + 1, w, n - 1, source, j + w))
    ensures Payloads(BitmapRows(st, x0, y, w, n, source, j))
         == Payloads(Driver.BitmapRows(AsCurrent(st, f), x0, y, w, n, source, j))
  {
    var cur := AsCurrent(st, f);
    var data := Data(Driver.Slice(source, j, w));
    var mine := SetCursor(st, x0, y).frames + [data];
    var theirs := Driver.SetCursor(cur, x0, y).frames + [data];
    PayloadsAppend(mine, BitmapRows(st, x0, y + 1, w, n - 1, source, j + w));
    PayloadsAppend(theirs, Driver.BitmapRows(cur, x0, y + 1, w, n - 1, source, j + w));
    Driver.DataLast(SetCursor(st, x0, y).frames, data);
    Driver.DataLast(Driver.SetCursor(cur, x0, y).frames, data);
  }

  /** The data `bitmap` sends: one run of `x1 - x0` source bytes per row,
      read from the start of the source without a gap. */
  lemma BitmapRuns(st: State, x0: byte, y0: byte, x1: byte, y1: byte, source: seq<byte>)
    requires Driver.Size(Driver.Span(x0, x1), Driver.Span(y0, y1)) <= |source|
    ensures Driver.Runs(Payloads(Bitmap(st, x0, y0, x1, y1, source).frames), source, 0, Driver.Span(x0, x1), Driver.Span(y0, y1))
  {
    var f := DCFont([], 0, 1, 0, 0, [], [], 0);
    var w := Driver.Span(x0, x1);
    var n := Driver.Span(y0, y1);
    var rows := BitmapRows(st, x0, y0, w, n, source, 0);
    BitmapRowsPayloads(st, f, x0, y0, w, n, source, 0);
    Driver.BitmapRowsRuns(AsCurrent(st, f), x0, y0, w, n, source, 0);
    PayloadsAppend(rows, SetCursor(st, 0, 0).frames);
    assert Payloads(rows) + [] == Payloads(rows);
  }

  /** Where every row's page is the same in both drivers (always in frame
      0, and for rows 0 to 3 in frame 1) the two `bitmap`s send the same
      transmissions. */
  lemma BitmapAgrees(st: State, f: DCFont, x0: byte, y0: byte, x1: byte, y1: byte, source: seq<byte>)
    requires Driver.Size(Driver.Span(x0, x1), Driver.Span(y0, y1)) <= |source|
    requires st.renderingFrame != 1 || y1 <= 4
    ensures Bitmap(st, x0, y0, x1, y1, source).frames == Driver.Bitmap(AsCurrent(st, f), x0, y0, x1, y1, source).frames
    ensures AsCurrent(Bitmap(st, x0, y0, x1, y1, source).st, f) == Driver.Bitmap(AsCurrent(st, f), x0, y0, x1, y1, source).st
  {
    BitmapFramesAgree(st, f, x0, y0, x1, y1, source);
    var cur := AsCurrent(st, f);
    assert Driver.Bitmap(cur, x0, y0, x1, y1, source).st == cur.(x := 0, y := 0);
  }

  /** The transmissions half of `BitmapAgrees`. */
  lemma BitmapFramesAgree(st: State, f: DCFont, x0: byte, y0: byte, x1: byte, y1: byte, source: seq<byte>)
    requires Driver.Size(Driver.Span(x0, x1), Driver.Span(y0, y1)) <= |source|
    requires st.renderingFrame != 1 || y1 <= 4
    ensures Bitmap(st, x0, y0, x1, y1, source).frames == Driver.Bitmap(AsCurrent(st, f), x0, y0, x1, y1, source).frames
  {
    SpanEnds(y0, y1);
    BitmapRowsAgree(st, f, x0, y0, Driver.Span(x0, x1), Driver.Span(y0, y1), source, 0);
    HomeAgrees(st, f);
    DriverBitmapFrames(AsCurrent(st, f), x0, y0, x1, y1, source);
  }

  /** How the current driver's `bitmap` is put together. */
  lemma DriverBitmapFrames(cur: Driver.State, x0: byte, y0: byte, x1: byte, y1: byte, source: seq<byte>)
    requires Driver.Size(Driver.Span(x0, x1), Driver.Span(y0, y1)) <= |source|
    ensures Driver.Bitmap(cur, x0, y0, x1, y1, source).frames
         == Driver.BitmapRows(cur, x0, y0, Driver.Span(x0, x1), Driver.Span(y0, y1), source, 0) + Driver.SetCursor(cur, 0, 0).frames
  {
  }

  /** Rows `y0` to `y1 - 1` end at `y1`. */
  lemma SpanEnds(y0: byte, y1: byte)
    ensures Driver.Span(y0, y1) == 0 || y0 as int + Driver.Span(y0, y1) == y1 as int
  {
  }

  /** Both drivers return the cursor to the top left alike. */
  lemma HomeAgrees(st: State, f: DCFont)
    ensures SetCursor(st, 0, 0).frames == Driver.SetCursor(AsCurrent(st, f), 0, 0).frames
  {
    CursorAgreesWithCurrent(st.renderingFrame, 0, 0);
  }

  /** The row loops agree while every row they visit has the same page
      opcode in both drivers. */
  lemma {:induction false} BitmapRowsAgree(st: State, f: DCFont, x0: byte, y: byte, w: nat, n: nat, source: seq<byte>, j: nat)
    requires n == 0 || st.renderingFrame != 1 || y as int + n <= 4
    ensures BitmapRows(st, x0, y, w, n, source, j) == Driver.BitmapRows(AsCurrent(st, f), x0, y, w, n, source, j)
    decreases n
  {
    if n > 0 {
      if st.renderingFrame == 1 {
        NextRow(y);
      }
      BitmapRowsAgree(st, f, x0, y + 1, w, n - 1, source, j + w);
      BitmapRowsAgreeStep(st, f, x0, y, w, n, source, j);
    }
  }

  /** The step of `BitmapRowsAgree`: one row more in front. */
  lemma BitmapRowsAgreeStep(st: State, f: DCFont, x0: byte, y: byte, w: nat, n: nat, source: seq<byte>, j: nat)
    requires n >= 1 && (st.renderingFrame != 1 || y as int + n <= 4)
    requires BitmapRows(st, x0, y + 1, w, n - 1, source, j + w) == Driver.BitmapRows(AsCurrent(st, f), x0, y + 1, w, n - 1, source, j + w)
    ensures BitmapRows(st, x0, y, w, n, source, j) == Driver.BitmapRows(AsCurrent(st, f), x0, y, w, n, source, j)
  {
    assert st.renderingFrame != 1 || y < 4;
    CursorAgreesWithCurrent(st.renderingFrame, x0, y);
  }

  /** In frame 1 a bitmap reaching row 4 draws that row on page 0, the top
      row of the other frame. */
  lemma BitmapRowFourWraps(st: State, x0: byte, w: nat, source: seq<byte>, j: nat)
    requires st.renderingFrame == 1
    ensures BitmapRows(st, x0, 4, w, 1, source, j)[0] == Command(CursorBytes(1, x0, 4))
    ensures CursorBytes(1, x0, 4)[0] == 0xB0
  {
  }

  // Double buffering

  /** `switchRenderFrame`: frame 1 becomes 0 and anything else becomes 1. */
  function SwitchRenderFrame(st: State): (r: State)
    ensures r == st.(renderingFrame := r.renderingFrame)
    ensures r.renderingFrame <= 1
    ensures Valid(st) ==> Valid(r) && r.renderingFrame == 1 - st.renderingFrame
  {
    st.(renderingFrame := if st.renderingFrame == 1 then 0 else 1)
  }

  /** `switchDisplayFrame`: show the other half of GDDRAM, by sending the
      start line of the new frame (40h for frame 0, 60h for frame 1) as a
      single command. */
  function SwitchDisplayFrame(st: State): (r: Step)
    ensures r.st == st.(drawingFrame := r.st.drawingFrame)
    ensures r.st.drawingFrame <= 1
    ensures Valid(st) ==> Valid(r.st) && r.st.drawingFrame == 1 - st.drawingFrame
    ensures |r.frames| == 1 && r.frames[0].Command?
    ensures Decode(r.frames[0].bytes) == Some([StartLine(32 * r.st.drawingFrame)])
  {
    if st.drawingFrame == 1 then
      Driver.StartLineDecodes(0x40);
      Step(st.(drawingFrame := 0), [Command([0x40])])
    else
      Driver.StartLineDecodes(0x60);
      Step(st.(drawingFrame := 1), [Command([0x60])])
  }

  /** `switchFrame`: show the frame just drawn and draw into the other. */
  function SwitchFrame(st: State): (r: Step)
    ensures r.st.x == st.x && r.st.y == st.y && r.st.font == st.font
    ensures Valid(r.st)
  {
    var d := SwitchDisplayFrame(st);
    Step(SwitchRenderFrame(d.st), d.frames)
  }

  /** From a valid state, switching twice restores both frame numbers. */
  lemma SwitchFrameTwice(st: State)
    requires Valid(st)
    ensures SwitchRenderFrame(SwitchRenderFrame(st)) == st
    ensures SwitchFrame(SwitchFrame(st).st).st == st
  {
  }

  /** Out of range frame numbers are brought back to 0 or 1: frame number
      2 switches to 1 and then to 0, never back to 2. */
  lemma SwitchRenderFrameNormalises()
    ensures SwitchRenderFrame(Initial.(renderingFrame := 2)).renderingFrame == 1
    ensures SwitchRenderFrame(SwitchRenderFrame(Initial.(renderingFrame := 2))) == Initial
  {
  }

  /** From a valid state the two drivers switch frames alike: the same
      start-line command, and the matching selectors. */
  lemma SwitchFrameAgrees(st: State, f: DCFont)
    requires Valid(st)
    ensures SwitchDisplayFrame(st).frames == Driver.SwitchDisplayFrame(AsCurrent(st, f)).frames
    ensures AsCurrent(SwitchFrame(st).st, f) == Driver.SwitchFrame(AsCurrent(st, f)).st
    ensures SwitchFrame(st).frames == Driver.SwitchFrame(AsCurrent(st, f)).frames
  {
  }

  // The encoders that differ from the current driver's

  /** `setMultiplexRatio(mux)`: the argument goes out unchanged, so the
      controller uses `(mux mod 64) + 1` rows. */
  function SetMultiplexRatio(mux: byte): (f: Frame)
    ensures f.Command? && f.bytes == [0xA8, mux]
    ensures Decode(f.bytes) == Some([MultiplexRatio((mux & 0x3F) + 1)])
  {
    Commands.CommandFrame(0xA8, [mux])
  }

  /** The legacy encoder takes the register value, one less than the row
      count the current encoder takes: `m - 1` here means `m` rows there. */
  lemma MultiplexRatioShifted(m: byte)
    requires 1 <= m <= 64
    ensures SetMultiplexRatio(m - 1) == Commands.SetMultiplexRatio(m)
    ensures Decode(SetMultiplexRatio(m - 1).bytes) == Some([MultiplexRatio(m)])
  {
  }

  /** `setDisplayOffset(offset)`: sent without masking; the controller
      reads only the low six bits. */
  function SetDisplayOffset(offset: byte): (f: Frame)
    ensures f.Command? && f.bytes == [0xD3, offset]
    ensures Decode(f.bytes) == Some([DisplayOffset(offset % 64)])
  {
    Commands.CommandFrame(0xD3, [offset])
  }

  /** Both encoders set the same offset; the bytes differ exactly when
      the offset is 64 or more. */
  lemma DisplayOffsetAgrees(offset: byte)
    ensures Decode(SetDisplayOffset(offset).bytes) == Decode(Commands.SetDisplayOffset(offset).bytes)
    ensures SetDisplayOffset(offset) == Commands.SetDisplayOffset(offset) <==> offset < 64
  {
    if offset >= 64 {
      assert Commands.SetDisplayOffset(offset).bytes[1] != SetDisplayOffset(offset).bytes[1];
    }
  }

  /** `setDisplayClock(divideRatio, oscillatorFrequency)`: the low nibble
      of the argument is `divideRatio` itself, so the controller divides by
      `(divideRatio mod 16) + 1`. */
  function SetDisplayClock(divideRatio: byte, oscillatorFrequency: byte): (f: Frame)
    ensures f.Command? && |f.bytes| == 2 && f.bytes[0] == 0xD5
    ensures Decode(f.bytes) == Some([DisplayClock((divideRatio & 0x0F) + 1, oscillatorFrequency & 0x0F)])
  {
    Commands.CommandFrame(0xD5, [((oscillatorFrequency & 0x0F) << 4) | (divideRatio & 0x0F)])
  }

  /** As for the multiplex ratio, the legacy encoder takes the register
      value: divide ratio `d - 1` here is divide ratio `d` there. */
  lemma DisplayClockShifted(d: byte, oscillatorFrequency: byte)
    requires 1 <= d <= 16
    ensures SetDisplayClock(d - 1, oscillatorFrequency) == Commands.SetDisplayClock(d, oscillatorFrequency)
  {
  }

  // begin

  /** `ssd1306_init_sequence`: the 27 bytes `begin` sends, written in the
      same groups of three commands as `InitSequence` below. */
  const InitBytes: seq<byte> :=
    [0xAE, 0x20, 0x00, 0xB0]
    + [0xC8, 0x00, 0x10]
    + [0x40, 0x81, 0x8F, 0xA1]
    + [0xA6, 0xA8, 0x1F, 0xA4]
    + [0xD3, 0x00, 0xD5, 0x80, 0xD9, 0x22]
    + [0xDA, 0x02, 0xDB, 0x20, 0x8D, 0x14]

  /** The same table as the commands it holds, one per line of the
      source, in groups of three. */
  const InitSequence: seq<Command> := Init1 + Init2 + Init3 + Init4 + Init5 + Init6

  const Init1: seq<Command> := [
    InitTables.C0(0xAE),        // display off
    InitTables.C1(0x20, 0x00),  // horizontal addressing mode
    InitTables.C0(0xB0)]        // page 0
  const Init2: seq<Command> := [
    InitTables.C0(0xC8),        // COM scan remapped
    InitTables.C0(0x00),        // column low nibble 0
    InitTables.C0(0x10)]        // column high nibble 0
  const Init3: seq<Command> := [
    InitTables.C0(0x40),        // start line 0
    InitTables.C1(0x81, 0x8F),  // contrast
    InitTables.C0(0xA1)]        // column 127 at SEG0
  const Init4: seq<Command> := [
    InitTables.C0(0xA6),        // normal (not inverse)
    InitTables.C1(0xA8, 0x1F),  // 32-row multiplex
    InitTables.C0(0xA4)]        // output follows RAM
  const Init5: seq<Command> := [
    InitTables.C1(0xD3, 0x00),  // no display offset
    InitTables.C1(0xD5, 0x80),  // clock
    InitTables.C1(0xD9, 0x22)]  // pre-charge
  const Init6: seq<Command> := [
    InitTables.C1(0xDA, 0x02),  // sequential COM pins
    InitTables.C1(0xDB, 0x20),  // VCOMH
    InitTables.C1(0x8D, 0x14)]  // charge pump on

  /** The byte table is exactly those eighteen whole commands, so the
      controller reads it back as them. */
  lemma InitBytesAreCommands()
    ensures InitBytes == Flatten(InitSequence)
    ensures Split(InitBytes) == Some(InitSequence)
  {
    InitBytesFlatten();
    SplitFlatten(InitSequence);
  }

  lemma InitBytesFlatten()
    ensures InitBytes == Flatten(InitSequence)
    ensures |InitBytes| == 27
  {
    FlattenAppend(Init1 + Init2 + Init3 + Init4 + Init5, Init6);
    FlattenAppend(Init1 + Init2 + Init3 + Init4, Init5);
    FlattenAppend(Init1 + Init2 + Init3, Init4);
    FlattenAppend(Init1 + Init2, Init3);
    FlattenAppend(Init1, Init2);
    InitGroupBytes();
  }

  /** The bytes of each group of three commands. */
  lemma InitGroupBytes()
    ensures Flatten(Init1) == [0xAE, 0x20, 0x00, 0xB0]
    ensures Flatten(Init2) == [0xC8, 0x00, 0x10]
    ensures Flatten(Init3) == [0x40, 0x81, 0x8F, 0xA1]
    ensures Flatten(Init4) == [0xA6, 0xA8, 0x1F, 0xA4]
    ensures Flatten(Init5) == [0xD3, 0x00, 0xD5, 0x80, 0xD9, 0x22]
    ensures Flatten(Init6) == [0xDA, 0x02, 0xDB, 0x20, 0x8D, 0x14]
  {
    InitGroupBytesHead();
    InitGroupBytesTail();
  }

  lemma InitGroupBytesHead()
    ensures Flatten(Init1) == [0xAE, 0x20, 0x00, 0xB0]
    ensures Flatten(Init2) == [0xC8, 0x00, 0x10]
    ensures Flatten(Init3) == [0x40, 0x81, 0x8F, 0xA1]
  {
    FlattenThree(Init1[0], Init1[1], Init1[2]);
    FlattenThree(Init2[0], Init2[1], Init2[2]);
    FlattenThree(Init3[0], Init3[1], Init3[2]);
  }

  lemma InitGroupBytesTail()
    ensures Flatten(Init4) == [0xA6, 0xA8, 0x1F, 0xA4]
    ensures Flatten(Init5) == [0xD3, 0x00, 0xD5, 0x80, 0xD9, 0x22]
    ensures Flatten(Init6) == [0xDA, 0x02, 0xDB, 0x20, 0x8D, 0x14]
  {
    FlattenThree(Init4[0], Init4[1], Init4[2]);
    FlattenThree(Init5[0], Init5[1], Init5[2]);
    FlattenThree(Init6[0], Init6[1], Init6[2]);
  }

  /** Three commands back to back. */
  lemma FlattenThree(a: RawCommand, b: RawCommand, c: RawCommand)
    ensures Flatten([a, b, c]) == [a.op] + a.args + [b.op] + b.args + [c.op] + c.args
  {
    FlattenCons(a, [b, c]);
    FlattenCons(b, [c]);
    FlattenOne(c);
    assert [a] + [b, c] == [a, b, c] && [b] + [c] == [b, c];
  }

  /** `begin`: the init sequence as one command transmission; it reads
      back as the meanings of its eighteen commands. */
  function Begin(st: State): (r: Step)
    ensures r.st == st && |r.frames| == 1 && r.frames[0].Command?
    ensures Decode(r.frames[0].bytes) == Some(Meanings(InitSequence))
  {
    InitBytesAreCommands();
    Step(st, [Command(InitBytes)])
  }

  /** What the legacy init sets up: the panel flipped both ways, a 32-row
      multiplex and the charge pump on, as the current driver's rotated
      128x32 table does, but also horizontal addressing mode (20h, 00b),
      under which the page-mode cursor commands of `setCursor` do not move
      the write pointer the way page addressing would. */
  lemma InitMeaning()
    ensures |Meanings(InitSequence)| == 18
    ensures Meanings(InitSequence)[0] == DisplayPower(false)
    ensures Meanings(InitSequence)[1] == AddressingMode(0)
    ensures Meanings(InitSequence)[3] == ComScanRemapped(true)
    ensures Meanings(InitSequence)[8] == SegmentRemap(true)
    ensures Meanings(InitSequence)[10] == MultiplexRatio(32)
    ensures Meanings(InitSequence)[17] == Other(0x8D, [0x14])
  {
    InitHeadMeaning();
    InitTailMeaning();
  }

  lemma InitHeadMeaning()
    ensures |InitSequence| == 18
    ensures Meaning(InitSequence[0]) == DisplayPower(false)
    ensures Meaning(InitSequence[1]) == AddressingMode(0)
    ensures Meaning(InitSequence[3]) == ComScanRemapped(true)
    ensures Meaning(InitSequence[8]) == SegmentRemap(true)
  {
    assert InitSequence[0] == Init1[0] && InitSequence[1] == Init1[1];
    assert InitSequence[3] == Init2[0] && InitSequence[8] == Init3[2];
  }

  lemma InitTailMeaning()
    ensures |InitSequence| == 18
    ensures Meaning(InitSequence[10]) == MultiplexRatio(32)
    ensures Meaning(InitSequence[17]) == Other(0x8D, [0x14])
  {
    assert InitSequence[10] == Init4[1] && InitSequence[17] == Init6[2];
  }

  /** Every command of the current driver's init sequence (the rotated
      128x32 table) is also in the legacy one. */
  lemma InitCoversCurrent()
    ensures forall i :: 0 <= i < |InitTables.Init128x32r| ==> InitTables.Init128x32r[i] in InitSequence
  {
    var cs := InitTables.Init128x32r;
    assert cs[0] == InitSequence[3] && cs[1] == InitSequence[8];
    assert cs[2] == InitSequence[10] && cs[3] == InitSequence[15] && cs[4] == InitSequence[17];
  }
}
