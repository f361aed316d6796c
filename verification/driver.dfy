/**
  The current driver (`src/Tiny4kOLED.cpp`): cursor addressing, text
  placement, fills, bitmaps and double buffering for a 128x32 panel of
  four pages.

  The driver's file-scope globals (`oledFont`, `oledX`, `oledY`,
  `renderingFrame`, `drawingFrame`) are one immutable `State`; every
  operation returns the new state together with the transmissions it puts
  on the bus, as the controller receives them when every byte is accepted
  (the retry rule for refused bytes is `Bus.SendByte`).
*/
module Driver {
  import opened Bytes
  import opened Ssd1306
  import opened Common
  import InitTables

  /** `SSD1306_PAGES`: the panel is four pages (32 pixel rows) high. */
  const PAGES: byte := 4

  /** The font is the eight-field `DCfont` of `Tiny4kOLED_common.h`; the
      driver is compiled against the five-field one of `Tiny4kOLED.h`
      (bitmap, width, height, first, last), and it reads only those five.
      `renderingFrame` is the page-address opcode base (B0h or B4h) of the
      half of GDDRAM being drawn into; `drawingFrame` is the start-line
      opcode (40h or 60h) of the half being shown. */
  datatype State = State(font: Option<DCFont>, x: byte, y: byte, renderingFrame: byte, drawingFrame: byte)

  /** A state and the transmissions that led to it. */
  datatype Step = Step(st: State, frames: seq<Frame>)

  /** The globals before any call. */
  const Initial: State := State(None, 0, 0, 0xB0, 0x40)

  /** The selectors only ever hold one of their two values. */
  predicate Valid(st: State)
  {
    && (st.renderingFrame == 0xB0 || st.renderingFrame == 0xB4)
    && (st.drawingFrame == 0x40 || st.drawingFrame == 0x60)
  }

  /** `ssd1306_init_sequence`, sent by `begin` as one command transmission. */
  const InitSequence: seq<byte> := [0xC8, 0xA1, 0xA8, 0x1F, 0xDA, 0x02, 0x8D, 0x14]

  /** The init sequence is the header's table for a rotated 128x32 panel. */
  lemma InitSequenceIsTable()
    ensures InitSequence == Flatten(InitTables.Init128x32r)
  {
    var cs := InitTables.Init128x32r;
    assert cs == [cs[0], cs[1]] + [cs[2], cs[3], cs[4]];
    FlattenAppend([cs[0], cs[1]], [cs[2], cs[3], cs[4]]);
    FlattenAppend([cs[2]], [cs[3], cs[4]]);
    FlattenAppend([cs[3]], [cs[4]]);
    FlattenAppend([cs[0]], [cs[1]]);
    FlattenOne(cs[0]);
    FlattenOne(cs[1]);
    FlattenOne(cs[2]);
    FlattenOne(cs[3]);
    FlattenOne(cs[4]);
    assert [cs[2], cs[3], cs[4]] == [cs[2]] + [cs[3], cs[4]];
    assert [cs[3], cs[4]] == [cs[3]] + [cs[4]];
    assert [cs[0], cs[1]] == [cs[0]] + [cs[1]];
  }

  /** `begin`: the init sequence is whole commands that flip the panel,
      select a 32-row multiplex and sequential COM pins, and enable the
      charge pump. */
  function Begin(st: State): (r: Step)
    ensures r.st == st && |r.frames| == 1 && r.frames[0].Command?
    ensures Decode(r.frames[0].bytes) == Some([ComScanRemapped(true), SegmentRemap(true),
      MultiplexRatio(32), ComPins(false, false), Other(0x8D, [0x14])])
  {
    InitSequenceIsTable();
    InitSequenceMeaning();
    Step(st, [Command(InitSequence)])
  }

  lemma InitSequenceMeaning()
    ensures Decode(Flatten(InitTables.Init128x32r)) == Some([ComScanRemapped(true), SegmentRemap(true),
      MultiplexRatio(32), ComPins(false, false), Other(0x8D, [0x14])])
  {
    var cs := InitTables.Init128x32r;
    DecodeFlatten(cs);
    InitEntries();
    MeaningsOfFive(cs);
  }

  /** The meanings of a list of five commands, one by one. */
  lemma MeaningsOfFive(cs: seq<Command>)
    requires |cs| == 5
    ensures Meanings(cs) == [Meaning(cs[0]), Meaning(cs[1]), Meaning(cs[2]), Meaning(cs[3]), Meaning(cs[4])]
  {
  }

  lemma InitEntries()
    ensures var cs := InitTables.Init128x32r;
      && |cs| == 5
      && Meaning(cs[0]) == ComScanRemapped(true)
      && Meaning(cs[1]) == SegmentRemap(true)
      && Meaning(cs[2]) == MultiplexRatio(32)
      && Meaning(cs[3]) == ComPins(false, false)
      && Meaning(cs[4]) == Other(0x8D, [0x14])
  {
    InitFlipEntries();
    InitSetupEntries();
  }

  lemma InitFlipEntries()
    ensures var cs := InitTables.Init128x32r;
      && |cs| == 5
      && Meaning(cs[0]) == ComScanRemapped(true)
      && Meaning(cs[1]) == SegmentRemap(true)
  {
  }

  lemma InitSetupEntries()
    ensures var cs := InitTables.Init128x32r;
      && |cs| == 5
      && Meaning(cs[2]) == MultiplexRatio(32)
      && Meaning(cs[3]) == ComPins(false, false)
      && Meaning(cs[4]) == Other(0x8D, [0x14])
  {
  }

  function SetFont(st: State, font: DCFont): (r: State)
    ensures r.font == Some(font) && r.x == st.x && r.y == st.y
    ensures Valid(st) ==> Valid(r)
  {
    st.(font := Some(font))
  }

  /** The page-address opcode `setCursor` sends for row `y`. */
  function PageOpcode(renderingFrame: byte, y: byte): byte
  {
    renderingFrame | (y & 0x07)
  }

  /** The three bytes `setCursor(x, y)` sends: the page opcode, then the
      column's high nibble under 10h and its low nibble under 00h. */
  function CursorBytes(renderingFrame: byte, x: byte, y: byte): seq<byte>
  {
    [PageOpcode(renderingFrame, y), 0x10 | ((x & 0xF0) >> 4), x & 0x0F]
  }

  /** `setCursor(x, y)`: one three-byte command transmission; the cursor
      becomes `(x, y)`. */
  function SetCursor(st: State, x: byte, y: byte): (r: Step)
    ensures r.st == st.(x := x, y := y)
    ensures |r.frames| == 1 && r.frames[0].Command? && r.frames[0].bytes == CursorBytes(st.renderingFrame, x, y)
    ensures Payloads(r.frames) == []
  {
    Step(st.(x := x, y := y), [Command(CursorBytes(st.renderingFrame, x, y))])
  }

  /** The column survives its split into two nibbles. */
  lemma CursorColumn(renderingFrame: byte, x: byte, y: byte)
    ensures var b := CursorBytes(renderingFrame, x, y); ((b[1] & 0x0F) << 4) | b[2] == x
  {
  }

  /** What the controller reads from `setCursor`: with a valid render frame,
      a page command, then the high and the low nibble of `x`, which together
      put the GDDRAM pointer at page `y` of that frame and column `x`. */
  lemma CursorDecodes(renderingFrame: byte, x: byte, y: byte)
    requires renderingFrame == 0xB0 || renderingFrame == 0xB4
    ensures Decode(CursorBytes(renderingFrame, x, y))
         == Some([PageStart(PageOpcode(renderingFrame, y) & 7), HighColumn(x >> 4), LowColumn(x & 0x0F)])
    ensures forall p ::
              Pointed(p, Command(CursorBytes(renderingFrame, x, y))) == Pointer(PageOpcode(renderingFrame, y) & 7, x as int)
  {
    CursorCommands(renderingFrame, x, y);
    forall p
      ensures Pointed(p, Command(CursorBytes(renderingFrame, x, y))) == Pointer(PageOpcode(renderingFrame, y) & 7, x as int)
    {
      CursorPoints(renderingFrame, x, y, p);
    }
  }

  lemma CursorCommands(renderingFrame: byte, x: byte, y: byte)
    requires renderingFrame == 0xB0 || renderingFrame == 0xB4
    ensures Decode(CursorBytes(renderingFrame, x, y))
         == Some([PageStart(PageOpcode(renderingFrame, y) & 7), HighColumn(x >> 4), LowColumn(x & 0x0F)])
  {
    var b := CursorBytes(renderingFrame, x, y);
    CursorFields(renderingFrame, x, y);
    assert b == [b[0], b[1], b[2]];
    AddressCommands(b[0], b[1], b[2]);
  }

  lemma CursorPoints(renderingFrame: byte, x: byte, y: byte, p: Pointer)
    requires renderingFrame == 0xB0 || renderingFrame == 0xB4
    ensures Pointed(p, Command(CursorBytes(renderingFrame, x, y))) == Pointer(PageOpcode(renderingFrame, y) & 7, x as int)
  {
    var b := CursorBytes(renderingFrame, x, y);
    CursorFields(renderingFrame, x, y);
    assert b == [b[0], b[1], b[2]];
    AddressDecodes(b[0], b[1], b[2]);
  }

  /** The three bytes of `setCursor` are a page opcode and the two column
      nibbles of `x`. */
  lemma CursorFields(renderingFrame: byte, x: byte, y: byte)
    requires renderingFrame == 0xB0 || renderingFrame == 0xB4
    ensures var b := CursorBytes(renderingFrame, x, y);
      && 0xB0 <= b[0] <= 0xB7 && 0x10 <= b[1] <= 0x1F && b[2] <= 0x0F
      && b[1] & 0x0F == x >> 4
      && (b[1] & 0x0F) as int * 16 + b[2] as int == x as int
  {
    Nibbles(x);
  }

  /** A page opcode and the two column nibbles, as the controller reads
      them, and where they put the GDDRAM pointer. */
  lemma AddressDecodes(page: byte, high: byte, low: byte)
    requires 0xB0 <= page <= 0xB7 && 0x10 <= high <= 0x1F && low <= 0x0F
    ensures Decode([page, high, low]) == Some([PageStart(page & 7), HighColumn(high & 0x0F), LowColumn(low)])
    ensures forall p ::
              Pointed(p, Command([page, high, low])) == Pointer(page & 7, (high & 0x0F) as int * 16 + low as int)
  {
    AddressCommands(page, high, low);
    forall p
      ensures Pointed(p, Command([page, high, low])) == Pointer(page & 7, (high & 0x0F) as int * 16 + low as int)
    {
      PointPageColumn(p, page & 7, high & 0x0F, low);
    }
  }

  lemma AddressCommands(page: byte, high: byte, low: byte)
    requires 0xB0 <= page <= 0xB7 && 0x10 <= high <= 0x1F && low <= 0x0F
    ensures Decode([page, high, low]) == Some([PageStart(page & 7), HighColumn(high & 0x0F), LowColumn(low)])
  {
    var highs := [HighColumn(high & 0x0F), LowColumn(low)];
    ColumnCommands(high, low);
    MeaningPage(page);
    DecodeCons(page, [], [high, low], highs);
    assert [page] + [] + [high, low] == [page, high, low];
    assert [PageStart(page & 7)] + highs == [PageStart(page & 7), HighColumn(high & 0x0F), LowColumn(low)];
  }

  lemma ColumnCommands(high: byte, low: byte)
    requires 0x10 <= high <= 0x1F && low <= 0x0F
    ensures Decode([high, low]) == Some([HighColumn(high & 0x0F), LowColumn(low)])
  {
    var lows := [LowColumn(low)];
    LowCommand(low);
    MeaningHigh(high);
    DecodeCons(high, [], [low], lows);
    assert [high] + [] + [low] == [high, low];
    assert [HighColumn(high & 0x0F)] + lows == [HighColumn(high & 0x0F), LowColumn(low)];
  }

  lemma LowCommand(low: byte)
    requires low <= 0x0F
    ensures Decode([low]) == Some([LowColumn(low)])
  {
    assert Decode([]) == Some([]);
    MeaningLow(low);
    DecodeCons(low, [], [], []);
    assert [low] + [] + [] == [low];
    assert [LowColumn(low)] + [] == [LowColumn(low)];
  }

  /** Rows 0-3 of frame 0 are pages 0-3 and rows 0-3 of frame 1 are pages
      4-7, so the two frames never share a page. */
  lemma PageOfRow(renderingFrame: byte, y: byte)
    requires renderingFrame == 0xB0 || renderingFrame == 0xB4
    requires y < PAGES
    ensures PageOpcode(renderingFrame, y) & 7 == (if renderingFrame == 0xB4 then 4 else 0) + y
  {
  }

  /** The column is the two nibbles put back together. */
  lemma Nibbles(x: byte)
    ensures ((0x10 | ((x & 0xF0) >> 4)) & 0x0F) as int * 16 + (x & 0x0F) as int == x as int
    ensures (0x10 | ((x & 0xF0) >> 4)) & 0x0F == x >> 4
  {
  }

  // newLine

  /** `newLine(fontHeight)`: move down by the font height, but never so far
      that a line of that height would leave the panel; then go to the
      start of that line. */
  function NewLine(st: State, h: byte): (r: Step)
    ensures r.st == st.(x := 0, y := r.st.y)
    ensures r.frames == [Command(CursorBytes(st.renderingFrame, 0, r.st.y))]
    ensures 1 <= h <= PAGES && st.y as int + h as int <= PAGES as int ==>
      && r.st.y as int == Min(st.y as int + h as int, PAGES as int - h as int)
      && r.st.y as int + h as int <= PAGES as int
  {
    var y := st.y + h;
    var y' := if y as int > PAGES as int - h as int then PAGES - h else y;
    SetCursor(st, 0, y')
  }

  /** On the last line that has room for the font, a new line stays there. */
  lemma NewLineOnLastLine(st: State, h: byte)
    requires 1 <= h <= PAGES && st.y as int == PAGES as int - h as int
    ensures NewLine(st, h).st == st.(x := 0)
  {
  }

  // write

  /** How many times the glyph loop of `write` runs: `line` starts at the
      font height and the loop ends when its decrement reaches zero, so a
      height of 0 wraps round to 256 rows. */
  function Rows(h: byte): (n: nat)
    ensures 1 <= n <= 256
    ensures h != 0 ==> n == h as int
  {
    if h == 0 then 256 else h as int
  }

  /** The `count` bytes of `s` from index `from`; none when they are not
      all in `s`. */
  function Slice(s: seq<byte>, from: int, count: nat): seq<byte>
  {
    if 0 <= from && from + count <= |s| then s[from .. from + count] else []
  }

  /** The number of bytes in `n` runs of `w` bytes each. */
  function Size(w: nat, n: nat): nat
  {
    if n == 0 then 0 else w + Size(w, n - 1)
  }

  /** `n` runs of `w` bytes are `w * n` bytes. */
  lemma {:induction false} SizeIsProduct(w: nat, n: nat)
    ensures Size(w, n) == w * n
  {
    if n > 0 {
      SizeIsProduct(w, n - 1);
      Distribute(w, n - 1);
    }
  }

  lemma Distribute(w: int, n: int)
    ensures w * (n + 1) == w + w * n
  {
  }

  /** `(c - first) * width * height`, computed in `int`. */
  function GlyphOffset(f: DCFont, c: byte): int
  {
    (c as int - f.first as int) * f.width as int * f.height as int
  }

  /** Every byte the glyph loop reads lies inside the font bitmap; reading
      past either end of it is undefined in the C code. */
  predicate GlyphInBitmap(f: DCFont, c: byte)
  {
    && 0 <= GlyphOffset(f, c)
    && GlyphOffset(f, c) + Size(f.width as int, Rows(f.height)) <= |f.bitmap|
  }

  /** The row of the panel `k` rows below `y`, in `uint8_t` arithmetic. */
  function Below(y: byte, k: nat): byte
  {
    if k == 0 then y else Below(y, k - 1) + 1
  }

  /** `ps` are `n` runs of `w` consecutive bytes of `source`, the first
      starting at `offset`. */
  predicate Runs(ps: seq<seq<byte>>, source: seq<byte>, offset: int, w: nat, n: nat)
  {
    && 0 <= offset && offset + Size(w, n) <= |source|
    && |ps| == n
    && (forall k :: 0 <= k < n ==> |ps[k]| == w)
    && Concat(ps) == source[offset .. offset + Size(w, n)]
  }

  /** The glyph loop of `write` with `n` passes to go, its `uint8_t`
      counter `line` holding `n` modulo 256, the cursor at `(x, y)`. Each
      pass sends the next `span` bitmap bytes as one data transmission and
      then moves the cursor as `NextX`, `NextY` and `NextCommands` say. `w`
      is the glyph width as the byte the cursor arithmetic uses and `span`
      the same width as a count of bitmap bytes. The cursor is carried in
      `x` and `y` rather than in `st`, whose other fields the loop leaves
      alone. */
  function DrawRows(st: State, x: byte, y: byte, bitmap: seq<byte>, w: byte, span: nat, h: byte, offset: int, n: nat): (r: Step)
    requires 1 <= n <= 256
    requires 0 <= offset && offset + Size(span, n) <= |bitmap|
    ensures r.st.font == st.font && r.st.renderingFrame == st.renderingFrame && r.st.drawingFrame == st.drawingFrame
    decreases n
  {
    var head := [Data(Slice(bitmap, offset, span))] + NextCommands(st, x, y, w, h, n);
    var x1 := NextX(x, w, h, n);
    var y1 := NextY(y, h, n);
    if n == 1 then Step(st.(x := x1, y := y1), head)
    else
      var rest := DrawRows(st, x1, y1, bitmap, w, span, h, offset + span, n - 1);
      Step(rest.st, head + rest.frames)
  }

  /** The column after a pass: unchanged while a font two or more pages
      high goes down (the counter above 1), else `w` further right. */
  function NextX(x: byte, w: byte, h: byte, n: nat): byte
  {
    if h != 1 && 1 < n < 256 then x else x + w
  }

  /** The row after a pass: unchanged for a one-page font, one down while
      the counter is above 1, else back up by `h - 1`. */
  function NextY(y: byte, h: byte, n: nat): byte
  {
    if h == 1 then y else if 1 < n < 256 then y + 1 else Up(y, h)
  }

  /** The row `h - 1` rows above `y`, in `uint8_t` arithmetic. */
  function Up(y: byte, h: byte): byte
  {
    y - (h - 1)
  }

  /** What a pass sends after its data: nothing for a one-page font (only
      `oledX` moves), else the cursor command for the next position. */
  function NextCommands(st: State, x: byte, y: byte, w: byte, h: byte, n: nat): seq<Frame>
  {
    if h == 1 then [] else [Command(CursorBytes(st.renderingFrame, NextX(x, w, h, n), NextY(y, h, n)))]
  }

  /** The cursor command of a pass is what `setCursor` sends, and it
      carries no data. */
  lemma NextCommandsAreSetCursor(st: State, x: byte, y: byte, w: byte, h: byte, n: nat)
    ensures Payloads(NextCommands(st, x, y, w, h, n)) == []
    ensures h != 1 ==> NextCommands(st, x, y, w, h, n) == SetCursor(st, NextX(x, w, h, n), NextY(y, h, n)).frames
  {
    if h != 1 {
      var c := SetCursor(st, NextX(x, w, h, n), NextY(y, h, n));
      assert c.frames == [c.frames[0]];
    }
  }

  /** The passes send `n` runs of `span` bytes read on from `offset`
      without a gap. */
  lemma {:induction false} DrawRowsRuns(st: State, x: byte, y: byte, bitmap: seq<byte>, w: byte, span: nat, h: byte, offset: int, n: nat)
    requires 1 <= n <= 256
    requires 0 <= offset && offset + Size(span, n) <= |bitmap|
    ensures Runs(Payloads(DrawRows(st, x, y, bitmap, w, span, h, offset, n).frames), bitmap, offset, span, n)
    decreases n
  {
    if n == 1 {
      DrawRowsHead(st, x, y, bitmap, w, span, h, offset, n);
      RunsOne(DrawRows(st, x, y, bitmap, w, span, h, offset, n).frames, bitmap, offset, span);
    } else {
      DrawRowsRuns(st, NextX(x, w, h, n), NextY(y, h, n), bitmap, w, span, h, offset + span, n - 1);
      DrawRowsRunsStep(st, x, y, bitmap, w, span, h, offset, n);
    }
  }

  /** The first pass sends the first `span` bytes from `offset` as its only
      payload. */
  lemma DrawRowsHead(st: State, x: byte, y: byte, bitmap: seq<byte>, w: byte, span: nat, h: byte, offset: int, n: nat)
    requires 1 <= n <= 256
    requires 0 <= offset && offset + Size(span, n) <= |bitmap|
    ensures offset + span <= |bitmap|
    ensures Payloads([Data(Slice(bitmap, offset, span))] + NextCommands(st, x, y, w, h, n)) == [bitmap[offset .. offset + span]]
    ensures n == 1 ==>
      DrawRows(st, x, y, bitmap, w, span, h, offset, n).frames == [Data(Slice(bitmap, offset, span))] + NextCommands(st, x, y, w, h, n)
  {
    NextCommandsAreSetCursor(st, x, y, w, h, n);
    DataFirst(Data(Slice(bitmap, offset, span)), NextCommands(st, x, y, w, h, n));
  }

  /** The step of `DrawRowsRuns`: the first run followed by the runs of
      the remaining passes. */
  lemma DrawRowsRunsStep(st: State, x: byte, y: byte, bitmap: seq<byte>, w: byte, span: nat, h: byte, offset: int, n: nat)
    requires 1 < n <= 256
    requires 0 <= offset && offset + Size(span, n) <= |bitmap|
    requires Runs(Payloads(DrawRows(st, NextX(x, w, h, n), NextY(y, h, n), bitmap, w, span, h, offset + span, n - 1).frames), bitmap, offset + span, span, n - 1)
    ensures Runs(Payloads(DrawRows(st, x, y, bitmap, w, span, h, offset, n).frames), bitmap, offset, span, n)
  {
    var rest := DrawRows(st, NextX(x, w, h, n), NextY(y, h, n), bitmap, w, span, h, offset + span, n - 1);
    DrawRowsHead(st, x, y, bitmap, w, span, h, offset, n);
    RunsPrepend([Data(Slice(bitmap, offset, span))] + NextCommands(st, x, y, w, h, n), rest.frames, bitmap, offset, span, n - 1);
  }

  /** No runs at all. */
  lemma RunsNone(source: seq<byte>, offset: int, w: nat)
    requires 0 <= offset <= |source|
    ensures Runs(Payloads([]), source, offset, w, 0)
  {
    assert source[offset .. offset] == [];
  }

  /** A single run. */
  lemma RunsOne(head: seq<Frame>, source: seq<byte>, offset: int, w: nat)
    requires 0 <= offset && offset + w <= |source|
    requires Payloads(head) == [source[offset .. offset + w]]
    ensures Runs(Payloads(head), source, offset, w, 1)
  {
    ConcatLeading(source[offset .. offset + w], []);
    assert [source[offset .. offset + w]] + [] == [source[offset .. offset + w]];
    assert source[offset .. offset + w] + [] == source[offset .. offset + w];
  }

  /** One more run in front of `n` runs: the runs continue the source
      without a gap. */
  lemma RunsPrepend(head: seq<Frame>, rest: seq<Frame>, source: seq<byte>, offset: int, w: nat, n: nat)
    requires 0 <= offset && offset + w <= |source|
    requires Payloads(head) == [source[offset .. offset + w]]
    requires Runs(Payloads(rest), source, offset + w, w, n)
    ensures Runs(Payloads(head + rest), source, offset, w, n + 1)
  {
    PayloadsAppend(head, rest);
    RunsCons(source[offset .. offset + w], Payloads(rest), source, offset, w, n);
  }

  /** The same for the payloads themselves. */
  lemma RunsCons(run: seq<byte>, qs: seq<seq<byte>>, source: seq<byte>, offset: int, w: nat, n: nat)
    requires 0 <= offset && offset + w <= |source|
    requires run == source[offset .. offset + w]
    requires Runs(qs, source, offset + w, w, n)
    ensures Runs([run] + qs, source, offset, w, n + 1)
  {
    var ps := [run] + qs;
    var mid := offset + w;
    var end := offset + Size(w, n + 1);
    assert end == mid + Size(w, n);
    assert Concat(ps) == source[offset .. end] by {
      ConcatLeading(run, qs);
      SliceSplit(source, offset, mid, end);
    }
    RunsConsLengths(run, qs, w, n);
  }

  lemma RunsConsLengths(run: seq<byte>, qs: seq<seq<byte>>, w: nat, n: nat)
    requires |run| == w && |qs| == n
    requires forall k :: 0 <= k < n ==> |qs[k]| == w
    ensures forall k :: 0 <= k < n + 1 ==> |([run] + qs)[k]| == w
  {
    forall k | 0 <= k < n + 1 ensures |([run] + qs)[k]| == w {
      if k > 0 {
        assert ([run] + qs)[k] == qs[k - 1];
      }
    }
  }

  /** A data transmission followed by commands carries one payload. */
  lemma DataFirst(data: Frame, after: seq<Frame>)
    requires data.Data? && Payloads(after) == []
    ensures Payloads([data] + after) == [data.bytes]
  {
    var fs := [data] + after;
    assert fs[0] == data;
    assert fs[1..] == after;
  }

  /** Commands followed by a data transmission carry one payload. */
  lemma DataLast(before: seq<Frame>, data: Frame)
    requires data.Data? && Payloads(before) == []
    ensures Payloads(before + [data]) == [data.bytes]
  {
    PayloadsAppend(before, [data]);
    assert [data][1..] == [];
  }

  lemma ConcatLeading(b: seq<byte>, ps: seq<seq<byte>>)
    ensures Concat([b] + ps) == b + Concat(ps)
  {
    assert ([b] + ps)[0] == b;
    assert ([b] + ps)[1..] == ps;
  }

  lemma SliceSplit(s: seq<byte>, i: int, j: int, k: int)
    requires 0 <= i <= j <= k <= |s|
    ensures s[i..k] == s[i..j] + s[j..k]
  {
  }

  /** For a font two or more pages high, the glyph loop alternates data
      and cursor commands: after each row but the last it goes down one
      page at the column where it started, and after the last row back up
      by `h - 1` pages, `w` columns to the right. */
  lemma DrawRowsPages(st: State, x: byte, y: byte, bitmap: seq<byte>, w: byte, span: nat, h: byte, offset: int, n: nat)
    requires 1 <= n < 256 && h != 1
    requires 0 <= offset && offset + Size(span, n) <= |bitmap|
    ensures var r := DrawRows(st, x, y, bitmap, w, span, h, offset, n);
      && |r.frames| == 2 * n
      && (forall k :: 0 <= k < n ==> r.frames[2 * k].Data?)
      && (forall k :: 0 <= k < n - 1 ==>
            r.frames[2 * k + 1] == Command(CursorBytes(st.renderingFrame, x, Below(y, k + 1))))
      && r.frames[2 * n - 1] == Command(CursorBytes(st.renderingFrame, x + w, Up(Below(y, n - 1), h)))
      && r.st == st.(x := x + w, y := Up(Below(y, n - 1), h))
  {
    DrawRowsEnd(st, x, y, bitmap, w, span, h, offset, n);
    forall k | 0 <= k < n
      ensures DrawRows(st, x, y, bitmap, w, span, h, offset, n).frames[2 * k].Data?
    {
      DrawRowsDataAt(st, x, y, bitmap, w, span, h, offset, n, k);
    }
    forall k | 0 <= k < n - 1
      ensures DrawRows(st, x, y, bitmap, w, span, h, offset, n).frames[2 * k + 1]
        == Command(CursorBytes(st.renderingFrame, x, Below(y, k + 1)))
    {
      DrawRowsCursorAt(st, x, y, bitmap, w, span, h, offset, n, k);
    }
  }

  /** Pass `k` of the glyph loop of a font two or more pages high starts
      with a data transmission. */
  lemma {:induction false} DrawRowsDataAt(st: State, x: byte, y: byte, bitmap: seq<byte>, w: byte, span: nat, h: byte, offset: int, n: nat, k: nat)
    requires 1 <= n < 256 && h != 1 && k < n
    requires 0 <= offset && offset + Size(span, n) <= |bitmap|
    ensures var r := DrawRows(st, x, y, bitmap, w, span, h, offset, n);
      2 * k + 1 < |r.frames| && r.frames[2 * k].Data?
    decreases n
  {
    if k == 0 {
      DrawRowsFirstPair(st, x, y, bitmap, w, span, h, offset, n, k);
    } else {
      DrawRowsDataAt(st, x, y + 1, bitmap, w, span, h, offset + span, n - 1, k - 1);
      DrawRowsShift(st, x, y, bitmap, w, span, h, offset, n, k);
    }
  }

  /** Pass `k` of the glyph loop of a font two or more pages high, unless
      it is the last, ends with the cursor one page further down at the
      starting column. */
  lemma {:induction false} DrawRowsCursorAt(st: State, x: byte, y: byte, bitmap: seq<byte>, w: byte, span: nat, h: byte, offset: int, n: nat, k: nat)
    requires 1 <= n < 256 && h != 1 && k < n - 1
    requires 0 <= offset && offset + Size(span, n) <= |bitmap|
    ensures CursorAfterPass(st, x, y, bitmap, w, span, h, offset, n, k)
    decreases n
  {
    if k == 0 {
      DrawRowsFirstPair(st, x, y, bitmap, w, span, h, offset, n, k);
    } else {
      DrawRowsCursorAt(st, x, y + 1, bitmap, w, span, h, offset + span, n - 1, k - 1);
      DrawRowsCursorLater(st, x, y, bitmap, w, span, h, offset, n, k);
    }
  }

  /** After pass `k` of the glyph loop the cursor is `k + 1` pages below
      `y`, at column `x`. */
  predicate CursorAfterPass(st: State, x: byte, y: byte, bitmap: seq<byte>, w: byte, span: nat, h: byte, offset: int, n: nat, k: nat)
    requires 1 <= n < 256
    requires 0 <= offset && offset + Size(span, n) <= |bitmap|
  {
    var r := DrawRows(st, x, y, bitmap, w, span, h, offset, n);
    2 * k + 1 < |r.frames| && r.frames[2 * k + 1] == Command(CursorBytes(st.renderingFrame, x, Below(y, k + 1)))
  }

  /** The step of `DrawRowsCursorAt` past the first pass: pass `k` is
      pass `k - 1` of the loop that starts one page lower. */
  lemma DrawRowsCursorLater(st: State, x: byte, y: byte, bitmap: seq<byte>, w: byte, span: nat, h: byte, offset: int, n: nat, k: nat)
    requires 1 <= n < 256 && h != 1 && 1 <= k < n - 1
    requires 0 <= offset && offset + Size(span, n) <= |bitmap|
    requires CursorAfterPass(st, x, y + 1, bitmap, w, span, h, offset + span, n - 1, k - 1)
    ensures CursorAfterPass(st, x, y, bitmap, w, span, h, offset, n, k)
  {
    var r := DrawRows(st, x, y, bitmap, w, span, h, offset, n);
    var rest := DrawRows(st, x, y + 1, bitmap, w, span, h, offset + span, n - 1);
    DrawRowsShift(st, x, y, bitmap, w, span, h, offset, n, k);
    CursorStep(r.frames, rest.frames, st.renderingFrame, x, y, k);
  }

  /** The transmissions half of `DrawRowsCursorLater`: a frame equal to
      the cursor command one page lower is the cursor command `k + 1`
      pages below `y`. */
  lemma CursorStep(frames: seq<Frame>, rest: seq<Frame>, renderingFrame: byte, x: byte, y: byte, k: nat)
    requires 1 <= k && 2 * k + 1 < |frames| && 2 * (k - 1) + 1 < |rest|
    requires frames[2 * k + 1] == rest[2 * (k - 1) + 1]
    requires rest[2 * (k - 1) + 1] == Command(CursorBytes(renderingFrame, x, Below(y + 1, k)))
    ensures frames[2 * k + 1] == Command(CursorBytes(renderingFrame, x, Below(y, k + 1)))
  {
    BelowShift(y, k + 1);
  }

  /** The first pass of the glyph loop of a font two or more pages high:
      a data transmission, then the cursor one page down when more passes
      follow. */
  lemma DrawRowsFirstPair(st: State, x: byte, y: byte, bitmap: seq<byte>, w: byte, span: nat, h: byte, offset: int, n: nat, k: nat)
    requires 1 <= n < 256 && h != 1 && k == 0
    requires 0 <= offset && offset + Size(span, n) <= |bitmap|
    ensures var r := DrawRows(st, x, y, bitmap, w, span, h, offset, n);
      && 2 * k + 1 < |r.frames|
      && r.frames[2 * k].Data?
      && (k < n - 1 ==> r.frames[2 * k + 1] == Command(CursorBytes(st.renderingFrame, x, Below(y, k + 1))))
  {
    var head := [Data(Slice(bitmap, offset, span))] + NextCommands(st, x, y, w, h, n);
    DrawRowsCount(st, x, y, bitmap, w, span, h, offset, n);
    assert DrawRows(st, x, y, bitmap, w, span, h, offset, n).frames[..2] == head;
  }

  /** A font two or more pages high sends two transmissions per pass. */
  lemma {:induction false} DrawRowsCount(st: State, x: byte, y: byte, bitmap: seq<byte>, w: byte, span: nat, h: byte, offset: int, n: nat)
    requires 1 <= n <= 256 && h != 1
    requires 0 <= offset && offset + Size(span, n) <= |bitmap|
    ensures |DrawRows(st, x, y, bitmap, w, span, h, offset, n).frames| == 2 * n
    decreases n
  {
    if n > 1 {
      DrawRowsCount(st, NextX(x, w, h, n), NextY(y, h, n), bitmap, w, span, h, offset + span, n - 1);
    }
  }

  /** Past its first pass, the glyph loop of a font two or more pages
      high sends what the loop one row down with one pass less sends. */
  lemma DrawRowsShift(st: State, x: byte, y: byte, bitmap: seq<byte>, w: byte, span: nat, h: byte, offset: int, n: nat, k: nat)
    requires 1 < n < 256 && h != 1 && 1 <= k < n
    requires 0 <= offset && offset + Size(span, n) <= |bitmap|
    ensures var r := DrawRows(st, x, y, bitmap, w, span, h, offset, n);
      var rest := DrawRows(st, x, y + 1, bitmap, w, span, h, offset + span, n - 1);
      && |r.frames| == 2 * n && |rest.frames| == 2 * (n - 1)
      && r.frames[2 * k] == rest.frames[2 * (k - 1)]
      && r.frames[2 * k + 1] == rest.frames[2 * (k - 1) + 1]
  {
    var head := [Data(Slice(bitmap, offset, span))] + NextCommands(st, x, y, w, h, n);
    var rest := DrawRows(st, x, y + 1, bitmap, w, span, h, offset + span, n - 1);
    DrawRowsCount(st, x, y + 1, bitmap, w, span, h, offset + span, n - 1);
    PairShift(head, rest.frames, k);
  }

  /** The last pass of the glyph loop of a font two or more pages high
      sends the cursor back up by `h - 1` pages, `w` columns on. */
  lemma DrawRowsEnd(st: State, x: byte, y: byte, bitmap: seq<byte>, w: byte, span: nat, h: byte, offset: int, n: nat)
    requires 1 <= n < 256 && h != 1
    requires 0 <= offset && offset + Size(span, n) <= |bitmap|
    ensures var r := DrawRows(st, x, y, bitmap, w, span, h, offset, n);
      && |r.frames| == 2 * n
      && r.frames[2 * n - 1] == Command(CursorBytes(st.renderingFrame, x + w, Up(Below(y, n - 1), h)))
      && r.st == st.(x := x + w, y := Up(Below(y, n - 1), h))
  {
    DrawRowsCount(st, x, y, bitmap, w, span, h, offset, n);
    DrawRowsEndState(st, x, y, bitmap, w, span, h, offset, n);
    DrawRowsLastCursor(st, x, y, bitmap, w, span, h, offset, n);
  }

  lemma {:induction false} DrawRowsEndState(st: State, x: byte, y: byte, bitmap: seq<byte>, w: byte, span: nat, h: byte, offset: int, n: nat)
    requires 1 <= n < 256 && h != 1
    requires 0 <= offset && offset + Size(span, n) <= |bitmap|
    ensures DrawRows(st, x, y, bitmap, w, span, h, offset, n).st == st.(x := x + w, y := Up(Below(y, n - 1), h))
    decreases n
  {
    if n > 1 {
      DrawRowsEndState(st, x, y + 1, bitmap, w, span, h, offset + span, n - 1);
      BelowShift(y, n - 1);
    }
  }

  lemma {:induction false} DrawRowsLastCursor(st: State, x: byte, y: byte, bitmap: seq<byte>, w: byte, span: nat, h: byte, offset: int, n: nat)
    requires 1 <= n < 256 && h != 1
    requires 0 <= offset && offset + Size(span, n) <= |bitmap|
    ensures var r := DrawRows(st, x, y, bitmap, w, span, h, offset, n);
      |r.frames| == 2 * n && r.frames[2 * n - 1] == Command(CursorBytes(st.renderingFrame, x + w, Up(Below(y, n - 1), h)))
    decreases n
  {
    if n == 1 {
      DrawRowsCount(st, x, y, bitmap, w, span, h, offset, n);
    } else {
      DrawRowsLastCursor(st, x, y + 1, bitmap, w, span, h, offset + span, n - 1);
      DrawRowsLastStep(st, x, y, bitmap, w, span, h, offset, n);
    }
  }

  /** The step of `DrawRowsLastCursor`: the last cursor of the loop is
      the last cursor of the loop that starts one page lower. */
  lemma DrawRowsLastStep(st: State, x: byte, y: byte, bitmap: seq<byte>, w: byte, span: nat, h: byte, offset: int, n: nat)
    requires 1 < n < 256 && h != 1
    requires 0 <= offset && offset + Size(span, n) <= |bitmap|
    requires var rest := DrawRows(st, x, y + 1, bitmap, w, span, h, offset + span, n - 1);
      |rest.frames| == 2 * (n - 1)
      && rest.frames[2 * (n - 1) - 1] == Command(CursorBytes(st.renderingFrame, x + w, Up(Below(y + 1, n - 2), h)))
    ensures var r := DrawRows(st, x, y, bitmap, w, span, h, offset, n);
      |r.frames| == 2 * n && r.frames[2 * n - 1] == Command(CursorBytes(st.renderingFrame, x + w, Up(Below(y, n - 1), h)))
  {
    DrawRowsShift(st, x, y, bitmap, w, span, h, offset, n, n - 1);
    BelowShift(y, n - 1);
  }

  /** Past a leading pair, the pairs of a list are those of its tail. */
  lemma PairShift(head: seq<Frame>, rest: seq<Frame>, k: nat)
    requires |head| == 2 && 1 <= k && 2 * k + 1 < |head| + |rest|
    ensures (head + rest)[2 * k] == rest[2 * (k - 1)]
    ensures (head + rest)[2 * k + 1] == rest[2 * (k - 1) + 1]
  {
  }

  /** One row down and then `k - 1` more is `k` rows down. */
  lemma {:induction false} BelowShift(y: byte, k: nat)
    requires k >= 1
    ensures Below(y + 1, k - 1) == Below(y, k)
  {
    if k > 1 {
      BelowShift(y, k - 1);
    }
  }

  /** For a one-page font the single pass is a data transmission and
      moves the cursor right by the glyph width. */
  lemma DrawRowsLine(st: State, x: byte, y: byte, bitmap: seq<byte>, w: byte, span: nat, h: byte, offset: int, n: nat)
    requires h == 1 && n == 1
    requires 0 <= offset && offset + Size(span, n) <= |bitmap|
    ensures var r := DrawRows(st, x, y, bitmap, w, span, h, offset, n);
      && r.frames == [Data(bitmap[offset .. offset + span])]
      && r.st == st.(x := x + w, y := y)
  {
    var data := Data(Slice(bitmap, offset, span));
    assert [data] + [] == [data];
  }

  /** After the glyph loop of a font `h` pages high (1 to 255 pages) the
      cursor is back on the row where the glyph started, `w` columns on. */
  lemma GlyphReturns(st: State, x: byte, y: byte, bitmap: seq<byte>, w: byte, span: nat, h: byte, offset: int)
    requires h != 0 && 0 <= offset && offset + Size(span, Rows(h)) <= |bitmap|
    ensures DrawRows(st, x, y, bitmap, w, span, h, offset, Rows(h)).st == st.(x := x + w, y := y)
  {
    if h == 1 {
      DrawRowsLine(st, x, y, bitmap, w, span, h, offset, Rows(h));
    } else {
      DrawRowsEndState(st, x, y, bitmap, w, span, h, offset, Rows(h));
      BelowCount(y, h);
    }
  }

  /** Going down `h - 1` rows and back up `h - 1` rows is no move. */
  lemma BelowCount(y: byte, h: byte)
    requires h != 0
    ensures Up(Below(y, Rows(h) - 1), h) == y
  {
    BelowOffset(y, Rows(h) - 1);
    BelowZero(h);
  }

  lemma {:induction false} BelowOffset(y: byte, k: nat)
    ensures Below(y, k) == y + Below(0, k)
  {
    if k > 0 {
      BelowOffset(y, k - 1);
    }
  }

  /** `h - 1` single steps from 0 reach `h - 1`. */
  lemma {:induction false} BelowZero(h: byte)
    requires h != 0
    ensures Below(0, Rows(h) - 1) == h - 1
    decreases Rows(h)
  {
    if h != 1 {
      RowsDown(h);
      BelowZero(h - 1);
    }
  }

  lemma RowsDown(line: byte)
    requires line != 1 && line != 0
    ensures Rows(line - 1) == Rows(line) - 1
  {
  }

  /** The state `write` is in before it draws a glyph. */
  predicate WriteDefined(st: State, c: byte)
  {
    st.font.None? || c == 13 || c == 10 || GlyphInBitmap(st.font.value, c)
  }

  /** `write(c)`: nothing without a font or for a carriage return; a line
      feed is `newLine` with the font height; any other code first starts
      a new line when the glyph would not fit before column 128, then
      sends the glyph's rows from the cursor that leaves. A new line only
      moves the cursor, so the glyph loop is handed `st` for the other
      globals and the cursor separately. */
  function Write(st: State, c: byte): (r: Step)
    requires WriteDefined(st, c)
    ensures st.font.None? || c == 13 ==> r == Step(st, [])
    ensures st.font.Some? && c == 10 ==> r == NewLine(st, st.font.value.height)
    ensures r.st.font == st.font && r.st.renderingFrame == st.renderingFrame && r.st.drawingFrame == st.drawingFrame
  {
    if st.font.None? || c == 13 then Step(st, [])
    else
      var f := st.font.value;
      if c == 10 then NewLine(st, f.height)
      else
        var wrap := Wrap(st, f);
        var glyph := DrawGlyph(st, wrap.st.x, wrap.st.y, f, c);
        Step(glyph.st, wrap.frames + glyph.frames)
  }

  /** The glyph loop of `write` for code `c` of font `f`, from `(x, y)`:
      `height` passes (256 for height 0) of `width` bytes each, from
      `(c - first) * width * height`. */
  function DrawGlyph(st: State, x: byte, y: byte, f: DCFont, c: byte): (r: Step)
    requires GlyphInBitmap(f, c)
    ensures r.st.font == st.font && r.st.renderingFrame == st.renderingFrame && r.st.drawingFrame == st.drawingFrame
  {
    DrawRows(st, x, y, f.bitmap, f.width, f.width as int, f.height, GlyphOffset(f, c), Rows(f.height))
  }

  /** A glyph of a font 1 to 255 pages high leaves the cursor on the row
      where it started, `width` columns on. */
  lemma DrawGlyphReturns(st: State, x: byte, y: byte, f: DCFont, c: byte)
    requires GlyphInBitmap(f, c) && f.height != 0
    ensures DrawGlyph(st, x, y, f, c).st == st.(x := x + f.width, y := y)
  {
    GlyphReturns(st, x, y, f.bitmap, f.width, f.width as int, f.height, GlyphOffset(f, c));
  }

  /** The glyph's data: one run of `width` bytes per row, read on from
      the glyph's offset. */
  lemma DrawGlyphRuns(st: State, x: byte, y: byte, f: DCFont, c: byte)
    requires GlyphInBitmap(f, c)
    ensures Runs(Payloads(DrawGlyph(st, x, y, f, c).frames), f.bitmap, GlyphOffset(f, c), f.width as int, Rows(f.height))
  {
    DrawRowsRuns(st, x, y, f.bitmap, f.width, f.width as int, f.height, GlyphOffset(f, c), Rows(f.height));
  }

  /** The new line `write` starts when the glyph would not fit. */
  function Wrap(st: State, f: DCFont): (r: Step)
    ensures Payloads(r.frames) == []
    ensures r.st.font == st.font && r.st.renderingFrame == st.renderingFrame && r.st.drawingFrame == st.drawingFrame
  {
    if st.x as int > 128 - f.width as int then NewLine(st, f.height) else Step(st, [])
  }

  /** The data `write` sends for a glyph: one run of `width` bytes for
      each of the font's rows, read on without a gap from
      `(c - first) * width * height`. */
  lemma WriteGlyph(st: State, c: byte)
    requires WriteDefined(st, c) && st.font.Some? && c != 13 && c != 10
    ensures var f := st.font.value;
      Runs(Payloads(Write(st, c).frames), f.bitmap, GlyphOffset(f, c), f.width as int, Rows(f.height))
  {
    var f := st.font.value;
    var wrap := Wrap(st, f);
    var glyph := DrawGlyph(st, wrap.st.x, wrap.st.y, f, c);
    DrawGlyphRuns(st, wrap.st.x, wrap.st.y, f, c);
    PayloadsAppend(wrap.frames, glyph.frames);
    assert [] + Payloads(glyph.frames) == Payloads(glyph.frames);
  }

  /** Where `write` leaves the cursor for a font one to four pages high on
      a line that fits the panel: `width` columns on, or, when the glyph
      would cross column 128, `width` columns into the next line. */
  lemma WriteCursor(st: State, c: byte)
    requires WriteDefined(st, c) && st.font.Some? && c != 13 && c != 10
    requires 1 <= st.font.value.height <= PAGES
    requires st.y as int + st.font.value.height as int <= PAGES as int
    ensures var f := st.font.value; var r := Write(st, c);
      if st.x as int > 128 - f.width as int then
        r.st.x == f.width && r.st.y as int == Min(st.y as int + f.height as int, PAGES as int - f.height as int)
      else
        r.st.x == st.x + f.width && r.st.y == st.y
  {
    var f := st.font.value;
    if st.x as int > 128 - f.width as int {
      WriteCursorWrapped(st, c);
    } else {
      WriteCursorInLine(st, c);
    }
  }

  lemma WriteCursorInLine(st: State, c: byte)
    requires WriteDefined(st, c) && st.font.Some? && c != 13 && c != 10
    requires 1 <= st.font.value.height
    requires st.x as int <= 128 - st.font.value.width as int
    ensures Write(st, c).st.x == st.x + st.font.value.width && Write(st, c).st.y == st.y
  {
    WriteAfterWrap(st, c);
  }

  lemma WriteCursorWrapped(st: State, c: byte)
    requires WriteDefined(st, c) && st.font.Some? && c != 13 && c != 10
    requires 1 <= st.font.value.height <= PAGES
    requires st.y as int + st.font.value.height as int <= PAGES as int
    requires st.x as int > 128 - st.font.value.width as int
    ensures var f := st.font.value; var r := Write(st, c);
      r.st.x == f.width && r.st.y as int == Min(st.y as int + f.height as int, PAGES as int - f.height as int)
  {
    var f := st.font.value;
    WriteAfterWrap(st, c);
    assert Wrap(st, f) == NewLine(st, f.height);
  }

  /** The glyph leaves the cursor `width` columns right of where the
      possible new line put it. */
  lemma WriteAfterWrap(st: State, c: byte)
    requires WriteDefined(st, c) && st.font.Some? && c != 13 && c != 10 && st.font.value.height != 0
    ensures var wrap := Wrap(st, st.font.value);
      Write(st, c).st == wrap.st.(x := wrap.st.x + st.font.value.width)
  {
    var f := st.font.value;
    var wrap := Wrap(st, f);
    DrawGlyphReturns(st, wrap.st.x, wrap.st.y, f, c);
  }

  /** A six-column, one-page font fits exactly at column 122 and wraps at
      column 123. */
  lemma WrapBoundary(st: State, f: DCFont, c: byte)
    requires f.width == 6 && f.height == 1 && st.font == Some(f) && st.y == 0
    requires c != 10 && c != 13 && GlyphInBitmap(f, c)
    ensures Write(st.(x := 122), c).st.x == 128 && Write(st.(x := 122), c).st.y == 0
    ensures Write(st.(x := 123), c).st.x == 6 && Write(st.(x := 123), c).st.y == 1
  {
    WriteCursor(st.(x := 122), c);
    WriteCursor(st.(x := 123), c);
  }

  // Fills

  /** The bytes of a do-while loop on a `uint8_t` count: 0 means 256. */
  function Repeat(b: byte, length: byte): (bs: seq<byte>)
    ensures |bs| == (if length == 0 then 256 else length as int)
    ensures forall i :: 0 <= i < |bs| ==> bs[i] == b
  {
    seq(if length == 0 then 256 else length as int, _ => b)
  }

  /** `fillLength(fill, length)`: one data transmission of `length` copies
      of `fill` (256 when `length` is 0); the cursor moves right by
      `length`, modulo 256. */
  function FillLength(st: State, fill: byte, length: byte): (r: Step)
    ensures r.st == st.(x := st.x + length)
    ensures r.frames == [Data(Repeat(fill, length))]
    ensures Concat(Payloads(r.frames)) == Repeat(fill, length)
  {
    var r := Step(st.(x := st.x + length), [Data(Repeat(fill, length))]);
    assert r.frames[1..] == [];
    assert Concat([Repeat(fill, length)]) == Repeat(fill, length) + Concat([]);
    r
  }

  /** `fillToEOL(fill)`: `fillLength` with `128 - x` in `uint8_t`. */
  function FillToEOL(st: State, fill: byte): (r: Step)
    ensures r.st.y == st.y && r.st.font == st.font
    ensures r.st.renderingFrame == st.renderingFrame && r.st.drawingFrame == st.drawingFrame
    ensures st.x < 128 ==> (r.st.x == 128 && Concat(Payloads(r.frames)) == Repeat(fill, 128 - st.x)
      && |Concat(Payloads(r.frames))| == 128 - st.x as int)
  {
    FillLength(st, fill, 128 - st.x)
  }

  /** At column 128, where a line of glyphs that exactly fills the panel
      leaves the cursor, `fillToEOL` sends 256 bytes instead of none. */
  lemma FillToEOLAtLineEnd(st: State, fill: byte)
    requires st.x == 128
    ensures |Concat(Payloads(FillToEOL(st, fill).frames))| == 256
  {
  }

  /** `fillToEOL` as evidently intended: the bytes from the cursor to the
      end of the 128-column line, and none when the cursor is already at
      or past its end. */
  function FillToEOLChecked(st: State, fill: byte): (r: Step)
    ensures r.st.y == st.y && r.st.font == st.font
    ensures r.st.renderingFrame == st.renderingFrame && r.st.drawingFrame == st.drawingFrame
    ensures |Concat(Payloads(r.frames))| == if st.x < 128 then 128 - st.x as int else 0
    ensures forall i :: 0 <= i < |Concat(Payloads(r.frames))| ==> Concat(Payloads(r.frames))[i] == fill
    ensures r.st.x == if st.x < 128 then 128 else st.x
  {
    if st.x >= 128 then Step(st, []) else FillLength(st, fill, 128 - st.x)
  }

  /** Below column 128 the two agree. */
  lemma FillToEOLCheckedAgrees(st: State, fill: byte)
    requires st.x < 128
    ensures FillToEOLChecked(st, fill) == FillToEOL(st, fill)
  {
  }

  /** `clearToEOL`. */
  function ClearToEOL(st: State): (r: Step)
    ensures st.x < 128 ==> r.st.x == 128 && Concat(Payloads(r.frames)) == Repeat(0, 128 - st.x)
  {
    FillToEOL(st, 0)
  }

  /** The loop of `fill` with `n` pages to go, from row `y` on: each page
      gets the cursor at its first column and then a fill to the end of
      the line. The cursor the loop leaves behind is overwritten by the
      `setCursor(0, 0)` after it, so only the transmissions are kept. */
  function FillPages(st: State, fill: byte, y: byte, n: nat): (fs: seq<Frame>)
    ensures |fs| == 2 * n
    decreases n
  {
    if n == 0 then []
    else
      var c := SetCursor(st, 0, y);
      c.frames + FillToEOL(c.st, fill).frames + FillPages(st, fill, y + 1, n - 1)
  }

  /** Page `k` of the loop is the cursor command for column 0 of row
      `y + k` and then 128 copies of `fill`. */
  lemma {:induction false} FillPageAt(st: State, fill: byte, y: byte, n: nat, k: nat)
    requires k < n
    ensures var fs := FillPages(st, fill, y, n);
      && fs[2 * k] == Command(CursorBytes(st.renderingFrame, 0, Below(y, k)))
      && fs[2 * k + 1] == Data(Repeat(fill, 128))
    decreases n
  {
    if k == 0 {
      FillFirstPage(st, fill, y, n, k);
    } else {
      FillPageAt(st, fill, y + 1, n - 1, k - 1);
      FillPageStep(st, fill, y, n, k);
    }
  }

  /** The page that starts the loop. */
  lemma FillFirstPage(st: State, fill: byte, y: byte, n: nat, k: nat)
    requires k == 0 && k < n
    ensures var fs := FillPages(st, fill, y, n);
      && fs[2 * k] == Command(CursorBytes(st.renderingFrame, 0, Below(y, k)))
      && fs[2 * k + 1] == Data(Repeat(fill, 128))
  {
    var c := SetCursor(st, 0, y);
    var head := c.frames + FillToEOL(c.st, fill).frames;
    assert FillToEOL(c.st, fill).frames == [Data(Repeat(fill, 128))];
    assert FillPages(st, fill, y, n)[..2] == head;
  }

  /** The step of `FillPageAt`: page `k` of the loop is page `k - 1` of
      the loop that starts one row lower. */
  lemma FillPageStep(st: State, fill: byte, y: byte, n: nat, k: nat)
    requires 1 <= k < n
    requires var rest := FillPages(st, fill, y + 1, n - 1);
      && rest[2 * (k - 1)] == Command(CursorBytes(st.renderingFrame, 0, Below(y + 1, k - 1)))
      && rest[2 * (k - 1) + 1] == Data(Repeat(fill, 128))
    ensures var fs := FillPages(st, fill, y, n);
      && fs[2 * k] == Command(CursorBytes(st.renderingFrame, 0, Below(y, k)))
      && fs[2 * k + 1] == Data(Repeat(fill, 128))
  {
    var c := SetCursor(st, 0, y);
    var head := c.frames + FillToEOL(c.st, fill).frames;
    var rest := FillPages(st, fill, y + 1, n - 1);
    assert |FillToEOL(c.st, fill).frames| == 1;
    PairShift(head, rest, k);
    BelowShift(y, k);
  }

  /** Every page of the loop is the cursor command for its row and then
      128 copies of `fill`. */
  lemma FillPagesLayout(st: State, fill: byte, y: byte, n: nat)
    ensures var fs := FillPages(st, fill, y, n);
      forall k :: 0 <= k < n ==>
        && fs[2 * k] == Command(CursorBytes(st.renderingFrame, 0, Below(y, k)))
        && fs[2 * k + 1] == Data(Repeat(fill, 128))
  {
    forall k | 0 <= k < n
      ensures FillPages(st, fill, y, n)[2 * k] == Command(CursorBytes(st.renderingFrame, 0, Below(y, k)))
      ensures FillPages(st, fill, y, n)[2 * k + 1] == Data(Repeat(fill, 128))
    {
      FillPageAt(st, fill, y, n, k);
    }
  }

  /** `fill(fill)`: pages 0 to 3 of the render frame each get 128 copies
      of `fill`, and the cursor ends at the top left. */
  function Fill(st: State, fill: byte): (r: Step)
    ensures r.st == st.(x := 0, y := 0)
    ensures |r.frames| == 2 * PAGES as int + 1
  {
    var home := SetCursor(st, 0, 0);
    Step(home.st, FillPages(st, fill, 0, PAGES as int) + home.frames)
  }

  /** What `fill` sends: for each row 0 to 3 the cursor command and a full
      line of `fill`, then the cursor back to the top left. */
  lemma FillLayout(st: State, fill: byte)
    ensures var r := Fill(st, fill); var rf := st.renderingFrame;
      && r.frames[0] == Command(CursorBytes(rf, 0, 0))
      && r.frames[2] == Command(CursorBytes(rf, 0, 1))
      && r.frames[4] == Command(CursorBytes(rf, 0, 2))
      && r.frames[6] == Command(CursorBytes(rf, 0, 3))
      && (forall k :: 0 <= k < 4 ==> r.frames[2 * k + 1] == Data(Repeat(fill, 128)))
      && r.frames[8] == Command(CursorBytes(rf, 0, 0))
  {
    var pages := FillPages(st, fill, 0, 4);
    FillPagesLayout(st, fill, 0, 4);
    assert Fill(st, fill).frames[..8] == pages;
    assert Below(0, 1) == 1 && Below(0, 2) == 2 && Below(0, 3) == 3;
  }

  /** `clear`: `fill(0)`; every page of the render frame is blanked. */
  function Clear(st: State): (r: Step)
    ensures r.st == st.(x := 0, y := 0) && |r.frames| == 2 * PAGES as int + 1
    ensures forall k :: 0 <= k < 4 ==> r.frames[2 * k + 1] == Data(Repeat(0, 128))
  {
    FillLayout(st, 0);
    Fill(st, 0)
  }

  // bitmap

  /** The number of iterations of `for (v = lo; v < hi; v++)` on `uint8_t`. */
  function Span(lo: byte, hi: byte): nat
  {
    if lo < hi then hi as int - lo as int else 0
  }

  /** The row loop of `bitmap` with `n` rows to go, from row `y` on,
      reading the source from index `j`: each row gets the cursor at column
      `x0` of its page and the next `w` source bytes. As for `fill`, only
      the transmissions are kept; `j` never wraps, since at most 255 rows
      of 255 bytes are read. */
  function BitmapRows(st: State, x0: byte, y: byte, w: nat, n: nat, source: seq<byte>, j: nat): (fs: seq<Frame>)
    ensures |fs| == 2 * n
    decreases n
  {
    if n == 0 then []
    else SetCursor(st, x0, y).frames + [Data(Slice(source, j, w))] + BitmapRows(st, x0, y + 1, w, n - 1, source, j + w)
  }

  /** The rows receive `n` runs of `w` source bytes read on from `j`
      without a gap. */
  lemma {:induction false} BitmapRowsRuns(st: State, x0: byte, y: byte, w: nat, n: nat, source: seq<byte>, j: nat)
    requires j + Size(w, n) <= |source|
    ensures Runs(Payloads(BitmapRows(st, x0, y, w, n, source, j)), source, j, w, n)
    decreases n
  {
    if n == 0 {
      RunsNone(source, j, w);
    } else {
      var c := SetCursor(st, x0, y);
      var data := Data(Slice(source, j, w));
      BitmapRowsRuns(st, x0, y + 1, w, n - 1, source, j + w);
      DataLast(c.frames, data);
      RunsPrepend(c.frames + [data], BitmapRows(st, x0, y + 1, w, n - 1, source, j + w), source, j, w, n - 1);
    }
  }

  /** Row `k` of the loop from row `y`: the cursor command for column
      `x0` of row `y + k`, then a data transmission. */
  predicate RowAt(st: State, x0: byte, y: byte, w: nat, n: nat, source: seq<byte>, j: nat, k: nat)
    requires k < n
  {
    var fs := BitmapRows(st, x0, y, w, n, source, j);
    fs[2 * k] == Command(CursorBytes(st.renderingFrame, x0, Below(y, k))) && fs[2 * k + 1].Data?
  }

  /** Row `k` of the loop is a cursor command for column `x0` of row
      `y + k`, then that row's data. */
  lemma {:induction false} BitmapRowAt(st: State, x0: byte, y: byte, w: nat, n: nat, source: seq<byte>, j: nat, k: nat)
    requires k < n
    ensures RowAt(st, x0, y, w, n, source, j, k)
    decreases n
  {
    if k == 0 {
      BitmapFirstRow(st, x0, y, w, n, source, j, k);
    } else {
      BitmapRowAt(st, x0, y + 1, w, n - 1, source, j + w, k - 1);
      BitmapRowStep(st, x0, y, w, n, source, j, k);
    }
  }

  /** The row that starts the loop. */
  lemma BitmapFirstRow(st: State, x0: byte, y: byte, w: nat, n: nat, source: seq<byte>, j: nat, k: nat)
    requires k == 0 && k < n
    ensures RowAt(st, x0, y, w, n, source, j, k)
  {
    var head := SetCursor(st, x0, y).frames + [Data(Slice(source, j, w))];
    assert BitmapRows(st, x0, y, w, n, source, j)[..2] == head;
  }

  /** The step of `BitmapRowAt`: row `k` of the loop is row `k - 1` of
      the loop that starts one page lower. */
  lemma BitmapRowStep(st: State, x0: byte, y: byte, w: nat, n: nat, source: seq<byte>, j: nat, k: nat)
    requires 1 <= k < n
    requires RowAt(st, x0, y + 1, w, n - 1, source, j + w, k - 1)
    ensures RowAt(st, x0, y, w, n, source, j, k)
  {
    var head := SetCursor(st, x0, y).frames + [Data(Slice(source, j, w))];
    var rest := BitmapRows(st, x0, y + 1, w, n - 1, source, j + w);
    PairShift(head, rest, k);
    BelowShift(y, k);
  }

  /** `bitmap(x0, y0, x1, y1, bitmap)`: rows `y0` to `y1 - 1` each receive
      `x1 - x0` consecutive bytes of the source, which is read from its
      start without gaps; the cursor ends at the top left. */
  function Bitmap(st: State, x0: byte, y0: byte, x1: byte, y1: byte, source: seq<byte>): (r: Step)
    requires Size(Span(x0, x1), Span(y0, y1)) <= |source|
    ensures r.st == st.(x := 0, y := 0)
    ensures |r.frames| == 2 * Span(y0, y1) + 1
    ensures r.frames[|r.frames| - 1] == Command(CursorBytes(st.renderingFrame, 0, 0))
  {
    var rows := BitmapRows(st, x0, y0, Span(x0, x1), Span(y0, y1), source, 0);
    var home := SetCursor(st, 0, 0);
    Step(home.st, rows + home.frames)
  }

  /** The data `bitmap` sends: one run of `x1 - x0` source bytes per row,
      read from the start of the source without a gap. */
  lemma BitmapRuns(st: State, x0: byte, y0: byte, x1: byte, y1: byte, source: seq<byte>)
    requires Size(Span(x0, x1), Span(y0, y1)) <= |source|
    ensures Runs(Payloads(Bitmap(st, x0, y0, x1, y1, source).frames), source, 0, Span(x0, x1), Span(y0, y1))
  {
    var rows := BitmapRows(st, x0, y0, Span(x0, x1), Span(y0, y1), source, 0);
    var home := SetCursor(st, 0, 0);
    BitmapRowsRuns(st, x0, y0, Span(x0, x1), Span(y0, y1), source, 0);
    PayloadsAppend(rows, home.frames);
    assert Payloads(rows) + [] == Payloads(rows);
  }

  /** Every row of `bitmap` starts with the cursor at column `x0` of that
      row. */
  lemma BitmapLayout(st: State, x0: byte, y0: byte, x1: byte, y1: byte, source: seq<byte>)
    requires Size(Span(x0, x1), Span(y0, y1)) <= |source|
    ensures var r := Bitmap(st, x0, y0, x1, y1, source);
      forall k :: 0 <= k < Span(y0, y1) ==>
        && r.frames[2 * k] == Command(CursorBytes(st.renderingFrame, x0, Below(y0, k)))
        && r.frames[2 * k + 1].Data?
  {
    var rows := BitmapRows(st, x0, y0, Span(x0, x1), Span(y0, y1), source, 0);
    forall k | 0 <= k < Span(y0, y1)
      ensures Bitmap(st, x0, y0, x1, y1, source).frames[2 * k] == Command(CursorBytes(st.renderingFrame, x0, Below(y0, k)))
      ensures Bitmap(st, x0, y0, x1, y1, source).frames[2 * k + 1].Data?
    {
      BitmapRowAt(st, x0, y0, Span(x0, x1), Span(y0, y1), source, 0, k);
      assert Bitmap(st, x0, y0, x1, y1, source).frames[..2 * Span(y0, y1)] == rows;
    }
  }

  // Double buffering

  /** `switchRenderFrame`: draw into the other half of GDDRAM. */
  function SwitchRenderFrame(st: State): (r: State)
    ensures Valid(st) ==> Valid(r) && CurrentRenderFrame(r) == 1 - CurrentRenderFrame(st)
    ensures r.drawingFrame == st.drawingFrame && r.x == st.x && r.y == st.y && r.font == st.font
  {
    st.(renderingFrame := st.renderingFrame ^ 0x04)
  }

  /** `switchDisplayFrame`: show the other half, by sending the new display
      start line as a single command. */
  function SwitchDisplayFrame(st: State): (r: Step)
    ensures Valid(st) ==> Valid(r.st) && CurrentDisplayFrame(r.st) == 1 - CurrentDisplayFrame(st)
    ensures Valid(st) ==> r.frames == [Command([0x40 | (0x20 * CurrentDisplayFrame(r.st))])]
    ensures Valid(st) ==> Decode(r.frames[0].bytes) == Some([StartLine(32 * CurrentDisplayFrame(r.st))])
    ensures r.st.renderingFrame == st.renderingFrame && r.st.x == st.x && r.st.y == st.y && r.st.font == st.font
  {
    var df := st.drawingFrame ^ 0x20;
    var r := Step(st.(drawingFrame := df), [Command([df])]);
    if Valid(st) then StartLineDecodes(df); r else r
  }

  lemma StartLineDecodes(op: byte)
    requires op == 0x40 || op == 0x60
    ensures Decode([op]) == Some([StartLine(op & 0x3F)])
  {
    StartLineMeaning(op);
    DecodeOne(op, []);
    assert [op] + [] == [op];
  }

  lemma StartLineMeaning(op: byte)
    requires op == 0x40 || op == 0x60
    ensures ArgCount(op) == 0 && Meaning(RawCommand(op, [])) == StartLine(op & 0x3F)
  {
  }

  /** `switchFrame`: show the half just drawn and draw into the other. */
  function SwitchFrame(st: State): (r: Step)
    ensures Valid(st) ==> Valid(r.st)
    ensures r.st.x == st.x && r.st.y == st.y && r.st.font == st.font
  {
    var d := SwitchDisplayFrame(st);
    Step(SwitchRenderFrame(d.st), d.frames)
  }

  /** `currentRenderFrame`: 0 for B0h, 1 for B4h. */
  function CurrentRenderFrame(st: State): byte
  {
    (st.renderingFrame >> 2) & 0x01
  }

  /** `currentDisplayFrame`: 0 for 40h, 1 for 60h. */
  function CurrentDisplayFrame(st: State): byte
  {
    (st.drawingFrame >> 5) & 0x01
  }

  /** Switching the render frame twice changes nothing. */
  lemma SwitchRenderFrameTwice(st: State)
    ensures SwitchRenderFrame(SwitchRenderFrame(st)) == st
  {
  }

  /** Switching both frames twice restores both selectors, and the two
      start-line commands sent are those of the other frame and then of the
      original one. */
  lemma SwitchFrameTwice(st: State)
    requires Valid(st)
    ensures SwitchFrame(SwitchFrame(st).st).st == st
    ensures SwitchFrame(st).frames == [Command([st.drawingFrame ^ 0x20])]
    ensures SwitchFrame(SwitchFrame(st).st).frames == [Command([st.drawingFrame])]
  {
  }

  /** In either render frame, row `y` of the panel is page
      B0h + 4 * frame + y. */
  lemma PageOfFrame(st: State, y: byte)
    requires Valid(st) && y < PAGES
    ensures PageOpcode(st.renderingFrame, y) == 0xB0 + 4 * CurrentRenderFrame(st) + y
  {
  }

  /** The globals start valid, drawing into and showing frame 0. */
  lemma Initially()
    ensures Valid(Initial) && CurrentRenderFrame(Initial) == 0 && CurrentDisplayFrame(Initial) == 0
  {
  }
}
