/**
  The SSD1306 controller side of the wire protocol, written from the
  command tables of the SSD1306 datasheet (section 9, "Command Table":
  1 Fundamental, 2 Scrolling, 3 Addressing Setting, 4 Hardware
  Configuration, 5 Timing & Driving Scheme, plus the charge-pump 8Dh and
  internal-IREF ADh settings).

  This is the independent reference the driver's encoders are checked
  against: a command stream is split into whole commands by opcode, and
  each command is read back into the register fields the datasheet
  assigns to its bits.
*/
module Ssd1306 {
  import opened Bytes

  /** Control byte that opens a command transmission. */
  const COMMAND: byte := 0x00
  /** Control byte that opens a data (GDDRAM) transmission. */
  const DATA: byte := 0x40

  /** One bus transmission as the controller sees it: the control byte
      says which kind, the payload follows. */
  datatype Frame = Command(bytes: seq<byte>) | Data(bytes: seq<byte>)

  /** How many argument bytes the datasheet attaches to an opcode. */
  function ArgCount(op: byte): nat
  {
    match op
    case 0x20 | 0x23 | 0x81 | 0x8D | 0xA8 | 0xAD | 0xD3 | 0xD5 | 0xD6 | 0xD9 | 0xDA | 0xDB => 1
    case 0x21 | 0x22 | 0xA3 => 2
    case 0x29 | 0x2A => 5
    case 0x26 | 0x27 | 0x2C | 0x2D => 6
    case _ => 0
  }

  /** An opcode with the argument bytes that travel with it. */
  datatype RawCommand = RawCommand(op: byte, args: seq<byte>)
  {
    predicate WellFormed() { |args| == ArgCount(op) }
  }

  /** A whole command: the opcode with exactly its argument bytes. */
  type Command = c: RawCommand | c.WellFormed() witness RawCommand(0xE3, [])

  /** The bytes a list of commands occupies on the wire. */
  function Flatten(cs: seq<RawCommand>): seq<byte>
  {
    if cs == [] then [] else [cs[0].op] + cs[0].args + Flatten(cs[1..])
  }

  lemma FlattenCons(c: RawCommand, rest: seq<RawCommand>)
    ensures Flatten([c] + rest) == [c.op] + c.args + Flatten(rest)
  {
    assert ([c] + rest)[0] == c && ([c] + rest)[1..] == rest;
  }

  lemma FlattenOne(c: RawCommand)
    ensures Flatten([c]) == [c.op] + c.args
  {
    assert [c][1..] == [];
  }

  /** Reads a command stream into whole commands; `None` when the stream
      ends inside a command (an opcode missing some of its arguments). */
  function Split(bytes: seq<byte>): (r: Option<seq<Command>>)
    ensures r.Some? ==> Flatten(r.value) == bytes
    decreases |bytes|
  {
    if bytes == [] then Some([])
    else
      var n := ArgCount(bytes[0]);
      if |bytes| < 1 + n then None
      else
        match Split(bytes[1 + n..])
        case None => None
        case Some(rest) =>
          var c: Command := RawCommand(bytes[0], bytes[1..1 + n]);
          FlattenCons(c, rest);
          SplitBytes(bytes, n);
          Some([c] + rest)
  }

  /** A stream is its first byte, the next `n`, and the rest. */
  lemma SplitBytes(bytes: seq<byte>, n: nat)
    requires 1 + n <= |bytes|
    ensures bytes == [bytes[0]] + bytes[1..1 + n] + bytes[1 + n..]
  {
  }

  /** Splitting is the inverse of flattening: a stream made of whole
      commands is read back as exactly those commands, so `Split` returns
      `None` only for streams no list of whole commands produces. */
  lemma {:induction false} SplitFlatten(cs: seq<Command>)
    ensures Split(Flatten(cs)) == Some(cs)
  {
    if cs != [] {
      var bytes := Flatten(cs);
      var n := ArgCount(cs[0].op);
      assert bytes == [cs[0].op] + cs[0].args + Flatten(cs[1..]);
      assert bytes[0] == cs[0].op;
      assert bytes[1..1 + n] == cs[0].args;
      assert bytes[1 + n..] == Flatten(cs[1..]);
      SplitFlatten(cs[1..]);
      assert [RawCommand(cs[0].op, cs[0].args)] + cs[1..] == cs;
    }
  }

  lemma {:induction false} FlattenAppend(a: seq<RawCommand>, b: seq<RawCommand>)
    ensures Flatten(a + b) == Flatten(a) + Flatten(b)
    decreases |a|
  {
    if a == [] {
      assert a + b == b;
    } else {
      assert (a + b)[0] == a[0] && (a + b)[1..] == a[1..] + b;
      FlattenAppend(a[1..], b);
    }
  }

  /** A command read back into the register fields the datasheet gives it. */
  datatype Cmd =
    | LowColumn(low: byte)                  // 00h-0Fh: lower nibble of the column start (page mode)
    | HighColumn(high: byte)                // 10h-1Fh: higher nibble of the column start (page mode)
    | AddressingMode(mode: byte)            // 20h, A[1:0]
    | ContinuousScroll(left: bool, startPage: byte, interval: byte, endPage: byte)  // 26h/27h
    | DiagonalScroll(left: bool, startPage: byte, interval: byte, endPage: byte, verticalOffset: byte)  // 29h/2Ah
    | ScrollActive(active: bool)            // 2Eh/2Fh
    | StartLine(line: byte)                 // 40h-7Fh
    | Contrast(level: byte)                 // 81h, A[7:0]
    | SegmentRemap(column127AtSeg0: bool)   // A0h/A1h
    | VerticalScrollArea(fixedRows: byte, scrollRows: byte)  // A3h, A[5:0], B[6:0]
    | EntireDisplayOn(ignoreRam: bool)      // A4h/A5h
    | Inverse(inverted: bool)               // A6h/A7h
    | MultiplexRatio(ratio: byte)           // A8h, A[5:0] + 1
    | DisplayPower(on: bool)                // AEh/AFh
    | PageStart(page: byte)                 // B0h-B7h
    | ComScanRemapped(remapped: bool)       // C0h/C8h, bit 3
    | DisplayOffset(offset: byte)           // D3h, A[5:0]
    | DisplayClock(divideRatio: byte, oscillator: byte)  // D5h, A[3:0] + 1, A[7:4]
    | Precharge(phase1: byte, phase2: byte) // D9h, A[3:0], A[7:4]
    | ComPins(alternative: bool, leftRightRemap: bool)  // DAh, A[4], A[5]
    | VcomhLevel(level: byte)               // DBh, A[6:4]
    | Nop                                   // E3h
    | Other(op: byte, args: seq<byte>)      // anything the driver's encoders do not produce

  /** The datasheet meaning of one whole command. */
  function Meaning(c: Command): Cmd
  {
    var op := c.op;
    var a := c.args;
    if op <= 0x0F then LowColumn(op & 0x0F)
    else if op <= 0x1F then HighColumn(op & 0x0F)
    else if op == 0x20 then AddressingMode(a[0] & 0x03)
    else if op == 0x26 || op == 0x27 then ContinuousScroll(op == 0x27, a[1] & 0x07, a[2] & 0x07, a[3] & 0x07)
    else if op == 0x29 || op == 0x2A then DiagonalScroll(op == 0x2A, a[1] & 0x07, a[2] & 0x07, a[3] & 0x07, a[4] & 0x3F)
    else if op == 0x2E || op == 0x2F then ScrollActive(op == 0x2F)
    else if 0x40 <= op <= 0x7F then StartLine(op & 0x3F)
    else if op == 0x81 then Contrast(a[0])
    else if op == 0xA0 || op == 0xA1 then SegmentRemap(op == 0xA1)
    else if op == 0xA3 then VerticalScrollArea(a[0] & 0x3F, a[1] & 0x7F)
    else if op == 0xA4 || op == 0xA5 then EntireDisplayOn(op == 0xA5)
    else if op == 0xA6 || op == 0xA7 then Inverse(op == 0xA7)
    else if op == 0xA8 then MultiplexRatio((a[0] & 0x3F) + 1)
    else if op == 0xAE || op == 0xAF then DisplayPower(op == 0xAF)
    else if 0xB0 <= op <= 0xB7 then PageStart(op & 0x07)
    else if op == 0xC0 || op == 0xC8 then ComScanRemapped(op == 0xC8)
    else if op == 0xD3 then DisplayOffset(a[0] & 0x3F)
    else if op == 0xD5 then DisplayClock((a[0] & 0x0F) + 1, a[0] >> 4)
    else if op == 0xD9 then Precharge(a[0] & 0x0F, a[0] >> 4)
    else if op == 0xDA then ComPins(a[0] & 0x10 != 0, a[0] & 0x20 != 0)
    else if op == 0xDB then VcomhLevel((a[0] >> 4) & 0x07)
    else if op == 0xE3 then Nop
    else Other(op, a)
  }

  function Meanings(cs: seq<Command>): (r: seq<Cmd>)
    ensures |r| == |cs|
    ensures forall i :: 0 <= i < |cs| ==> r[i] == Meaning(cs[i])
  {
    if cs == [] then [] else [Meaning(cs[0])] + Meanings(cs[1..])
  }

  /** What a command transmission tells the controller, or `None` when it
      ends in the middle of a command. */
  function Decode(bytes: seq<byte>): Option<seq<Cmd>>
  {
    match Split(bytes)
    case None => None
    case Some(cs) => Some(Meanings(cs))
  }

  /** The argument bits the datasheet fixes instead of leaving them to the
      host: the dummy bytes of the scroll setups (26h/27h: A = 00h, E = 00h,
      F = FFh; 29h/2Ah: A = 00h), the `0 0 A5 A4 0 0 1 0` pattern of DAh and
      the `0 A6 A5 A4 0 0 0 0` pattern of DBh. `Meaning` does not read these
      bits, so two streams can decode alike while only one of them is what
      the datasheet prescribes. */
  predicate FixedBits(c: Command)
  {
    var a := c.args;
    if c.op == 0x26 || c.op == 0x27 then a[0] == 0x00 && a[4] == 0x00 && a[5] == 0xFF
    else if c.op == 0x29 || c.op == 0x2A then a[0] == 0x00
    else if c.op == 0xDA then a[0] & 0xCF == 0x02
    else if c.op == 0xDB then a[0] & 0x8F == 0x00
    else true
  }

  /** A command transmission made of whole commands whose fixed bits all
      hold the values the datasheet gives them. */
  predicate Conforms(bytes: seq<byte>)
  {
    match Split(bytes)
    case None => false
    case Some(cs) => forall i :: 0 <= i < |cs| ==> FixedBits(cs[i])
  }

  /** A transmission holding one whole command conforms exactly when that
      command's fixed bits hold. */
  lemma ConformsOne(op: byte, args: seq<byte>)
    requires |args| == ArgCount(op)
    ensures Conforms([op] + args) <==> FixedBits(RawCommand(op, args))
  {
    var cs: seq<Command> := [RawCommand(op, args)];
    assert cs[1..] == [];
    assert Flatten(cs) == [op] + args + [];
    assert [op] + args + [] == [op] + args;
    SplitFlatten(cs);
  }

  /** The fixed bits are not implied by the decoded fields: whatever the
      dummy bytes of a right scroll setup, it decodes like the one with the
      datasheet's 00h, 00h, FFh ... */
  lemma ScrollDummiesBeyondMeaning(a: byte, b: byte, c: byte, d: byte, e: byte, f: byte)
    ensures Decode([0x26, a, b, c, d, e, f]) == Decode([0x26, 0x00, b, c, d, 0x00, 0xFF])
  {
    var args: seq<byte> := [a, b, c, d, e, f];
    var fixed: seq<byte> := [0x00, b, c, d, 0x00, 0xFF];
    assert [0x26 as byte] + args == [0x26, a, b, c, d, e, f];
    assert [0x26 as byte] + fixed == [0x26, 0x00, b, c, d, 0x00, 0xFF];
    DecodeOne(0x26, args);
    DecodeOne(0x26, fixed);
  }

  /** ... and it conforms only with those dummy bytes. */
  lemma ScrollDummiesConform(a: byte, b: byte, c: byte, d: byte, e: byte, f: byte)
    ensures Conforms([0x26, a, b, c, d, e, f]) <==> a == 0x00 && e == 0x00 && f == 0xFF
  {
    var args: seq<byte> := [a, b, c, d, e, f];
    assert [0x26 as byte] + args == [0x26, a, b, c, d, e, f];
    ConformsOne(0x26, args);
  }

  /** Whatever the low nibble and bit 7 of a DBh argument, it decodes like
      the byte with them cleared, and it conforms only when they are clear. */
  lemma VcomhPatternBeyondMeaning(a: byte)
    ensures Decode([0xDB, a]) == Decode([0xDB, a & 0x70])
    ensures Conforms([0xDB, a]) <==> a & 0x8F == 0x00
  {
    assert [0xDB as byte] + [a] == [0xDB, a];
    assert [0xDB as byte] + [a & 0x70] == [0xDB, a & 0x70];
    DecodeOne(0xDB, [a]);
    DecodeOne(0xDB, [a & 0x70]);
    assert ((a & 0x70) >> 4) & 0x07 == (a >> 4) & 0x07;
    ConformsOne(0xDB, [a]);
  }

  /** Whatever the fixed bits of a DAh argument, it decodes like the byte
      with the datasheet's `0 0 A5 A4 0 0 1 0` pattern, and it conforms
      only when it has that pattern. */
  lemma ComPinsPatternBeyondMeaning(a: byte)
    ensures Decode([0xDA, a]) == Decode([0xDA, (a & 0x30) | 0x02])
    ensures Conforms([0xDA, a]) <==> a & 0xCF == 0x02
  {
    assert [0xDA as byte] + [a] == [0xDA, a];
    assert [0xDA as byte] + [(a & 0x30) | 0x02] == [0xDA, (a & 0x30) | 0x02];
    DecodeOne(0xDA, [a]);
    DecodeOne(0xDA, [(a & 0x30) | 0x02]);
    assert ((a & 0x30) | 0x02) & 0x30 == a & 0x30;
    ConformsOne(0xDA, [a]);
  }

  /** A stream made of whole commands means what its commands mean, in order. */
  lemma DecodeFlatten(cs: seq<Command>)
    ensures Decode(Flatten(cs)) == Some(Meanings(cs))
  {
    SplitFlatten(cs);
  }

  /** A transmission holding one whole command decodes to that command alone. */
  lemma DecodeOne(op: byte, args: seq<byte>)
    requires |args| == ArgCount(op)
    ensures Decode([op] + args) == Some([Meaning(RawCommand(op, args))])
  {
    var cs: seq<Command> := [RawCommand(op, args)];
    assert cs[1..] == [];
    assert Flatten(cs) == [op] + args + [];
    assert [op] + args + [] == [op] + args;
    SplitFlatten(cs);
    assert Meanings(cs) == [Meaning(cs[0])];
  }

  /** Reading a stream that starts with a whole command. */
  lemma DecodeCons(op: byte, args: seq<byte>, rest: seq<byte>, ms: seq<Cmd>)
    requires |args| == ArgCount(op)
    requires Decode(rest) == Some(ms)
    ensures Decode([op] + args + rest) == Some([Meaning(RawCommand(op, args))] + ms)
  {
    var bytes := [op] + args + rest;
    var n := ArgCount(op);
    assert bytes[0] == op;
    assert bytes[1..1 + n] == args;
    assert bytes[1 + n..] == rest;
    var cs :| Split(rest) == Some(cs);
    var c: Command := RawCommand(op, args);
    assert Split(bytes) == Some([c] + cs);
    assert Meanings([c] + cs) == [Meaning(c)] + Meanings(cs);
  }

  /** The single-byte addressing commands of page mode. */
  lemma MeaningLow(op: byte)
    requires op <= 0x0F
    ensures ArgCount(op) == 0 && Meaning(RawCommand(op, [])) == LowColumn(op)
  {
  }

  lemma MeaningHigh(op: byte)
    requires 0x10 <= op <= 0x1F
    ensures ArgCount(op) == 0 && Meaning(RawCommand(op, [])) == HighColumn(op & 0x0F)
  {
  }

  lemma MeaningPage(op: byte)
    requires 0xB0 <= op <= 0xB7
    ensures ArgCount(op) == 0 && Meaning(RawCommand(op, [])) == PageStart(op & 0x07)
  {
  }

  /** The controller's GDDRAM pointer in page addressing mode (datasheet
      section 10.1.3): a page 0-7 and a column. */
  datatype Pointer = Pointer(page: byte, column: nat)

  /** How one command moves the pointer: B0h-B7h select the page,
      00h-0Fh replace the column's low nibble and 10h-1Fh its high nibble. */
  function Point(p: Pointer, c: Cmd): Pointer
  {
    match c
    case PageStart(n) => p.(page := n)
    case LowColumn(n) => p.(column := p.column / 16 * 16 + n as int)
    case HighColumn(n) => p.(column := n as int * 16 + p.column % 16)
    case _ => p
  }

  function PointAll(p: Pointer, cs: seq<Cmd>): Pointer
    decreases |cs|
  {
    if cs == [] then p else PointAll(Point(p, cs[0]), cs[1..])
  }

  /** A page command followed by both column nibbles sets the whole
      pointer, whatever it was before. */
  lemma PointPageColumn(p: Pointer, page: byte, high: byte, low: byte)
    requires high < 16 && low < 16
    ensures PointAll(p, [PageStart(page), HighColumn(high), LowColumn(low)])
         == Pointer(page, high as int * 16 + low as int)
  {
    var cs := [PageStart(page), HighColumn(high), LowColumn(low)];
    var p1 := Point(p, PageStart(page));
    var p2 := Point(p1, HighColumn(high));
    var p3 := Point(p2, LowColumn(low));
    assert cs[1..] == [HighColumn(high), LowColumn(low)];
    assert cs[1..][1..] == [LowColumn(low)];
    assert PointAll(p, cs) == PointAll(p1, cs[1..]);
    assert PointAll(p1, cs[1..]) == PointAll(p2, cs[1..][1..]);
    assert PointAll(p2, cs[1..][1..]) == p3;
    NibblesJoin(high as int, p1.column % 16, low as int);
  }

  /** Replacing the high nibble and then the low nibble of a column gives
      the column made of the two new nibbles. */
  lemma NibblesJoin(high: int, rest: int, low: int)
    requires 0 <= high < 16 && 0 <= rest < 16 && 0 <= low < 16
    ensures (high * 16 + rest) / 16 * 16 + low == high * 16 + low
  {
    assert (high * 16 + rest) / 16 == high;
  }

  /** In page addressing mode every data byte moves the column pointer one
      to the right; past column 127 it returns to column 0 of the same page. */
  function AdvanceColumn(p: Pointer, n: nat): (r: Pointer)
    ensures r.page == p.page && r.column < 128
    ensures p.column + n < 128 ==> r.column == p.column + n
  {
    p.(column := (p.column + n) % 128)
  }

  /** Where the pointer is after the controller has taken in one
      transmission: commands move it as above, data bytes advance it. */
  function Pointed(p: Pointer, f: Frame): Pointer
  {
    match f
    case Data(bs) => AdvanceColumn(p, |bs|)
    case Command(bs) =>
      match Decode(bs)
      case None => p
      case Some(cs) => PointAll(p, cs)
  }

  /** The data payloads of a list of transmissions, in order. */
  function Payloads(frames: seq<Frame>): (r: seq<seq<byte>>)
    ensures |r| <= |frames|
  {
    if frames == [] then []
    else (if frames[0].Data? then [frames[0].bytes] else []) + Payloads(frames[1..])
  }

  /** All data bytes of a list of transmissions, in the order they reach GDDRAM. */
  function Concat(ps: seq<seq<byte>>): seq<byte>
  {
    if ps == [] then [] else ps[0] + Concat(ps[1..])
  }

  lemma {:induction false} PayloadsAppend(a: seq<Frame>, b: seq<Frame>)
    ensures Payloads(a + b) == Payloads(a) + Payloads(b)
    decreases |a|
  {
    if a == [] {
      assert a + b == b;
    } else {
      assert (a + b)[0] == a[0] && (a + b)[1..] == a[1..] + b;
      PayloadsAppend(a[1..], b);
    }
  }

  lemma {:induction false} ConcatAppend(a: seq<seq<byte>>, b: seq<seq<byte>>)
    ensures Concat(a + b) == Concat(a) + Concat(b)
    decreases |a|
  {
    if a == [] {
      assert a + b == b;
    } else {
      assert (a + b)[0] == a[0] && (a + b)[1..] == a[1..] + b;
      ConcatAppend(a[1..], b);
    }
  }
}
