/**
  The controller-command encoders of the current driver
  (`SSD1306Device::setContrast` ... `nop`). Each one sends a single
  command transmission; its contract says what the controller reads back
  from it according to the datasheet, through `Ssd1306.Decode`.
*/
module Commands {
  import opened Bytes
  import opened Ssd1306

  /** One command transmission carrying opcode `op` and its arguments. */
  function CommandFrame(op: byte, args: seq<byte>): (f: Frame)
    requires |args| == ArgCount(op)
    ensures f.Command? && f.bytes == [op] + args
    ensures Decode(f.bytes) == Some([Meaning(RawCommand(op, args))])
    ensures Conforms(f.bytes) <==> FixedBits(RawCommand(op, args))
  {
    DecodeOne(op, args);
    ConformsOne(op, args);
    Command([op] + args)
  }

  // 1. Fundamental Command Table

  function SetContrast(contrast: byte): (f: Frame)
    ensures f.Command? && Decode(f.bytes) == Some([Contrast(contrast)])
  {
    CommandFrame(0x81, [contrast])
  }

  function SetEntireDisplayOn(enable: bool): (f: Frame)
    ensures f.Command? && Decode(f.bytes) == Some([EntireDisplayOn(enable)])
  {
    if enable then CommandFrame(0xA5, []) else CommandFrame(0xA4, [])
  }

  function SetInverse(enable: bool): (f: Frame)
    ensures f.Command? && Decode(f.bytes) == Some([Inverse(enable)])
  {
    if enable then CommandFrame(0xA7, []) else CommandFrame(0xA6, [])
  }

  function Off(): (f: Frame)
    ensures f.Command? && Decode(f.bytes) == Some([DisplayPower(false)])
  {
    CommandFrame(0xAE, [])
  }

  function On(): (f: Frame)
    ensures f.Command? && Decode(f.bytes) == Some([DisplayPower(true)])
  {
    CommandFrame(0xAF, [])
  }

  // 2. Scrolling Command Table

  /** Pages and interval are 3-bit fields; the controller ignores the rest. */
  function ScrollRight(startPage: byte, interval: byte, endPage: byte): (f: Frame)
    ensures f.Command?
    ensures Decode(f.bytes) == Some([ContinuousScroll(false, startPage & 7, interval & 7, endPage & 7)])
    ensures startPage < 8 && interval < 8 && endPage < 8 ==>
      Decode(f.bytes) == Some([ContinuousScroll(false, startPage, interval, endPage)])
    ensures Conforms(f.bytes)
  {
    CommandFrame(0x26, [0x00, startPage, interval, endPage, 0x00, 0xFF])
  }

  function ScrollLeft(startPage: byte, interval: byte, endPage: byte): (f: Frame)
    ensures f.Command?
    ensures Decode(f.bytes) == Some([ContinuousScroll(true, startPage & 7, interval & 7, endPage & 7)])
    ensures startPage < 8 && interval < 8 && endPage < 8 ==>
      Decode(f.bytes) == Some([ContinuousScroll(true, startPage, interval, endPage)])
    ensures Conforms(f.bytes)
  {
    CommandFrame(0x27, [0x00, startPage, interval, endPage, 0x00, 0xFF])
  }

  /** Pages and interval are 3-bit fields and the vertical offset a 6-bit
      field; the controller ignores the rest. */
  function ScrollRightOffset(startPage: byte, interval: byte, endPage: byte, offset: byte): (f: Frame)
    ensures f.Command?
    ensures Decode(f.bytes) == Some([DiagonalScroll(false, startPage & 7, interval & 7, endPage & 7, offset & 0x3F)])
    ensures startPage < 8 && interval < 8 && endPage < 8 && offset < 64 ==>
      Decode(f.bytes) == Some([DiagonalScroll(false, startPage, interval, endPage, offset)])
    ensures Conforms(f.bytes)
  {
    CommandFrame(0x29, [0x00, startPage, interval, endPage, offset])
  }

  function ScrollLeftOffset(startPage: byte, interval: byte, endPage: byte, offset: byte): (f: Frame)
    ensures f.Command?
    ensures Decode(f.bytes) == Some([DiagonalScroll(true, startPage & 7, interval & 7, endPage & 7, offset & 0x3F)])
    ensures startPage < 8 && interval < 8 && endPage < 8 && offset < 64 ==>
      Decode(f.bytes) == Some([DiagonalScroll(true, startPage, interval, endPage, offset)])
    ensures Conforms(f.bytes)
  {
    CommandFrame(0x2A, [0x00, startPage, interval, endPage, offset])
  }

  function DeactivateScroll(): (f: Frame)
    ensures f.Command? && Decode(f.bytes) == Some([ScrollActive(false)])
  {
    CommandFrame(0x2E, [])
  }

  function ActivateScroll(): (f: Frame)
    ensures f.Command? && Decode(f.bytes) == Some([ScrollActive(true)])
  {
    CommandFrame(0x2F, [])
  }

  /** The fixed rows are a 6-bit field and the scrolled rows a 7-bit one. */
  function SetVerticalScrollArea(top: byte, rows: byte): (f: Frame)
    ensures f.Command?
    ensures Decode(f.bytes) == Some([VerticalScrollArea(top & 0x3F, rows & 0x7F)])
    ensures top < 64 && rows < 128 ==> Decode(f.bytes) == Some([VerticalScrollArea(top, rows)])
  {
    CommandFrame(0xA3, [top, rows])
  }

  // 4. Hardware Configuration Command Table

  /** Only the low six bits of the line reach the controller. */
  function SetDisplayStartLine(startLine: byte): (f: Frame)
    ensures f.Command? && Decode(f.bytes) == Some([StartLine(startLine % 64)])
  {
    CommandFrame(0x40 | (startLine & 0x3F), [])
  }

  function SetSegmentRemap(remap: byte): (f: Frame)
    ensures f.Command? && Decode(f.bytes) == Some([SegmentRemap(remap % 2 == 1)])
  {
    CommandFrame(0xA0 | (remap & 0x01), [])
  }

  /** Takes the ratio itself (1 to 64) and sends ratio - 1, which the
      controller reads back as that ratio; any other value wraps into 1..64. */
  function SetMultiplexRatio(mux: byte): (f: Frame)
    ensures f.Command?
    ensures Decode(f.bytes) == Some([MultiplexRatio(((mux - 1) & 0x3F) + 1)])
    ensures 1 <= mux <= 64 ==> Decode(f.bytes) == Some([MultiplexRatio(mux)])
    ensures mux == 0 ==> Decode(f.bytes) == Some([MultiplexRatio(64)])
  {
    CommandFrame(0xA8, [(mux - 1) & 0x3F])
  }

  function SetComOutputDirection(direction: byte): (f: Frame)
    ensures f.Command? && Decode(f.bytes) == Some([ComScanRemapped(direction % 2 == 1)])
  {
    CommandFrame(0xC0 | ((direction & 0x01) << 3), [])
  }

  function SetDisplayOffset(offset: byte): (f: Frame)
    ensures f.Command? && Decode(f.bytes) == Some([DisplayOffset(offset % 64)])
  {
    CommandFrame(0xD3, [offset & 0x3F])
  }

  function SetComPinsHardwareConfiguration(alternative: byte, enableLeftRightRemap: byte): (f: Frame)
    ensures f.Command?
    ensures Decode(f.bytes) == Some([ComPins(alternative % 2 == 1, enableLeftRightRemap % 2 == 1)])
    ensures f.bytes[1] & 0x02 == 0x02  // A[1] is fixed at 1 by the datasheet
    ensures Conforms(f.bytes)
  {
    CommandFrame(0xDA, [((enableLeftRightRemap & 0x01) << 5) | ((alternative & 0x01) << 4) | 0x02])
  }

  // 5. Timing and Driving Scheme Setting Command Table

  /** Takes the divide ratio itself (1 to 16) and the 4-bit oscillator setting. */
  function SetDisplayClock(divideRatio: byte, oscillatorFrequency: byte): (f: Frame)
    ensures f.Command?
    ensures Decode(f.bytes) == Some([DisplayClock(((divideRatio - 1) & 0x0F) + 1, oscillatorFrequency & 0x0F)])
    ensures 1 <= divideRatio <= 16 && oscillatorFrequency < 16 ==>
      Decode(f.bytes) == Some([DisplayClock(divideRatio, oscillatorFrequency)])
  {
    CommandFrame(0xD5, [((oscillatorFrequency & 0x0F) << 4) | ((divideRatio - 1) & 0x0F)])
  }

  /** Both phase periods are 4-bit fields. */
  function SetPrechargePeriod(phaseOnePeriod: byte, phaseTwoPeriod: byte): (f: Frame)
    ensures f.Command?
    ensures Decode(f.bytes) == Some([Precharge(phaseOnePeriod & 0x0F, phaseTwoPeriod & 0x0F)])
    ensures phaseOnePeriod < 16 && phaseTwoPeriod < 16 ==>
      Decode(f.bytes) == Some([Precharge(phaseOnePeriod, phaseTwoPeriod)])
  {
    CommandFrame(0xD9, [((phaseTwoPeriod & 0x0F) << 4) | (phaseOnePeriod & 0x0F)])
  }

  function SetVcomhDeselectLevel(level: byte): (f: Frame)
    ensures f.Command? && Decode(f.bytes) == Some([VcomhLevel(level % 8)])
    ensures Conforms(f.bytes)
  {
    CommandFrame(0xDB, [(level & 0x07) << 4])
  }

  function Nop(): (f: Frame)
    ensures f.Command? && Decode(f.bytes) == Some([Cmd.Nop])
  {
    CommandFrame(0xE3, [])
  }
}
