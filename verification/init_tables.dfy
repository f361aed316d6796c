/**
  The controller initialisation tables of `src/Tiny4kOLED_common.h`: the
  power-on defaults, and one table for each supported panel geometry,
  named `tiny4koled_init_{width}x{height}{b}{r}` where `b` (bright) selects
  the internal current reference at its high setting and `r` (rotated)
  turns the picture by 180 degrees.

  Each table is written here as its list of commands, one entry per line
  of the header; the bytes the table holds are those commands back to back
  (`Ssd1306.Flatten`). That the bytes read back as exactly these commands
  is what `Ssd1306.SplitFlatten` proves once the list is well formed.
*/
module InitTables {
  import opened Bytes
  import opened Ssd1306

  /** A command with no argument byte. */
  function C0(op: byte): Command
    requires ArgCount(op) == 0
  {
    RawCommand(op, [])
  }

  /** A command with one argument byte. */
  function C1(op: byte, a: byte): Command
    requires ArgCount(op) == 1
  {
    RawCommand(op, [a])
  }

  // tiny4koled_init_defaults

  const Defaults: seq<Command> := [
    C0(0xAE),        // display off
    C1(0x20, 0x02),  // page addressing mode
    C0(0xB0),        // page 0
    C0(0xC0),        // COM scan not remapped
    C0(0x00),        // column low nibble 0
    C0(0x10),        // column high nibble 0
    C0(0x40),        // start line 0
    C1(0x81, 0x7F),  // contrast
    C0(0xA0),        // column 0 at SEG0
    C0(0xA6),        // normal (not inverse)
    C1(0xA8, 0x3F),  // 64-row multiplex
    C0(0xA4),        // output follows RAM
    C1(0xD3, 0x00),  // no display offset
    C1(0xD5, 0x80),  // clock
    C1(0xD9, 0x22),  // pre-charge
    C1(0xDA, 0x12),  // alternative COM pins
    C1(0xDB, 0x20),  // VCOMH
    C1(0xAD, 0x00),  // external current reference
    C1(0x8D, 0x10)   // charge pump off
  ]

  /** The defaults table is whole commands: every opcode carries exactly
      the argument bytes the datasheet gives it, so the table reads back as
      its own list of commands. */
  lemma DefaultsParse()
    ensures Split(Flatten(Defaults)) == Some(Defaults)
  {
    SplitFlatten(Defaults);
  }

  /** What the defaults table sets: it starts with the display off, selects
      page addressing mode (20h, 10b) and a 64-row multiplex, and ends by
      switching the charge pump off (8Dh, 10h). */
  lemma DefaultsMeaning()
    ensures Decode(Flatten(Defaults)) == Some(Meanings(Defaults))
    ensures |Meanings(Defaults)| == 19
    ensures Meanings(Defaults)[0] == DisplayPower(false)
    ensures Meanings(Defaults)[1] == AddressingMode(2)
    ensures Meanings(Defaults)[10] == MultiplexRatio(64)
    ensures Meanings(Defaults)[18] == Other(0x8D, [0x10])
  {
    DecodeFlatten(Defaults);
    DefaultsHead();
    DefaultsMultiplex();
    DefaultsChargePump();
  }

  lemma DefaultsHead()
    ensures |Defaults| == 19
    ensures Meaning(Defaults[0]) == DisplayPower(false)
    ensures Meaning(Defaults[1]) == AddressingMode(2)
  {
  }

  lemma DefaultsMultiplex()
    ensures |Defaults| == 19 && Meaning(Defaults[10]) == MultiplexRatio(64)
  {
  }

  lemma DefaultsChargePump()
    ensures |Defaults| == 19 && Meaning(Defaults[18]) == Other(0x8D, [0x10])
  {
  }

  /** The bytes of a table end with those of its last command. */
  lemma LastCommand(cs: seq<Command>)
    requires |cs| > 0
    ensures var bs := Flatten(cs); var last := cs[|cs| - 1];
      && |bs| >= 1 + |last.args|
      && bs[|bs| - 1 - |last.args|..] == [last.op] + last.args
  {
    var last := cs[|cs| - 1];
    assert cs == cs[..|cs| - 1] + [last];
    FlattenAppend(cs[..|cs| - 1], [last]);
    assert [last][1..] == [];
    assert Flatten([last]) == [last.op] + last.args + [];
  }

  // The size tables

  /** A panel geometry as a table name spells it. */
  datatype Geometry = Geometry(width: byte, height: byte, bright: bool, rotated: bool)

  const Init128x64: seq<Command> := [C1(0x8D, 0x14)]
  const Init128x64b: seq<Command> := [C1(0xAD, 0x30), C1(0x8D, 0x14)]
  const Init128x64r: seq<Command> := [C0(0xC8), C0(0xA1), C1(0x8D, 0x14)]
  const Init128x64br: seq<Command> := [C0(0xC8), C0(0xA1), C1(0xAD, 0x30), C1(0x8D, 0x14)]
  const Init128x32: seq<Command> := [C1(0xA8, 0x1F), C1(0xDA, 0x02), C1(0x8D, 0x14)]
  const Init128x32b: seq<Command> := [C1(0xA8, 0x1F), C1(0xDA, 0x02), C1(0xAD, 0x30), C1(0x8D, 0x14)]
  const Init128x32r: seq<Command> := [C0(0xC8), C0(0xA1), C1(0xA8, 0x1F), C1(0xDA, 0x02), C1(0x8D, 0x14)]
  const Init128x32br: seq<Command> :=
    [C0(0xC8), C0(0xA1), C1(0xA8, 0x1F), C1(0xDA, 0x02), C1(0xAD, 0x30), C1(0x8D, 0x14)]
  const Init72x40: seq<Command> := [C1(0xA8, 0x27), C1(0x8D, 0x14)]
  const Init72x40b: seq<Command> := [C1(0xA8, 0x27), C1(0xAD, 0x30), C1(0x8D, 0x14)]
  const Init72x40r: seq<Command> := [C0(0xC8), C0(0xA1), C1(0xA8, 0x27), C1(0x8D, 0x14)]
  const Init72x40br: seq<Command> := [C0(0xC8), C0(0xA1), C1(0xA8, 0x27), C1(0xAD, 0x30), C1(0x8D, 0x14)]
  const Init64x48: seq<Command> := [C1(0xA8, 0x2F), C1(0x8D, 0x14)]
  const Init64x48b: seq<Command> := [C1(0xA8, 0x2F), C1(0xAD, 0x30), C1(0x8D, 0x14)]
  const Init64x48r: seq<Command> := [C0(0xC8), C0(0xA1), C1(0xA8, 0x2F), C1(0x8D, 0x14)]
  const Init64x48br: seq<Command> := [C0(0xC8), C0(0xA1), C1(0xA8, 0x2F), C1(0xAD, 0x30), C1(0x8D, 0x14)]
  const Init64x32: seq<Command> := [C1(0xA8, 0x1F), C1(0x8D, 0x14)]
  const Init64x32b: seq<Command> := [C1(0xA8, 0x1F), C1(0xAD, 0x30), C1(0x8D, 0x14)]
  const Init64x32r: seq<Command> := [C0(0xC8), C0(0xA1), C1(0xA8, 0x1F), C1(0x8D, 0x14)]
  const Init64x32br: seq<Command> := [C0(0xC8), C0(0xA1), C1(0xA8, 0x1F), C1(0xAD, 0x30), C1(0x8D, 0x14)]

  /** One of the four tables of a size, by the bright and rotated flags. */
  function Pick(g: Geometry, plain: seq<Command>, b: seq<Command>, r: seq<Command>, br: seq<Command>): seq<Command>
  {
    if g.bright then (if g.rotated then br else b) else if g.rotated then r else plain
  }

  /** The table the header provides for a geometry, if any: the four
      combinations of bright and rotated for 128x64, 128x32, 72x40, 64x48
      and 64x32. */
  function SizeTable(g: Geometry): Option<seq<Command>>
  {
    match (g.width, g.height)
    case (128, 64) => Some(Pick(g, Init128x64, Init128x64b, Init128x64r, Init128x64br))
    case (128, 32) => Some(Pick(g, Init128x32, Init128x32b, Init128x32r, Init128x32br))
    case (72, 40) => Some(Pick(g, Init72x40, Init72x40b, Init72x40r, Init72x40br))
    case (64, 48) => Some(Pick(g, Init64x48, Init64x48b, Init64x48r, Init64x48br))
    case (64, 32) => Some(Pick(g, Init64x32, Init64x32b, Init64x32r, Init64x32br))
    case _ => None
  }

  /** The naming rule, as a reference table: a rotated panel flips the COM
      scan (C8h) and the segment map (A1h); a panel shorter than the
      controller's 64 rows sets the multiplex ratio to its height (A8h,
      height - 1); the 128x32 panel wires its COM pins sequentially (DAh,
      02h); a bright panel selects the internal current reference at 30h
      (ADh); every table ends by enabling the charge pump (8Dh, 14h). */
  function NamingRule(g: Geometry): seq<Command>
    requires 1 <= g.height <= 64
  {
    Flips(g) + Mux(g) + Tail(g)
  }

  function Flips(g: Geometry): seq<Command>
  {
    if g.rotated then [C0(0xC8), C0(0xA1)] else []
  }

  function Mux(g: Geometry): seq<Command>
    requires 1 <= g.height <= 64
  {
    if g.height != 64 then [C1(0xA8, g.height - 1)] else []
  }

  function Tail(g: Geometry): seq<Command>
  {
    (if g.width == 128 && g.height == 32 then [C1(0xDA, 0x02)] else [])
    + (if g.bright then [C1(0xAD, 0x30)] else [])
    + [C1(0x8D, 0x14)]
  }

  /** Every size table of the header is the one its name calls for. */
  lemma SizeTablesFollowNamingRule(g: Geometry)
    requires SizeTable(g).Some?
    ensures 1 <= g.height <= 64 && SizeTable(g).value == NamingRule(g)
  {
    var (w, h) := (g.width, g.height);
    if w == 128 && h == 64 {
      Rule128x64(g);
    } else if w == 128 && h == 32 {
      Rule128x32(g);
    } else if w == 72 {
      Rule72x40(g);
    } else if h == 48 {
      Rule64x48(g);
    } else {
      Rule64x32(g);
    }
  }

  lemma Rule128x64(g: Geometry)
    requires g.width == 128 && g.height == 64
    ensures NamingRule(g) == Pick(g, Init128x64, Init128x64b, Init128x64r, Init128x64br)
  {
    assert g == Geometry(128, 64, g.bright, g.rotated);
  }

  lemma Rule128x32(g: Geometry)
    requires g.width == 128 && g.height == 32
    ensures NamingRule(g) == Pick(g, Init128x32, Init128x32b, Init128x32r, Init128x32br)
  {
    assert g == Geometry(128, 32, g.bright, g.rotated);
  }

  lemma Rule72x40(g: Geometry)
    requires g.width == 72 && g.height == 40
    ensures NamingRule(g) == Pick(g, Init72x40, Init72x40b, Init72x40r, Init72x40br)
  {
    assert g == Geometry(72, 40, g.bright, g.rotated);
  }

  lemma Rule64x48(g: Geometry)
    requires g.width == 64 && g.height == 48
    ensures NamingRule(g) == Pick(g, Init64x48, Init64x48b, Init64x48r, Init64x48br)
  {
    assert g == Geometry(64, 48, g.bright, g.rotated);
  }

  lemma Rule64x32(g: Geometry)
    requires g.width == 64 && g.height == 32
    ensures NamingRule(g) == Pick(g, Init64x32, Init64x32b, Init64x32r, Init64x32br)
  {
    assert g == Geometry(64, 32, g.bright, g.rotated);
  }

  /** The commands of `cs` with opcode `op`, in order. */
  function OfOpcode(cs: seq<Command>, op: byte): (r: seq<Command>)
    ensures forall k :: 0 <= k < |r| ==> r[k].op == op
  {
    if cs == [] then [] else (if cs[0].op == op then [cs[0]] else []) + OfOpcode(cs[1..], op)
  }

  lemma {:induction false} OfOpcodeAppend(a: seq<Command>, b: seq<Command>, op: byte)
    ensures OfOpcode(a + b, op) == OfOpcode(a, op) + OfOpcode(b, op)
    decreases |a|
  {
    if a == [] {
      assert a + b == b;
    } else {
      assert (a + b)[0] == a[0] && (a + b)[1..] == a[1..] + b;
      OfOpcodeAppend(a[1..], b, op);
    }
  }

  /** Every command of `cs` has opcode `op` or is absent from the filter. */
  lemma {:induction false} OfOpcodeComplete(cs: seq<Command>, op: byte)
    ensures forall k :: 0 <= k < |cs| && cs[k].op == op ==> cs[k] in OfOpcode(cs, op)
    decreases |cs|
  {
    if cs != [] {
      OfOpcodeComplete(cs[1..], op);
      forall k | 0 <= k < |cs| && cs[k].op == op
        ensures cs[k] in OfOpcode(cs, op)
      {
        if k > 0 {
          assert cs[k] == cs[1..][k - 1];
        }
      }
    }
  }

  lemma OfOpcodeSingle(c: Command, op: byte)
    ensures OfOpcode([c], op) == if c.op == op then [c] else []
  {
    assert [c][1..] == [];
  }

  /** The multiplex command appears exactly when the panel is shorter than
      64 rows, once, with the height minus one as its argument, which the
      controller reads as a ratio equal to the height. */
  lemma NamingRuleMultiplex(g: Geometry)
    requires 1 <= g.height <= 64
    ensures OfOpcode(NamingRule(g), 0xA8) == (if g.height != 64 then [C1(0xA8, g.height - 1)] else [])
    ensures g.height != 64 ==> Meaning(C1(0xA8, g.height - 1)) == MultiplexRatio(g.height)
  {
    MultiplexCommands(g);
    if g.height != 64 {
      MuxArgument(g.height);
    }
  }

  /** The filter half of `NamingRuleMultiplex`. */
  lemma MultiplexCommands(g: Geometry)
    requires 1 <= g.height <= 64
    ensures OfOpcode(NamingRule(g), 0xA8) == (if g.height != 64 then [C1(0xA8, g.height - 1)] else [])
  {
    var flips, mux, rest := Flips(g), Mux(g), Tail(g);
    OfOpcodeAppend(flips + mux, rest, 0xA8);
    OfOpcodeAppend(flips, mux, 0xA8);
    FlipsLackMux(g);
    TailLacksMux(g);
    if g.height != 64 {
      OfOpcodeSingle(C1(0xA8, g.height - 1), 0xA8);
    }
  }

  lemma FlipsLackMux(g: Geometry)
    ensures OfOpcode(Flips(g), 0xA8) == []
  {
    if g.rotated {
      OfOpcodeSingle(C0(0xC8), 0xA8);
      OfOpcodeSingle(C0(0xA1), 0xA8);
      OfOpcodeAppend([C0(0xC8)], [C0(0xA1)], 0xA8);
      assert Flips(g) == [C0(0xC8)] + [C0(0xA1)];
    }
  }

  lemma TailLacksMux(g: Geometry)
    ensures OfOpcode(Tail(g), 0xA8) == []
  {
    var pins: seq<Command> := if g.width == 128 && g.height == 32 then [C1(0xDA, 0x02)] else [];
    var bright: seq<Command> := if g.bright then [C1(0xAD, 0x30)] else [];
    assert Tail(g) == pins + bright + [C1(0x8D, 0x14)];
    OfOpcodeAppend(pins + bright, [C1(0x8D, 0x14)], 0xA8);
    OfOpcodeAppend(pins, bright, 0xA8);
    OfOpcodeSingle(C1(0x8D, 0x14), 0xA8);
    OfOpcodeSingle(C1(0xDA, 0x02), 0xA8);
    OfOpcodeSingle(C1(0xAD, 0x30), 0xA8);
  }

  /** A8h carries the ratio minus one in its low six bits. */
  lemma MuxArgument(height: byte)
    requires 1 <= height <= 64
    ensures Meaning(C1(0xA8, height - 1)) == MultiplexRatio(height)
  {
  }

  /** `r` in the name: both flips present exactly for rotated panels. */
  lemma NamingRuleRotated(g: Geometry)
    requires 1 <= g.height <= 64
    ensures g.rotated <==> C0(0xC8) in NamingRule(g) && C0(0xA1) in NamingRule(g)
  {
    var cs := NamingRule(g);
    if g.rotated {
      assert cs[0] == C0(0xC8) && cs[1] == C0(0xA1);
    }
  }

  /** `b` in the name: the internal current reference at its high setting
      exactly for bright panels. */
  lemma NamingRuleBright(g: Geometry)
    requires 1 <= g.height <= 64
    ensures g.bright <==> C1(0xAD, 0x30) in NamingRule(g)
  {
    var cs := NamingRule(g);
    if g.bright {
      assert cs[|cs| - 2] == C1(0xAD, 0x30);
    }
  }

  /** Each table of the rule parses back into its own commands, and its
      bytes end by enabling the charge pump (8Dh, 14h). */
  lemma NamingRuleParses(g: Geometry)
    requires 1 <= g.height <= 64
    ensures Split(Flatten(NamingRule(g))) == Some(NamingRule(g))
    ensures var bs := Flatten(NamingRule(g)); |bs| >= 2 && bs[|bs| - 2..] == [0x8D, 0x14]
  {
    var cs := NamingRule(g);
    SplitFlatten(cs);
    assert cs[|cs| - 1] == C1(0x8D, 0x14);
    LastCommand(cs);
  }
}
