/**
  The two-wire transport as a trace of the calls the driver makes into it,
  and the driver's single-retry rule for one byte (`ssd1306_send_byte`).

  The transport's answer to each write is an oracle: a payload byte comes
  with the acknowledgement of its first attempt and, used only when that
  one is refused, the acknowledgement of its one retry.
*/
module Bus {
  import opened Bytes

  /** One call into the transport: `beginTransmission`, `write(b)` with
      the acknowledgement the transport answered, `endTransmission`. */
  datatype Event = Begin | Write(b: byte, accepted: bool) | End

  /** The oracle's answers for one payload byte. */
  datatype Attempts = Attempts(first: bool, retry: bool)
  {
    /** The byte reached the controller on one of its two attempts. */
    predicate Delivered() { first || retry }
  }

  /** `ssd1306_send_start`: open a transmission and write its control byte.
      The control byte's acknowledgement is not looked at by the driver; the
      trace records it as accepted, because it is the first write into the
      transport's buffer, which `beginTransmission` has just emptied. */
  function SendStart(kind: byte): seq<Event>
  {
    [Begin, Write(kind, true)]
  }

  /** `ssd1306_send_stop`. */
  function SendStop(): seq<Event>
  {
    [End]
  }

  /** The bytes the controller stores from a trace: every accepted write
      except the control byte that opens each transmission. `opening` says
      that the next write is such a control byte. */
  function Received(es: seq<Event>, opening: bool): seq<byte>
    decreases |es|
  {
    if es == [] then []
    else
      match es[0]
      case Begin => Received(es[1..], true)
      case End => Received(es[1..], false)
      case Write(b, ok) =>
        if opening || !ok then Received(es[1..], false)
        else [b] + Received(es[1..], false)
  }

  /** Whether the write after a trace is a control byte. */
  function Opening(es: seq<Event>, opening: bool): bool
    decreases |es|
  {
    if es == [] then opening
    else Opening(es[1..], es[0].Begin?)
  }

  function Begins(es: seq<Event>): nat
  {
    if es == [] then 0 else (if es[0].Begin? then 1 else 0) + Begins(es[1..])
  }

  lemma ReceivedAppend(a: seq<Event>, b: seq<Event>, opening: bool)
    ensures Received(a + b, opening) == Received(a, opening) + Received(b, Opening(a, opening))
    ensures Begins(a + b) == Begins(a) + Begins(b)
  {
    ReceivedBytesAppend(a, b, opening);
    BeginsAppend(a, b);
  }

  lemma {:induction false} ReceivedBytesAppend(a: seq<Event>, b: seq<Event>, opening: bool)
    ensures Received(a + b, opening) == Received(a, opening) + Received(b, Opening(a, opening))
    decreases |a|
  {
    if a != [] {
      assert (a + b)[0] == a[0] && (a + b)[1..] == a[1..] + b;
      ReceivedBytesAppend(a[1..], b, a[0].Begin?);
    } else {
      assert a + b == b;
    }
  }

  lemma {:induction false} BeginsAppend(a: seq<Event>, b: seq<Event>)
    ensures Begins(a + b) == Begins(a) + Begins(b)
    decreases |a|
  {
    if a != [] {
      assert (a + b)[0] == a[0] && (a + b)[1..] == a[1..] + b;
      BeginsAppend(a[1..], b);
    } else {
      assert a + b == b;
    }
  }

  /** `ssd1306_send_byte(kind, b)`: write the byte; if the transport refuses
      it, end the transmission, open a new one of the same kind and write
      the byte once more, whatever that second write answers. */
  function SendByte(kind: byte, b: byte, a: Attempts): (r: seq<Event>)
    ensures Received(r, false) == (if a.Delivered() then [b] else [])
    ensures Opening(r, false) == false
    ensures Begins(r) == (if a.first then 0 else 1)
  {
    if a.first then [Write(b, true)]
    else
      var r := [Write(b, false), End, Begin, Write(kind, true), Write(b, a.retry)];
      assert r[4..][1..] == [] && r[3..][1..] == r[4..] && r[2..][1..] == r[3..] && r[1..][1..] == r[2..];
      assert Received(r[4..], false) == (if a.retry then [b] else []);
      assert Received(r[3..], true) == Received(r[4..], false);
      assert Received(r[2..], false) == Received(r[3..], true);
      assert Received(r[1..], false) == Received(r[2..], false);
      assert Received(r, false) == Received(r[1..], false);
      assert Opening(r[4..], false) == false;
      assert Opening(r[3..], true) == false;
      assert Opening(r[2..], false) == false;
      assert Opening(r[1..], false) == Opening(r[2..], false);
      assert Opening(r, false) == Opening(r[1..], false);
      assert Begins(r[4..]) == 0 && Begins(r[3..]) == 0;
      assert Begins(r[2..]) == 1 + Begins(r[3..]);
      assert Begins(r) == Begins(r[2..]);
      r
  }

  /** The payload bytes that reach the controller: those whose first or
      retried attempt was accepted, in order. */
  function Delivered(p: seq<byte>, acks: seq<Attempts>): seq<byte>
    requires |acks| == |p|
  {
    if p == [] then []
    else (if acks[0].Delivered() then [p[0]] else []) + Delivered(p[1..], acks[1..])
  }

  /** How many payload bytes were refused on their first attempt. */
  function Refusals(acks: seq<Attempts>): nat
  {
    if acks == [] then 0 else (if acks[0].first then 0 else 1) + Refusals(acks[1..])
  }

  /** A run of `ssd1306_send_byte` calls inside one open transmission. */
  function SendBytes(kind: byte, p: seq<byte>, acks: seq<Attempts>): (r: seq<Event>)
    requires |acks| == |p|
    ensures Received(r, false) == Delivered(p, acks)
    ensures Opening(r, false) == false
    ensures Begins(r) == Refusals(acks)
    decreases |p|
  {
    if p == [] then []
    else
      var head := SendByte(kind, p[0], acks[0]);
      var tail := SendBytes(kind, p[1..], acks[1..]);
      ReceivedAppend(head, tail, false);
      OpeningAppend(head, tail, false);
      head + tail
  }

  lemma {:induction false} OpeningAppend(a: seq<Event>, b: seq<Event>, opening: bool)
    ensures Opening(a + b, opening) == Opening(b, Opening(a, opening))
    decreases |a|
  {
    if a != [] {
      assert (a + b)[0] == a[0];
      assert (a + b)[1..] == a[1..] + b;
      OpeningAppend(a[1..], b, a[0].Begin?);
    } else {
      assert a + b == b;
    }
  }

  /** A whole transmission whose payload goes through `ssd1306_send_byte`:
      the init sequence of `begin`, and the data of glyphs, fills and bitmaps. */
  function SendFrame(kind: byte, p: seq<byte>, acks: seq<Attempts>): seq<Event>
    requires |acks| == |p|
  {
    SendStart(kind) + SendBytes(kind, p, acks) + SendStop()
  }

  /** The retry rule's guarantee: the controller receives, in order, exactly
      the payload bytes that one of their two attempts got through; a byte
      refused twice is lost without any report, and the transmission is
      re-opened once per refused first attempt. */
  lemma SendFrameDelivers(kind: byte, p: seq<byte>, acks: seq<Attempts>)
    requires |acks| == |p|
    ensures Received(SendFrame(kind, p, acks), false) == Delivered(p, acks)
    ensures Begins(SendFrame(kind, p, acks)) == 1 + Refusals(acks)
  {
    var body := SendBytes(kind, p, acks);
    assert SendFrame(kind, p, acks) == SendStart(kind) + (body + SendStop());
    FrameAround(kind, body);
  }

  /** A transmission's payload is what its body delivers; the opening
      adds one `beginTransmission`. */
  lemma FrameAround(kind: byte, body: seq<Event>)
    requires Opening(body, false) == false
    ensures Received(SendStart(kind) + (body + SendStop()), false) == Received(body, false)
    ensures Begins(SendStart(kind) + (body + SendStop())) == 1 + Begins(body)
  {
    ReceivedBytesAppend(SendStart(kind), body + SendStop(), false);
    ReceivedBytesAppend(body, SendStop(), false);
    BeginsAppend(SendStart(kind), body + SendStop());
    BeginsAppend(body, SendStop());
  }

  /** With at most single refusals, nothing is lost. */
  lemma {:induction false} DeliveredAll(p: seq<byte>, acks: seq<Attempts>)
    requires |acks| == |p|
    requires forall i :: 0 <= i < |acks| ==> acks[i].Delivered()
    ensures Delivered(p, acks) == p
    decreases |p|
  {
    if p != [] {
      DeliveredAll(p[1..], acks[1..]);
      assert [p[0]] + p[1..] == p;
    }
  }

  /** Plain `TinyWireM.write` calls, with no retry: the bytes of the
      command helpers and of `setCursor` in both drivers, and the glyph
      halves of the legacy 8x16 font. `oks[i]` is the transport's answer
      to the write of `p[i]`. */
  function WriteRaw(p: seq<byte>, oks: seq<bool>): (r: seq<Event>)
    requires |oks| == |p|
    ensures Opening(r, false) == false
    ensures Begins(r) == 0
    decreases |p|
  {
    if p == [] then []
    else
      var tail := WriteRaw(p[1..], oks[1..]);
      OpeningAppend([Write(p[0], oks[0])], tail, false);
      [Write(p[0], oks[0])] + tail
  }

  /** The bytes of `p` whose one write was accepted, in order. */
  function Accepted(p: seq<byte>, oks: seq<bool>): seq<byte>
    requires |oks| == |p|
  {
    if p == [] then [] else (if oks[0] then [p[0]] else []) + Accepted(p[1..], oks[1..])
  }

  /** A transmission written without retries. */
  function RawFrame(kind: byte, p: seq<byte>, oks: seq<bool>): seq<Event>
    requires |oks| == |p|
  {
    SendStart(kind) + WriteRaw(p, oks) + SendStop()
  }

  /** Raw writes deliver exactly the accepted bytes, in one transmission:
      a refused byte is dropped and the rest follow it. */
  lemma RawFrameDelivers(kind: byte, p: seq<byte>, oks: seq<bool>)
    requires |oks| == |p|
    ensures Received(RawFrame(kind, p, oks), false) == Accepted(p, oks)
    ensures Begins(RawFrame(kind, p, oks)) == 1
  {
    var body := WriteRaw(p, oks);
    RawBytesReceived(p, oks);
    assert RawFrame(kind, p, oks) == SendStart(kind) + (body + SendStop());
    FrameAround(kind, body);
  }

  lemma {:induction false} RawBytesReceived(p: seq<byte>, oks: seq<bool>)
    requires |oks| == |p|
    ensures Received(WriteRaw(p, oks), false) == Accepted(p, oks)
    decreases |p|
  {
    if p != [] {
      RawBytesReceived(p[1..], oks[1..]);
      ReceivedAppend([Write(p[0], oks[0])], WriteRaw(p[1..], oks[1..]), false);
      assert [Write(p[0], oks[0])][1..] == [];
    }
  }

  /** What the retry buys: a byte refused once and accepted on its retry
      reaches the controller through `ssd1306_send_byte`, and is lost when
      written raw. */
  lemma RetryRecovers(kind: byte, b: byte)
    ensures Received(SendFrame(kind, [b], [Attempts(false, true)]), false) == [b]
    ensures Received(RawFrame(kind, [b], [false]), false) == []
  {
    SendFrameDelivers(kind, [b], [Attempts(false, true)]);
    RawFrameDelivers(kind, [b], [false]);
    assert [b][1..] == [] && [false][1..] == [];
  }

  /** When every write is accepted, both ways of writing deliver the
      whole payload. */
  lemma {:induction false} AcceptedAll(p: seq<byte>, oks: seq<bool>)
    requires |oks| == |p|
    requires forall i :: 0 <= i < |oks| ==> oks[i]
    ensures Accepted(p, oks) == p
    decreases |p|
  {
    if p != [] {
      assert oks[0];
      AcceptedAll(p[1..], oks[1..]);
      assert [p[0]] + p[1..] == p;
    }
  }
}
