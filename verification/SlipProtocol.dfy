/**
 What the framing of nrf/drivers/net/eth_rtt.c is to mean, said without its decoder: the PROTOCOL
 section of RFC 1055 read with one byte of look-ahead, and the frames that carry the right checksum
 in their last two bytes. The decoder of `Slip`, run on chunks, is proved to hand over exactly these.
 */
module SlipProtocol {
  import opened Bytes
  import opened Slip
  import opened Wrappers

  /** The bodies between END bytes (192) and the body begun last. ESC (219) before 220 stands for
      192 and before 221 for itself; before any other byte it is left as it is. */
  function Deframed(begun: seq<byte>, wire: seq<byte>): (seq<seq<byte>>, seq<byte>)
    decreases |wire|
  {
    if wire == [] then ([], begun)
    else if wire[0] == 192 then
      var (bodies, last) := Deframed([], wire[1..]);
      ([begun] + bodies, last)
    else if |wire| > 1 && wire[0] == 219 && wire[1] == 220 then Deframed(begun + [192], wire[2..])
    else if |wire| > 1 && wire[0] == 219 && wire[1] == 221 then Deframed(begun + [219], wire[2..])
    else Deframed(begun + [wire[0]], wire[1..])
  }

  /** A body that carries a frame: the frame is not empty, and the high and then the low byte of its
      checksum follow it. */
  predicate Carries(step: (uint16, byte) -> uint16, body: seq<byte>, frame: seq<byte>) {
    && |frame| > 0 && |body| == |frame| + 2 && body[..|frame|] == frame
    && body[|frame|] as int * 256 + body[|frame| + 1] as int == Crc(step, 0xFFFF, frame) as int
  }

  /** The frames are those that the bodies carry, in order; other bodies are dropped. */
  ghost predicate Handed(step: (uint16, byte) -> uint16, bodies: seq<seq<byte>>, frames: seq<seq<byte>>)
    decreases bodies
  {
    if bodies == [] then frames == []
    else if exists f :: Carries(step, bodies[0], f) then
      frames != [] && Carries(step, bodies[0], frames[0]) && Handed(step, bodies[1..], frames[1..])
    else Handed(step, bodies[1..], frames)
  }

  // ----- The decoder ------------------------------------------------------------------------------

  /** The decoded part without a raw ESC at its end, which is still to be read with what follows. */
  function Settled(rx: Rx): seq<byte>
    requires Valid(rx)
  {
    if rx.last == ESC then rx.part[..|rx.part| - 1] else rx.part
  }

  function Unread(rx: Rx, wire: seq<byte>): seq<byte> {
    if rx.last == ESC then [ESC] + wire else wire
  }

  lemma StepDeframes(rx: Rx, b: byte, wire: seq<byte>)
    requires Valid(rx)
    ensures var (bodies, last) := Deframed(Settled(Step(rx, b)), Unread(Step(rx, b), wire));
      && Deframed(Settled(rx), Unread(rx, [b] + wire)) == ((if b == END then [rx.part] else []) + bodies, last)
      && Step(rx, b).frames == rx.frames + (if b == END then [rx.part] else [])
  {
    var raw, next := Unread(rx, [b] + wire), Step(rx, b);
    assert ([b] + wire)[1..] == wire && forall s: seq<seq<byte>> :: [] + s == s;
    if rx.last == ESC {
      assert raw[1..] == [b] + wire && raw[2..] == wire && Settled(rx) + [ESC] == rx.part;
      assert b == ESC ==> Settled(next) == rx.part;
    }
  }

  lemma {:induction false} DecodeDeframes(rx: Rx, wire: seq<byte>)
    requires Valid(rx)
    ensures var (bodies, last) := Deframed(Settled(rx), Unread(rx, wire));
      Decode(rx, wire).frames == rx.frames + bodies && Decode(rx, wire).part == last
    decreases wire
  {
    if wire == [] {
      assert rx.last == ESC ==> [ESC] + wire == [ESC] && [ESC][1..] == [] && Settled(rx) + [ESC] == rx.part;
    } else {
      hide Step, Deframed, Settled;
      var next := Step(rx, wire[0]);
      assert wire == [wire[0]] + wire[1..];
      StepDeframes(rx, wire[0], wire[1..]);
      DecodeDeframes(next, wire[1..]);
      Assoc(rx.frames, if wire[0] == END then [rx.part] else [], Deframed(Settled(next), Unread(next, wire[1..])).0);
    }
  }

  /** On any wire bytes the decoder finds the bodies of the protocol, and the one begun last. */
  lemma DecodeIsProtocol(wire: seq<byte>)
    ensures Deframed([], wire) == (Decode(IDLE, wire).frames, Decode(IDLE, wire).part)
  {
    DecodeDeframes(IDLE, wire);
    assert [] + wire == wire && [] + Decode(IDLE, wire).frames == Decode(IDLE, wire).frames;
    assert forall s: seq<seq<byte>> :: [] + s == s;
  }

  // ----- The checksum -----------------------------------------------------------------------------

  lemma AcceptedCarries(step: (uint16, byte) -> uint16, body: seq<byte>, frame: seq<byte>)
    ensures Accepted(step, body) == [frame] <==> Carries(step, body, frame)
    ensures Accepted(step, body) == [] || exists f :: Accepted(step, body) == [f]
  {
    if |body| > 2 {
      var f := body[..|body| - 2];
      var crc := Crc(step, 0xFFFF, f);
      assert crc as int == (crc as int / 256) * 256 + crc as int % 256;
      assert body[|body| - 2..] == [body[|body| - 2], body[|body| - 1]];
    }
  }

  /** What is delivered from any bodies is what they carry, and nothing else would be. */
  lemma {:induction false} DeliveredIsHanded(step: (uint16, byte) -> uint16, bodies: seq<seq<byte>>, frames: seq<seq<byte>>)
    ensures Handed(step, bodies, frames) <==> frames == Delivered(step, bodies)
    decreases bodies
  {
    if bodies != [] {
      var first := Accepted(step, bodies[0]);
      forall f ensures first == [f] <==> Carries(step, bodies[0], f) {
        AcceptedCarries(step, bodies[0], f);
      }
      AcceptedCarries(step, bodies[0], []);
      var rest := if first == [] || frames == [] then frames else frames[1..];
      DeliveredIsHanded(step, bodies[1..], rest);
      assert frames != [] ==> frames == [frames[0]] + frames[1..];
    }
  }

  /** In any chunking without a bad split and without overflow, the receiver hands over exactly the
      frames that the wire carries by the protocol. */
  lemma ReceiverKeepsProtocol(step: (uint16, byte) -> uint16, cap: nat, chunks: seq<seq<byte>>)
    requires AllChunksNonEmpty(chunks) && Fits(cap, Flat(chunks)) && NoBadSplit([], chunks)
    ensures Handed(step, Deframed([], Flat(chunks)).0, Delivered(step, PolledAll(cap, IDLE, chunks).frames))
  {
    ChunkedIsStreamedIff(cap, chunks);
    DecodeIsProtocol(Flat(chunks));
    DeliveredIsHanded(step, Decode(IDLE, Flat(chunks)).frames, Delivered(step, PolledAll(cap, IDLE, chunks).frames));
  }

  // ----- The sender -------------------------------------------------------------------------------

  lemma {:induction false} StuffedHasNoEnd(data: seq<byte>)
    ensures 192 !in Stuff(data)
  {
    if data != [] {
      StuffedHasNoEnd(data[1..]);
    }
  }

  /** A frame is sent between two END bytes, with none inside, and reads back as itself and its checksum. */
  lemma SentIsProtocol(step: (uint16, byte) -> uint16, frame: seq<byte>)
    ensures var wire := Encoded(step, frame);
      && |wire| >= 2 && wire[0] == 192 && wire[|wire| - 1] == 192 && 192 !in wire[1..|wire| - 1]
      && exists body :: Deframed([], wire) == ([[], body], []) && (frame != [] ==> Carries(step, body, frame))
  {
    var wire, body := Encoded(step, frame), Body(step, frame);
    FrameDecodes(step, IDLE, frame);
    DecodeIsProtocol(wire);
    StuffedHasNoEnd(body);
    assert wire[1..|wire| - 1] == Stuff(body);
    assert [] + [[], body] == [[], body];
  }
}
