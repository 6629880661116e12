/**
 The SLIP framing of nrf/drivers/net/eth_rtt.c as functions on byte sequences: the encoder's
 wire format, the decoder as one stream, and the decoder as the driver runs it, chunk by
 chunk, with only the decoded bytes carried over. SLIP is the PROTOCOL section of RFC 1055.
 */
module Slip {

  import opened Bytes

  const END: byte := 0xC0
  const ESC: byte := 0xDB
  const ESC_END: byte := 0xDC
  const ESC_ESC: byte := 0xDD

  // ----- Checksum ---------------------------------------------------------------

  /** crc16_ccitt, as the fold of an arbitrary one-byte step. */
  function Crc(step: (uint16, byte) -> uint16, crc: uint16, data: seq<byte>): uint16
    decreases data
  {
    if data == [] then crc else Crc(step, step(crc, data[0]), data[1..])
  }

  lemma {:induction false} CrcOfFragments(step: (uint16, byte) -> uint16, crc: uint16, a: seq<byte>, b: seq<byte>)
    ensures Crc(step, crc, a + b) == Crc(step, Crc(step, crc, a), b)
    decreases a
  {
    if a == [] {
      assert a + b == b;
    } else {
      assert (a + b)[1..] == a[1..] + b;
      CrcOfFragments(step, step(crc, a[0]), a[1..], b);
    }
  }

  /** The checksum takes one byte after the other, with no byte left out. */
  lemma CrcIsFold(step: (uint16, byte) -> uint16, crc: uint16, data: seq<byte>, b: byte)
    ensures Crc(step, crc, []) == crc
    ensures Crc(step, crc, data + [b]) == step(Crc(step, crc, data), b)
  {
    CrcOfFragments(step, crc, data, [b]);
  }

  function CrcBytes(crc: uint16): seq<byte> {
    [(crc / 0x100) as byte, (crc % 0x100) as byte]
  }

  // ----- Wire format ------------------------------------------------------------

  function StuffByte(b: byte): seq<byte> {
    if b == END then [ESC, ESC_END] else if b == ESC then [ESC, ESC_ESC] else [b]
  }

  function Stuff(data: seq<byte>): seq<byte> {
    if data == [] then [] else StuffByte(data[0]) + Stuff(data[1..])
  }

  lemma {:induction false} StuffJoin(a: seq<byte>, b: seq<byte>)
    ensures Stuff(a + b) == Stuff(a) + Stuff(b)
  {
    if a == [] {
      assert a + b == b;
    } else {
      assert (a + b)[1..] == a[1..] + b;
      StuffJoin(a[1..], b);
    }
  }

  /** A frame and its checksum, which is what travels between two END bytes. */
  function Body(step: (uint16, byte) -> uint16, frame: seq<byte>): seq<byte> {
    frame + CrcBytes(Crc(step, 0xFFFF, frame))
  }

  function Encoded(step: (uint16, byte) -> uint16, frame: seq<byte>): seq<byte> {
    [END] + Stuff(Body(step, frame)) + [END]
  }

  function EncodedAll(step: (uint16, byte) -> uint16, frames: seq<seq<byte>>): seq<byte> {
    if frames == [] then [] else Encoded(step, frames[0]) + EncodedAll(step, frames[1..])
  }

  // ----- Decoding one stream ----------------------------------------------------

  /** Frames completed, bytes decoded of the current frame, and the last raw byte. */
  datatype Rx = Rx(frames: seq<seq<byte>>, part: seq<byte>, last: byte)

  function LastOf(part: seq<byte>): byte {
    if part == [] then 0 else part[|part| - 1]
  }

  /** A raw ESC is in the buffer as it came. */
  predicate Valid(rx: Rx) {
    rx.last == ESC ==> LastOf(rx.part) == ESC
  }

  /** The loop body of decode_new_slip_data. */
  function Step(rx: Rx, b: byte): (r: Rx)
    requires Valid(rx)
    ensures Valid(r) && r.last == b
  {
    if b == END then Rx(rx.frames + [rx.part], [], b)
    else if rx.last == ESC && b == ESC_END then Rx(rx.frames, rx.part[..|rx.part| - 1] + [END], b)
    else if rx.last == ESC && b == ESC_ESC then Rx(rx.frames, rx.part[..|rx.part| - 1] + [ESC], b)
    else Rx(rx.frames, rx.part + [b], b)
  }

  function Decode(rx: Rx, data: seq<byte>): (r: Rx)
    requires Valid(rx)
    ensures Valid(r)
    decreases data
  {
    if data == [] then rx else Decode(Step(rx, data[0]), data[1..])
  }

  lemma {:induction false} DecodeJoin(rx: Rx, a: seq<byte>, b: seq<byte>)
    requires Valid(rx)
    ensures Decode(rx, a + b) == Decode(Decode(rx, a), b)
    decreases a
  {
    if a == [] {
      assert a + b == b;
    } else {
      assert (a + b)[1..] == a[1..] + b;
      DecodeJoin(Step(rx, a[0]), a[1..], b);
    }
  }

  const IDLE := Rx([], [], 0)

  // ----- Delivery ---------------------------------------------------------------

  /** recv_frame: too short and damaged frames are dropped, the checksum is cut off. */
  function Accepted(step: (uint16, byte) -> uint16, body: seq<byte>): seq<seq<byte>> {
    if |body| <= 2 then []
    else
      var frame := body[..|body| - 2];
      if body[|body| - 2..] == CrcBytes(Crc(step, 0xFFFF, frame)) then [frame] else []
  }

  function Delivered(step: (uint16, byte) -> uint16, bodies: seq<seq<byte>>): seq<seq<byte>> {
    if bodies == [] then [] else Accepted(step, bodies[0]) + Delivered(step, bodies[1..])
  }

  lemma {:induction false} DeliveredJoin(step: (uint16, byte) -> uint16, a: seq<seq<byte>>, b: seq<seq<byte>>)
    ensures Delivered(step, a + b) == Delivered(step, a) + Delivered(step, b)
  {
    if a == [] {
      assert a + b == b;
    } else {
      assert (a + b)[1..] == a[1..] + b;
      DeliveredJoin(step, a[1..], b);
    }
  }

  // ----- Round trip -------------------------------------------------------------

  /** Stuffed bytes decode to themselves, and never leave an ESC pending. */
  lemma {:induction false} StuffedDecodes(rx: Rx, data: seq<byte>)
    requires Valid(rx) && rx.last != ESC
    ensures var r := Decode(rx, Stuff(data)); r.frames == rx.frames && r.part == rx.part + data && r.last != ESC
    decreases data
  {
    if data != [] {
      var b := data[0];
      DecodeJoin(rx, StuffByte(b), Stuff(data[1..]));
      StuffedByteDecodes(rx, b);
      StuffedDecodes(Decode(rx, StuffByte(b)), data[1..]);
      assert rx.part + [b] + data[1..] == rx.part + data;
    }
  }

  lemma StuffedByteDecodes(rx: Rx, b: byte)
    requires Valid(rx) && rx.last != ESC
    ensures var r := Decode(rx, StuffByte(b)); r.frames == rx.frames && r.part == rx.part + [b] && r.last != ESC
  {
    var s := StuffByte(b);
    assert Decode(rx, s) == Decode(Step(rx, s[0]), s[1..]);
    if |s| == 2 {
      assert s[1..] == [s[1]];
      assert Decode(Step(rx, s[0]), [s[1]]) == Step(Step(rx, s[0]), s[1]);
      assert (rx.part + [ESC])[..|rx.part|] == rx.part;
    } else {
      assert s[1..] == [];
    }
  }

  lemma DecodeOne(rx: Rx, b: byte)
    requires Valid(rx)
    ensures Decode(rx, [b]) == Step(rx, b)
  {
  }

  /** What the wire form of frames decodes to: an empty body and a full one for each. */
  function Bodies(step: (uint16, byte) -> uint16, frames: seq<seq<byte>>): seq<seq<byte>> {
    if frames == [] then [] else [[], Body(step, frames[0])] + Bodies(step, frames[1..])
  }

  lemma FrameDecodes(step: (uint16, byte) -> uint16, rx: Rx, frame: seq<byte>)
    requires Valid(rx) && rx.part == [] && rx.last != ESC
    ensures Decode(rx, Encoded(step, frame)) == Rx(rx.frames + [[], Body(step, frame)], [], END)
  {
    var s := Stuff(Body(step, frame));
    DecodeJoin(rx, [END] + s, [END]);
    DecodeJoin(rx, [END], s);
    DecodeOne(rx, END);
    var rx1 := Step(rx, END);
    StuffedDecodes(rx1, Body(step, frame));
    assert rx1.part + Body(step, frame) == Body(step, frame);
    DecodeOne(Decode(rx1, s), END);
    assert rx.frames + [[]] + [Body(step, frame)] == rx.frames + [[], Body(step, frame)];
  }

  lemma {:induction false} FramesDecode(step: (uint16, byte) -> uint16, rx: Rx, frames: seq<seq<byte>>)
    requires Valid(rx) && rx.part == [] && rx.last != ESC
    ensures var r := Decode(rx, EncodedAll(step, frames));
            r.frames == rx.frames + Bodies(step, frames) && r.part == [] && r.last != ESC
    decreases frames
  {
    if frames != [] {
      DecodeJoin(rx, Encoded(step, frames[0]), EncodedAll(step, frames[1..]));
      FrameDecodes(step, rx, frames[0]);
      FramesDecode(step, Rx(rx.frames + [[], Body(step, frames[0])], [], END), frames[1..]);
      assert rx.frames + [[], Body(step, frames[0])] + Bodies(step, frames[1..]) == rx.frames + Bodies(step, frames);
    }
  }

  predicate AllNonEmpty(frames: seq<seq<byte>>) {
    forall i :: 0 <= i < |frames| ==> frames[i] != []
  }

  lemma BodyAccepted(step: (uint16, byte) -> uint16, frame: seq<byte>)
    ensures Accepted(step, Body(step, frame)) == if frame == [] then [] else [frame]
  {
  }

  lemma {:induction false} BodiesDeliver(step: (uint16, byte) -> uint16, frames: seq<seq<byte>>)
    requires AllNonEmpty(frames)
    ensures Delivered(step, Bodies(step, frames)) == frames
  {
    if frames != [] {
      var f := frames[0];
      BodiesDeliver(step, frames[1..]);
      BodyAccepted(step, f);
      DeliveredJoin(step, [[], Body(step, f)], Bodies(step, frames[1..]));
      assert [[], Body(step, f)][1..] == [Body(step, f)];
      DeliveredOne(step, Body(step, f));
    }
  }

  lemma DeliveredOne(step: (uint16, byte) -> uint16, body: seq<byte>)
    ensures Delivered(step, [body]) == Accepted(step, body)
  {
  }

  // ----- Decoding in chunks -----------------------------------------------------

  function Flat(chunks: seq<seq<byte>>): seq<byte> {
    if chunks == [] then [] else chunks[0] + Flat(chunks[1..])
  }

  /** One round of the polling loop: a full buffer is thrown away, and the last raw byte is
      taken to be the last decoded one. */
  function Polled(cap: nat, rx: Rx, chunk: seq<byte>): (r: Rx)
    ensures Valid(r)
  {
    var part := if |rx.part| >= cap then [] else rx.part;
    Decode(Rx(rx.frames, part, LastOf(part)), chunk)
  }

  function PolledAll(cap: nat, rx: Rx, chunks: seq<seq<byte>>): Rx
    decreases chunks
  {
    if chunks == [] then rx else PolledAll(cap, Polled(cap, rx, chunks[0]), chunks[1..])
  }

  predicate EndsInEscapedEsc(w: seq<byte>) {
    |w| >= 2 && w[|w| - 2] == ESC && w[|w| - 1] == ESC_ESC
  }

  /** A chunk boundary right after an escaped ESC, with a byte next that would complete an
      escape if that ESC were a raw one. */
  predicate BadSplit(before: seq<byte>, chunk: seq<byte>) {
    EndsInEscapedEsc(before) && chunk != [] && (chunk[0] == ESC_END || chunk[0] == ESC_ESC)
  }

  predicate NoBadSplit(before: seq<byte>, chunks: seq<seq<byte>>)
    decreases chunks
  {
    chunks == [] || (!BadSplit(before, chunks[0]) && NoBadSplit(before + chunks[0], chunks[1..]))
  }

  // A step leaves an ESC that is not a raw one exactly when it completes an escaped ESC.
  lemma StepTail(rx: Rx, b: byte)
    requires Valid(rx)
    ensures LastOf(Step(rx, b).part) == ESC && b != ESC <==> rx.last == ESC && b == ESC_ESC
  {
  }

  /** What the decoded bytes end in tells whether the last raw byte was ESC, except after an
      escaped ESC. */
  lemma {:induction false} DecodedTail(w: seq<byte>)
    ensures var rx := Decode(IDLE, w);
            && rx.last == (if w == [] then 0 else w[|w| - 1])
            && (EndsInEscapedEsc(w) <==> LastOf(rx.part) == ESC && rx.last != ESC)
    decreases |w|
  {
    hide Step;
    if w != [] {
      var u, b := w[..|w| - 1], w[|w| - 1];
      DecodedTail(u);
      assert w == u + [b];
      DecodeJoin(IDLE, u, [b]);
      DecodeOne(Decode(IDLE, u), b);
      StepTail(Decode(IDLE, u), b);
    }
  }

  // ----- Falling behind the stream ----------------------------------------------

  predicate NoLonger(c: seq<byte>, s: seq<byte>) {
    c == s || |c| < |s|
  }

  /** Frame by frame, c is s or shorter. */
  ghost predicate Behind(c: Rx, s: Rx) {
    && Valid(c) && Valid(s) && |c.frames| == |s.frames|
    && (forall i :: 0 <= i < |s.frames| ==> NoLonger(c.frames[i], s.frames[i]))
    && NoLonger(c.part, s.part)
    && (s.last == ESC ==> c.last == ESC)
  }

  /** Somewhere a byte has been lost. */
  ghost predicate Lost(c: Rx, s: Rx)
    requires |c.frames| == |s.frames|
  {
    |c.part| < |s.part| || exists i :: 0 <= i < |s.frames| && |c.frames[i]| < |s.frames[i]|
  }

  lemma StepBehind(c: Rx, s: Rx, b: byte)
    requires Behind(c, s) && (c.part == s.part ==> c.last == s.last)
    ensures var c', s' := Step(c, b), Step(s, b);
            Behind(c', s') && c'.last == s'.last && (Lost(c, s) ==> Lost(c', s'))
  {
    var c', s' := Step(c, b), Step(s, b);
    if b == END && Lost(c, s) {
      if |c.part| < |s.part| {
        assert |c'.frames[|c.frames|]| < |s'.frames[|s.frames|]|;
      } else {
        var i :| 0 <= i < |s.frames| && |c.frames[i]| < |s.frames[i]|;
        assert |c'.frames[i]| < |s'.frames[i]|;
      }
    }
  }

  lemma {:induction false} DecodeBehind(c: Rx, s: Rx, data: seq<byte>)
    requires Behind(c, s) && c.last == s.last
    ensures var c', s' := Decode(c, data), Decode(s, data);
            Behind(c', s') && c'.last == s'.last && (Lost(c, s) ==> Lost(c', s'))
    decreases data
  {
    if data != [] {
      StepBehind(c, s, data[0]);
      DecodeBehind(Step(c, data[0]), Step(s, data[0]), data[1..]);
    }
  }

  // The first byte after a chunk boundary: a byte is lost exactly at a bad split.
  lemma BoundaryStep(c: Rx, s: Rx, b: byte)
    requires Behind(c, s)
    ensures var c', s' := Step(Rx(c.frames, c.part, LastOf(c.part)), b), Step(s, b);
            var bad := LastOf(s.part) == ESC && s.last != ESC && (b == ESC_END || b == ESC_ESC);
            && Behind(c', s') && c'.last == s'.last
            && (Lost(c, s) || (c.part == s.part && bad) ==> Lost(c', s'))
            && (c.part == s.part && c.frames == s.frames && !bad ==> c' == s')
  {
    var c0 := Rx(c.frames, c.part, LastOf(c.part));
    if c.part != s.part || c0.last == s.last {
      StepBehind(c0, s, b);
    } else if Lost(c, s) && b == END {
      var i :| 0 <= i < |s.frames| && |c.frames[i]| < |s.frames[i]|;
      assert |Step(c0, b).frames[i]| < |Step(s, b).frames[i]|;
    }
  }

  lemma PollBehind(cap: nat, c: Rx, s: Rx, before: seq<byte>, chunk: seq<byte>)
    requires s == Decode(IDLE, before) && Behind(c, s) && |s.part| < cap && chunk != []
    ensures var c', s' := Polled(cap, c, chunk), Decode(s, chunk);
            && Behind(c', s')
            && (Lost(c, s) || (c.part == s.part && BadSplit(before, chunk)) ==> Lost(c', s'))
            && (c.part == s.part && c.frames == s.frames && !BadSplit(before, chunk) ==> c' == s')
  {
    var c0 := Rx(c.frames, c.part, LastOf(c.part));
    DecodedTail(before);
    BoundaryStep(c, s, chunk[0]);
    DecodeBehind(Step(c0, chunk[0]), Step(s, chunk[0]), chunk[1..]);
  }

  /** No prefix of the wire leaves a partial frame that fills the buffer. */
  ghost predicate Fits(cap: nat, wire: seq<byte>) {
    forall k :: 0 <= k <= |wire| ==> |Decode(IDLE, wire[..k]).part| < cap
  }

  predicate AllChunksNonEmpty(chunks: seq<seq<byte>>) {
    forall i :: 0 <= i < |chunks| ==> chunks[i] != []
  }

  /** The chunked decoder against the stream: without a bad split they agree; with one, a byte
      is lost and the two never agree again. */
  lemma {:induction false} ChunksAgainstStream(cap: nat, c: Rx, before: seq<byte>, chunks: seq<seq<byte>>)
    requires Behind(c, Decode(IDLE, before)) && (c == Decode(IDLE, before) || Lost(c, Decode(IDLE, before)))
    requires AllChunksNonEmpty(chunks) && Fits(cap, before + Flat(chunks))
    ensures var c', s, s' := PolledAll(cap, c, chunks), Decode(IDLE, before), Decode(IDLE, before + Flat(chunks));
            && Behind(c', s')
            && (c == s && NoBadSplit(before, chunks) ==> c' == s')
            && (Lost(c, s) || !NoBadSplit(before, chunks) ==> Lost(c', s'))
    decreases chunks
  {
    if chunks == [] {
      assert before + Flat(chunks) == before;
    } else {
      var s, chunk, rest := Decode(IDLE, before), chunks[0], chunks[1..];
      assert before + Flat(chunks) == before + chunk + Flat(rest);
      assert (before + Flat(chunks))[..|before|] == before;
      PollBehind(cap, c, s, before, chunk);
      DecodeJoin(IDLE, before, chunk);
      ChunksAgainstStream(cap, Polled(cap, c, chunk), before + chunk, rest);
    }
  }

  /** Refinement of the stream, exactly: polling chunk by chunk gives the frames and the partial
      frame of the one-pass decoder if and only if no boundary is a bad split. */
  lemma ChunkedIsStreamedIff(cap: nat, chunks: seq<seq<byte>>)
    requires AllChunksNonEmpty(chunks) && Fits(cap, Flat(chunks))
    ensures PolledAll(cap, IDLE, chunks) == Decode(IDLE, Flat(chunks)) <==> NoBadSplit([], chunks)
  {
    assert [] + Flat(chunks) == Flat(chunks);
    ChunksAgainstStream(cap, IDLE, [], chunks);
  }

  // ----- What arrives of frames that were sent ----------------------------------

  lemma {:induction false} StuffedPrefixFits(rx: Rx, data: seq<byte>, w: seq<byte>)
    requires Valid(rx) && rx.last != ESC && w <= Stuff(data)
    ensures |Decode(rx, w).part| <= |rx.part| + |data|
    decreases data
  {
    if data != [] {
      var s := StuffByte(data[0]);
      if |w| >= |s| {
        assert w == s + w[|s|..] && w[|s|..] <= Stuff(data[1..]);
        DecodeJoin(rx, s, w[|s|..]);
        StuffedByteDecodes(rx, data[0]);
        StuffedPrefixFits(Decode(rx, s), data[1..], w[|s|..]);
      } else if w != [] {
        assert w == [s[0]];
        DecodeOne(rx, s[0]);
      }
    }
  }

  lemma FramePrefixFits(step: (uint16, byte) -> uint16, rx: Rx, frame: seq<byte>, w: seq<byte>)
    requires Valid(rx) && rx.part == [] && w <= Encoded(step, frame)
    ensures |Decode(rx, w).part| <= |frame| + 2
  {
    var s := Stuff(Body(step, frame));
    if w != [] {
      var v := if |w| <= 1 + |s| then w[1..] else s;
      assert w[..1] == [END] && v <= s;
      DecodeOne(rx, END);
      DecodeJoin(rx, [END], v);
      StuffedPrefixFits(Step(rx, END), Body(step, frame), v);
      if |w| <= 1 + |s| {
        assert w == [END] + v;
      } else {
        assert w == [END] + v + [END];
        DecodeJoin(rx, [END] + v, [END]);
        DecodeOne(Decode(rx, [END] + v), END);
      }
    }
  }

  lemma {:induction false} EncodedPrefixFits(step: (uint16, byte) -> uint16, rx: Rx, frames: seq<seq<byte>>, w: seq<byte>, cap: nat)
    requires Valid(rx) && rx.part == [] && rx.last != ESC && 0 < cap && w <= EncodedAll(step, frames)
    requires forall i :: 0 <= i < |frames| ==> |frames[i]| + 2 < cap
    ensures |Decode(rx, w).part| < cap
    decreases frames
  {
    if frames != [] {
      var e := Encoded(step, frames[0]);
      if |w| <= |e| {
        assert w <= e;
        FramePrefixFits(step, rx, frames[0], w);
      } else {
        assert w == e + w[|e|..] && w[|e|..] <= EncodedAll(step, frames[1..]);
        DecodeJoin(rx, e, w[|e|..]);
        FrameDecodes(step, rx, frames[0]);
        EncodedPrefixFits(step, Decode(rx, e), frames[1..], w[|e|..], cap);
      }
    }
  }

  function Total(frames: seq<seq<byte>>): nat {
    if frames == [] then 0 else |frames[0]| + Total(frames[1..])
  }

  lemma {:induction false} TotalJoin(a: seq<seq<byte>>, b: seq<seq<byte>>)
    ensures Total(a + b) == Total(a) + Total(b)
  {
    if a == [] {
      assert a + b == b;
    } else {
      assert (a + b)[1..] == a[1..] + b;
      TotalJoin(a[1..], b);
    }
  }

  /** A body that is empty, or whose frame is delivered. */
  predicate Clean(step: (uint16, byte) -> uint16, body: seq<byte>) {
    body == [] || (|body| > 2 && Accepted(step, body) != [])
  }

  // Bytes lost from bodies that would have been delivered are missing from what is delivered.
  lemma {:induction false} LossIsVisible(step: (uint16, byte) -> uint16, c: seq<seq<byte>>, s: seq<seq<byte>>)
    requires |c| == |s| && forall i :: 0 <= i < |s| ==> NoLonger(c[i], s[i]) && Clean(step, s[i])
    ensures Total(Delivered(step, c)) <= Total(Delivered(step, s))
    ensures (exists i :: 0 <= i < |s| && |c[i]| < |s[i]|) ==> Total(Delivered(step, c)) < Total(Delivered(step, s))
  {
    if s != [] {
      LossIsVisible(step, c[1..], s[1..]);
      TotalJoin(Accepted(step, c[0]), Delivered(step, c[1..]));
      TotalJoin(Accepted(step, s[0]), Delivered(step, s[1..]));
      AcceptedTotal(step, c[0]);
      AcceptedTotal(step, s[0]);
      if i :| 0 < i < |s| && |c[i]| < |s[i]| {
        assert |c[1..][i - 1]| < |s[1..][i - 1]|;
      }
    }
  }

  lemma AcceptedTotal(step: (uint16, byte) -> uint16, body: seq<byte>)
    ensures Total(Accepted(step, body)) == if Accepted(step, body) == [] then 0 else |body| - 2
  {
  }

  lemma {:induction false} BodiesAreClean(step: (uint16, byte) -> uint16, frames: seq<seq<byte>>)
    requires AllNonEmpty(frames)
    ensures forall i :: 0 <= i < |Bodies(step, frames)| ==> Clean(step, Bodies(step, frames)[i])
  {
    if frames != [] {
      BodiesAreClean(step, frames[1..]);
      BodyAccepted(step, frames[0]);
    }
  }

  /** End to end: non-empty frames that fit the buffer, sent and polled in any chunks, are
      delivered in order and complete if and only if no chunk boundary is a bad split. */
  lemma SentIsDeliveredIff(step: (uint16, byte) -> uint16, frames: seq<seq<byte>>, cap: nat, chunks: seq<seq<byte>>)
    requires AllNonEmpty(frames) && 0 < cap && forall i :: 0 <= i < |frames| ==> |frames[i]| + 2 < cap
    requires AllChunksNonEmpty(chunks) && Flat(chunks) == EncodedAll(step, frames)
    ensures Delivered(step, PolledAll(cap, IDLE, chunks).frames) == frames <==> NoBadSplit([], chunks)
  {
    var wire := EncodedAll(step, frames);
    forall k | 0 <= k <= |wire|
      ensures |Decode(IDLE, wire[..k]).part| < cap
    {
      EncodedPrefixFits(step, IDLE, frames, wire[..k], cap);
    }
    assert [] + wire == wire;
    ChunksAgainstStream(cap, IDLE, [], chunks);
    FramesDecode(step, IDLE, frames);
    assert IDLE.frames + Bodies(step, frames) == Bodies(step, frames);
    BodiesDeliver(step, frames);
    BodiesAreClean(step, frames);
    LossIsVisible(step, PolledAll(cap, IDLE, chunks).frames, Bodies(step, frames));
  }

  /** A bad split is possible: a frame holding ESC and then ESC_END, cut between the two. */
  lemma BadSplitExists(step: (uint16, byte) -> uint16)
    ensures var w := EncodedAll(step, [[ESC, ESC_END]]);
            |w| > 3 && !NoBadSplit([], [w[..3], w[3..]])
  {
    var w := EncodedAll(step, [[ESC, ESC_END]]);
    var body := Body(step, [ESC, ESC_END]);
    assert Stuff(body) == StuffByte(ESC) + (StuffByte(ESC_END) + Stuff(body[1..][1..]));
    assert w[..3] == [END, ESC, ESC_ESC] && w[3] == ESC_END;
    assert [w[..3], w[3..]][1..] == [w[3..]];
    assert [] + w[..3] == w[..3];
  }
}
