/**
 The driver of nrf/drivers/net/eth_rtt.c as it runs: the transmitter writes a frame fragment by
 fragment to the RTT up channel, and the receiver decodes in place in one buffer that keeps
 the partial frame between polls. Each operation is proved against the functions of `Slip`.
 */
module SlipDriver {
  import opened Bytes
  import opened Slip
  import opened SlipProtocol
  import opened Wrappers

  /** The output half: `wire` is everything written to the up channel. */
  class Transmitter {
    const step: (uint16, byte) -> uint16
    var crc: uint16
    var wire: seq<byte>

    constructor (step: (uint16, byte) -> uint16)
      ensures this.step == step && wire == []
    {
      this.step, crc, wire := step, 0, [];
    }

    method SendBegin()
      modifies this
      ensures wire == old(wire) + [END] && crc == 0xFFFF
    {
      wire := wire + [END];
      crc := 0xFFFF;
    }

    /** Writes runs of plain bytes in one piece and each special byte as its escape. */
    method SendFragment(data: seq<byte>)
      modifies this
      ensures wire == old(wire) + Stuff(data)
      ensures crc == Crc(step, old(crc), data)
    {
      crc := Crc(step, crc, data);
      var ptr, plainBegin := 0, 0;
      while ptr < |data|
        invariant 0 <= plainBegin <= ptr <= |data|
        invariant crc == Crc(step, old(crc), data)
        invariant wire == old(wire) + Stuff(data[..plainBegin])
        invariant forall k :: plainBegin <= k < ptr ==> data[k] != END && data[k] != ESC
      {
        if data[ptr] == END || data[ptr] == ESC {
          StuffRun(data, plainBegin, ptr);
          Assoc(old(wire), Stuff(data[..plainBegin]), data[plainBegin..ptr]);
          if ptr > plainBegin {
            wire := wire + data[plainBegin..ptr];
          }
          assert wire == old(wire) + Stuff(data[..ptr]);
          StuffNext(data, ptr);
          Assoc(old(wire), Stuff(data[..ptr]), StuffByte(data[ptr]));
          if data[ptr] == END {
            wire := wire + [ESC, ESC_END];
          } else {
            wire := wire + [ESC, ESC_ESC];
          }
          plainBegin := ptr + 1;
        }
        ptr := ptr + 1;
      }
      StuffRun(data, plainBegin, ptr);
      Assoc(old(wire), Stuff(data[..plainBegin]), data[plainBegin..ptr]);
      if ptr > plainBegin {
        wire := wire + data[plainBegin..ptr];
      }
      assert data[..ptr] == data;
    }

    method SendEnd()
      modifies this
      ensures wire == old(wire) + Stuff(CrcBytes(old(crc))) + [END]
    {
      var crcBuffer := [(crc / 0x100) as byte, (crc % 0x100) as byte];
      SendFragment(crcBuffer);
      wire := wire + [END];
    }

    /** eth_send: however a frame is split into fragments, its wire form is the same. A packet
        without fragments is refused. */
    method Send(fragments: seq<seq<byte>>) returns (ok: bool)
      modifies this
      ensures ok <==> fragments != []
      ensures wire == if ok then old(wire) + Encoded(step, Flat(fragments)) else old(wire)
    {
      if fragments == [] {
        return false;
      }
      SendBegin();
      ghost var w0, sent := wire, [];
      for i := 0 to |fragments|
        invariant sent == Flat(fragments[..i])
        invariant wire == w0 + Stuff(sent) && crc == Crc(step, 0xFFFF, sent)
      {
        SendFragment(fragments[i]);
        FlatNext(fragments, i);
        StuffJoin(sent, fragments[i]);
        Assoc(w0, Stuff(sent), Stuff(fragments[i]));
        CrcOfFragments(step, 0xFFFF, sent, fragments[i]);
        sent := sent + fragments[i];
      }
      assert fragments[..|fragments|] == fragments;
      SendEnd();
      EncodedParts(step, sent, old(wire));
      return true;
    }
  }

  lemma EncodedParts(step: (uint16, byte) -> uint16, frame: seq<byte>, w: seq<byte>)
    ensures w + [END] + Stuff(frame) + Stuff(CrcBytes(Crc(step, 0xFFFF, frame))) + [END] == w + Encoded(step, frame)
  {
    StuffJoin(frame, CrcBytes(Crc(step, 0xFFFF, frame)));
  }

  // A run of plain bytes is sent as it is.
  lemma {:induction false} StuffRun(data: seq<byte>, i: nat, j: nat)
    requires i <= j <= |data| && forall k :: i <= k < j ==> data[k] != END && data[k] != ESC
    ensures Stuff(data[..j]) == Stuff(data[..i]) + data[i..j]
    decreases j - i
  {
    if i < j {
      StuffRun(data, i, j - 1);
      StuffNext(data, j - 1);
      assert data[i..j] == data[i..j - 1] + [data[j - 1]];
    }
  }

  lemma StuffNext(data: seq<byte>, i: nat)
    requires i < |data|
    ensures Stuff(data[..i + 1]) == Stuff(data[..i]) + StuffByte(data[i])
  {
    assert data[..i + 1] == data[..i] + [data[i]];
    StuffJoin(data[..i], [data[i]]);
    assert Stuff([data[i]]) == StuffByte(data[i]) + Stuff([data[i]][1..]);
  }

  lemma {:induction false} FlatNext(chunks: seq<seq<byte>>, i: nat)
    requires i < |chunks|
    ensures Flat(chunks[..i + 1]) == Flat(chunks[..i]) + chunks[i]
    decreases i
  {
    if i == 0 {
      assert chunks[..1] == [chunks[0]] && Flat([chunks[0]]) == chunks[0] + Flat([chunks[0]][1..]);
    } else {
      FlatNext(chunks[1..], i - 1);
      assert chunks[..i + 1][1..] == chunks[1..][..i] && chunks[..i][1..] == chunks[1..][..i - 1];
    }
  }

  /** The input half: `delivered` is what was handed to the network stack. */
  class Receiver {
    const step: (uint16, byte) -> uint16
    const rxBuffer: array<byte>
    var rxLength: nat
    var delivered: seq<seq<byte>>

    ghost predicate Fit()
      reads this
    {
      0 < rxBuffer.Length && rxLength <= rxBuffer.Length
    }

    /** The decoded bytes of the frame being received. */
    ghost function Part(): seq<byte>
      requires Fit()
      reads this, rxBuffer
    {
      rxBuffer[..rxLength]
    }

    constructor (step: (uint16, byte) -> uint16, size: nat)
      requires size > 0
      ensures Fit() && this.step == step && rxBuffer.Length == size && fresh(rxBuffer)
      ensures Part() == [] && delivered == []
    {
      this.step, rxBuffer, rxLength, delivered := step, new byte[size], 0, [];
    }

    /** recv_frame, with packet allocation always succeeding. */
    method RecvFrame(start: nat, len: nat)
      requires start + len <= rxBuffer.Length
      modifies this`delivered
      ensures delivered == old(delivered) + Accepted(step, rxBuffer[start..start + len])
    {
      if len <= 2 {
        return;
      }
      var data := rxBuffer[start..start + len];
      var crc16 := Crc(step, 0xFFFF, data[..len - 2]);
      assert data[len - 2..] == [data[len - 2], data[len - 1]];
      if data[len - 2] != (crc16 / 0x100) as byte || data[len - 1] != (crc16 % 0x100) as byte {
        return;
      }
      delivered := delivered + [data[..len - 2]];
    }

    /** The loop body of decode_new_slip_data: one byte read at src, written at dst, which
        never overtakes src nor falls behind the start of the frame. */
    method DecodeByte(start: nat, dst: nat, src: nat, end: nat, lastByte: byte, ghost rx: Rx) returns (start': nat, dst': nat)
      requires start <= dst <= src < end <= rxBuffer.Length && Valid(rx)
      requires rx.part == rxBuffer[start..dst] && rx.last == lastByte
      modifies rxBuffer, this`delivered
      ensures start <= start' <= dst' <= src + 1
      ensures rxBuffer[..start] == old(rxBuffer[..start])
      ensures rxBuffer[src + 1..end] == old(rxBuffer[src + 1..end])
      ensures rxBuffer[start'..dst'] == Step(rx, old(rxBuffer[src])).part
      ensures delivered == old(delivered) + if old(rxBuffer[src]) == END then Accepted(step, rx.part) else []
    {
      var b := rxBuffer[src];
      start' := start;
      dst' := dst + 1;
      rxBuffer[dst] := b;
      assert rxBuffer[start..dst] == rx.part;
      assert rxBuffer[start..dst'] == rx.part + [b];
      if b == END {
        RecvFrame(start, dst' - start - 1);
        start' := dst';
      } else if lastByte == ESC {
        if b == ESC_END {
          dst' := dst' - 1;
          rxBuffer[dst' - 1] := END;
          assert rxBuffer[start..dst'] == rx.part[..|rx.part| - 1] + [END];
        } else if b == ESC_ESC {
          dst' := dst' - 1;
          rxBuffer[dst' - 1] := ESC;
          assert rxBuffer[start..dst'] == rx.part[..|rx.part| - 1] + [ESC];
        }
      }
    }

    /** The memmove that brings a partial frame to the front of the buffer. */
    method MoveToFront(start: nat, dst: nat)
      requires start <= dst <= rxBuffer.Length
      modifies rxBuffer
      ensures rxBuffer[..dst - start] == old(rxBuffer[start..dst])
    {
      forall i | 0 <= i < dst - start {
        rxBuffer[i] := rxBuffer[start + i];
      }
    }

    /** The loop of decode_new_slip_data. */
    method DecodeBytes(end: nat) returns (start: nat, dst: nat)
      requires Fit() && rxLength <= end <= rxBuffer.Length
      modifies rxBuffer, this`delivered
      ensures start <= dst <= end
      ensures var part := old(Part());
              var rx := Decode(Rx([], part, LastOf(part)), old(rxBuffer[rxLength..end]));
              rxBuffer[start..dst] == rx.part && delivered == old(delivered) + Delivered(step, rx.frames)
    {
      hide Step, Accepted;
      var src := rxLength;
      start, dst := 0, rxLength;
      var lastByte: byte := if rxLength > 0 then rxBuffer[dst - 1] else 0;
      ghost var rx := Rx([], Part(), LastOf(Part()));
      ghost var todo, got: seq<seq<byte>> := rxBuffer[src..end], [];
      ghost var goal := Decode(rx, todo);
      while src < end
        invariant start <= dst <= src <= end
        invariant Valid(rx) && rx.part == rxBuffer[start..dst] && rx.last == lastByte
        invariant todo == rxBuffer[src..end] && Decode(rx, todo) == goal
        invariant delivered == old(delivered) + got && got == Delivered(step, rx.frames)
      {
        var b := rxBuffer[src];
        assert b == todo[0] && todo[1..] == rxBuffer[src + 1..end];
        DeliveredStep(step, rx, b);
        got := got + if b == END then Accepted(step, rx.part) else [];
        start, dst := DecodeByte(start, dst, src, end, lastByte, rx);
        src, lastByte := src + 1, b;
        rx, todo := Step(rx, b), todo[1..];
      }
    }

    /** decode_new_slip_data: decodes the new bytes over themselves and keeps the partial frame. */
    method DecodeNewSlipData(newDataSize: nat)
      requires Fit() && rxLength + newDataSize <= rxBuffer.Length
      modifies this, rxBuffer
      ensures Fit()
      ensures var part := old(Part());
              var rx := Decode(Rx([], part, LastOf(part)), old(rxBuffer[rxLength..rxLength + newDataSize]));
              Part() == rx.part && delivered == old(delivered) + Delivered(step, rx.frames)
    {
      var start, dst := DecodeBytes(rxLength + newDataSize);
      rxLength := dst - start;
      if rxLength > 0 && start != 0 {
        MoveToFront(start, dst);
      }
    }

    /** One read from the down channel, and the decoding of what it brought. */
    method Receive(chunk: seq<byte>)
      requires Fit() && rxLength + |chunk| <= rxBuffer.Length
      modifies this, rxBuffer
      ensures Fit()
      ensures var part := old(Part());
              var rx := Decode(Rx([], part, LastOf(part)), chunk);
              Part() == rx.part && delivered == old(delivered) + Delivered(step, rx.frames)
    {
      forall i | 0 <= i < |chunk| {
        rxBuffer[rxLength + i] := chunk[i];
      }
      assert rxBuffer[rxLength..rxLength + |chunk|] == chunk && Part() == old(Part());
      DecodeNewSlipData(|chunk|);
    }

    /** The reading loop of poll_work_handler, for a down channel that holds `pending`: each read
        returns some of it, as much as the transport likes but no more than there is room for. */
    method Poll(pending: seq<byte>) returns (ghost chunks: seq<seq<byte>>)
      requires Fit()
      modifies this, rxBuffer
      ensures Fit() && AllChunksNonEmpty(chunks) && Flat(chunks) == pending
      ensures var rx := PolledAll(rxBuffer.Length, Rx([], old(Part()), 0), chunks);
              && delivered == old(delivered) + Delivered(step, rx.frames)
              && Part() == if |rx.part| >= rxBuffer.Length then [] else rx.part
    {
      hide Decode, Polled;
      chunks := [];
      ghost var rx := Rx([], Part(), 0);
      ghost var got: seq<seq<byte>> := [];
      var taken, more := 0, true;
      while more
        invariant Fit() && 0 <= taken <= |pending|
        invariant AllChunksNonEmpty(chunks) && Flat(chunks) == pending[..taken]
        invariant rx == PolledAll(rxBuffer.Length, Rx([], old(Part()), 0), chunks)
        invariant delivered == old(delivered) + got && got == Delivered(step, rx.frames)
        invariant more ==> Part() == rx.part
        invariant !more ==> taken == |pending| && Part() == if |rx.part| >= rxBuffer.Length then [] else rx.part
        decreases |pending| - taken, more
      {
        if rxLength >= rxBuffer.Length {
          rxLength := 0;
        }
        var room := rxBuffer.Length - rxLength;
        var num: nat :| num <= room && num <= |pending| - taken && (num == 0 ==> taken == |pending|);
        if num > 0 {
          var chunk := pending[taken..taken + num];
          PollNext(step, rxBuffer.Length, Rx([], old(Part()), 0), chunks, chunk);
          FlatJoin(chunks, chunk);
          assert pending[..taken + num] == pending[..taken] + chunk;
          ghost var now := Delivered(step, Decode(Rx([], Part(), LastOf(Part())), chunk).frames);
          Assoc(old(delivered), got, now);
          Receive(chunk);
          chunks, rx, got := chunks + [chunk], Polled(rxBuffer.Length, rx, chunk), got + now;
        }
        taken, more := taken + num, num > 0;
      }
      assert pending[..taken] == pending;
    }

    /** A whole session of a fresh receiver: polls that find more and more of the wire. Frames that were
        sent are delivered complete and in order if and only if no chunk boundary is a bad split. */
    method Session(pendings: seq<seq<byte>>, ghost frames: seq<seq<byte>>) returns (ghost chunks: seq<seq<byte>>)
      requires Fit() && Part() == [] && delivered == []
      modifies this, rxBuffer
      ensures Fit() && AllChunksNonEmpty(chunks) && Flat(chunks) == Flat(pendings)
      ensures delivered == Delivered(step, PolledAll(rxBuffer.Length, IDLE, chunks).frames)
      ensures Handed(step, PolledAll(rxBuffer.Length, IDLE, chunks).frames, delivered)
      ensures Fits(rxBuffer.Length, Flat(pendings)) && NoBadSplit([], chunks) ==>
        Handed(step, Deframed([], Flat(pendings)).0, delivered)
      ensures Sends(step, frames, rxBuffer.Length, Flat(pendings)) ==> (delivered == frames <==> NoBadSplit([], chunks))
    {
      hide PolledAll, Delivered, NoBadSplit, EncodedAll, Handed, Deframed, Fits;
      chunks := [];
      ghost var cap := rxBuffer.Length;
      NothingPolled(step, cap);
      for i := 0 to |pendings|
        invariant Fit() && AllChunksNonEmpty(chunks) && Flat(chunks) == Flat(pendings[..i])
        invariant var rx := PolledAll(cap, IDLE, chunks); delivered == Delivered(step, rx.frames) && Part() == Held(cap, rx.part)
      {
        ghost var rx := PolledAll(cap, IDLE, chunks);
        var more := Poll(pendings[i]);
        PollResumes(step, cap, rx, more);
        PolledAllJoin(cap, IDLE, chunks, more);
        FlatAll(chunks, more);
        FlatNext(pendings, i);
        chunks := chunks + more;
      }
      assert pendings[..|pendings|] == pendings;
      DeliveredIsHanded(step, PolledAll(cap, IDLE, chunks).frames, delivered);
      if Fits(cap, Flat(pendings)) && NoBadSplit([], chunks) {
        ReceiverKeepsProtocol(step, cap, chunks);
      }
      if Sends(step, frames, cap, Flat(pendings)) {
        SentIsDeliveredIff(step, frames, cap, chunks);
      }
    }
  }

  /** The wire carries these frames, none of them empty or too long for the buffer. */
  ghost predicate Sends(step: (uint16, byte) -> uint16, frames: seq<seq<byte>>, cap: nat, wire: seq<byte>) {
    && wire == EncodedAll(step, frames) && AllNonEmpty(frames)
    && forall i :: 0 <= i < |frames| ==> |frames[i]| + 2 < cap
  }

  /** What a poll keeps of a partial frame: nothing, if it fills the buffer. */
  function Held(cap: nat, part: seq<byte>): seq<byte> {
    if |part| >= cap then [] else part
  }

  lemma NothingPolled(step: (uint16, byte) -> uint16, cap: nat)
    ensures PolledAll(cap, IDLE, []) == IDLE && Delivered(step, []) == []
  {
  }

  lemma {:induction false} FlatAll(a: seq<seq<byte>>, b: seq<seq<byte>>)
    ensures Flat(a + b) == Flat(a) + Flat(b)
    decreases a
  {
    if a == [] {
      assert a + b == b;
    } else {
      assert (a + b)[1..] == a[1..] + b;
      FlatAll(a[1..], b);
    }
  }

  lemma {:induction false} PolledAllJoin(cap: nat, rx: Rx, a: seq<seq<byte>>, b: seq<seq<byte>>)
    ensures PolledAll(cap, rx, a + b) == PolledAll(cap, PolledAll(cap, rx, a), b)
    decreases a
  {
    if a == [] {
      assert a + b == b;
    } else {
      assert (a + b)[1..] == a[1..] + b;
      PolledAllJoin(cap, Polled(cap, rx, a[0]), a[1..], b);
    }
  }

  lemma {:induction false} PolledAllAfter(cap: nat, frames: seq<seq<byte>>, rx: Rx, chunks: seq<seq<byte>>)
    ensures var r := PolledAll(cap, rx, chunks);
            PolledAll(cap, Rx(frames + rx.frames, rx.part, rx.last), chunks) == Rx(frames + r.frames, r.part, r.last)
    decreases chunks
  {
    if chunks != [] {
      var part := Held(cap, rx.part);
      DecodeAfter(frames, Rx(rx.frames, part, LastOf(part)), chunks[0]);
      PolledAllAfter(cap, frames, Polled(cap, rx, chunks[0]), chunks[1..]);
    }
  }

  // A later poll goes on from the partial frame alone.
  lemma PollResumes(step: (uint16, byte) -> uint16, cap: nat, rx: Rx, chunks: seq<seq<byte>>)
    ensures var all, more := PolledAll(cap, rx, chunks), PolledAll(cap, Rx([], Held(cap, rx.part), 0), chunks);
            && Delivered(step, all.frames) == Delivered(step, rx.frames) + Delivered(step, more.frames)
            && Held(cap, all.part) == Held(cap, more.part)
  {
    var part := Held(cap, rx.part);
    var again := Rx([], part, 0);
    assert rx.frames + [] == rx.frames;
    if chunks != [] {
      DecodeAfter(rx.frames, Rx([], part, LastOf(part)), chunks[0]);
      PolledAllAfter(cap, rx.frames, Polled(cap, again, chunks[0]), chunks[1..]);
    }
    DeliveredJoin(step, rx.frames, PolledAll(cap, again, chunks).frames);
  }

  lemma FlatJoin(chunks: seq<seq<byte>>, chunk: seq<byte>)
    ensures Flat(chunks + [chunk]) == Flat(chunks) + chunk
  {
    var all := chunks + [chunk];
    FlatNext(all, |chunks|);
    assert all[..|chunks| + 1] == all && all[..|chunks|] == chunks;
  }

  // One more round: the frames it completes are delivered after the others.
  lemma PollNext(step: (uint16, byte) -> uint16, cap: nat, rx0: Rx, chunks: seq<seq<byte>>, chunk: seq<byte>)
    ensures var rx := PolledAll(cap, rx0, chunks);
            var part := if |rx.part| >= cap then [] else rx.part;
            var one := Decode(Rx([], part, LastOf(part)), chunk);
            && PolledAll(cap, rx0, chunks + [chunk]) == Polled(cap, rx, chunk)
            && Polled(cap, rx, chunk).part == one.part
            && Delivered(step, Polled(cap, rx, chunk).frames) == Delivered(step, rx.frames) + Delivered(step, one.frames)
  {
    PolledAllNext(cap, rx0, chunks, chunk);
    var rx := PolledAll(cap, rx0, chunks);
    var part := if |rx.part| >= cap then [] else rx.part;
    DecodeAfter(rx.frames, Rx([], part, LastOf(part)), chunk);
    assert rx.frames + [] == rx.frames;
    DeliveredJoin(step, rx.frames, Decode(Rx([], part, LastOf(part)), chunk).frames);
  }

  lemma {:induction false} PolledAllNext(cap: nat, rx: Rx, chunks: seq<seq<byte>>, chunk: seq<byte>)
    ensures PolledAll(cap, rx, chunks + [chunk]) == Polled(cap, PolledAll(cap, rx, chunks), chunk)
    decreases chunks
  {
    if chunks == [] {
      assert [chunk][1..] == [];
    } else {
      assert (chunks + [chunk])[1..] == chunks[1..] + [chunk];
      PolledAllNext(cap, Polled(cap, rx, chunks[0]), chunks[1..], chunk);
    }
  }

  // Frames completed earlier do not matter to what is decoded later.
  lemma {:induction false} DecodeAfter(frames: seq<seq<byte>>, rx: Rx, data: seq<byte>)
    requires Valid(rx)
    ensures var r := Decode(rx, data);
            Decode(Rx(frames + rx.frames, rx.part, rx.last), data) == Rx(frames + r.frames, r.part, r.last)
    decreases data
  {
    if data != [] {
      DecodeAfter(frames, Step(rx, data[0]), data[1..]);
      assert frames + rx.frames + [rx.part] == frames + (rx.frames + [rx.part]);
    }
  }

  lemma DeliveredStep(step: (uint16, byte) -> uint16, rx: Rx, b: byte)
    requires Valid(rx)
    ensures Delivered(step, Step(rx, b).frames) == Delivered(step, rx.frames) + if b == END then Accepted(step, rx.part) else []
  {
    DeliveredJoin(step, rx.frames, [rx.part]);
    DeliveredOne(step, rx.part);
  }
}
