/**
 What the receiving half of nrf/drivers/serial/uart_nrf_sw_lpuart.c is meant to do in interrupt-driven
 mode, as a machine over atomic steps: the handshake pin, the physical UART, and the application that
 reads received bytes. `LpuartRxDriver` is proved to be this machine.
 */
module LpuartRx {
  import opened Bytes
  import opened Wrappers

  /** Where the receiver is; `got` once the physical UART has reported data since it was enabled. */
  datatype Phase = Idle | Preparing | Active(got: bool) | Closing(got: bool) | Blocked

  /** Received and not yet read; whether the trampoline timer has been started; and whether its
      handler is running, in the application's callback. */
  datatype Link = Link(phase: Phase, unread: seq<byte>, timer: bool, calling: bool)

  const START := Link(Idle, [], false, false)

  datatype Step =
    | PinHigh(clock: bool, level: bool)   // request detected; whether a clock is awaited; the line is high again after the blink
    | ClockReady(level: bool)
    | PinLow                              // end of packet
    | Ready(data: seq<byte>)              // UART_RX_RDY
    | Disabled                            // UART_RX_DISABLED
    | Read(size: nat)                     // uart_fifo_read
    | EnableRx                            // uart_irq_rx_enable
    | EnableTx(free: bool)                // uart_irq_tx_enable, which starts the timer if no transfer is pending
    | Expire                              // the timer expires and its handler calls the application
    | Return                              // the application returns to the handler

  /** What the hardware can do: a pin event only as armed, data once per enable, disabled when asked. */
  predicate Can(l: Link, step: Step, capacity: nat) {
    match step
    case PinHigh(_, _) => l.phase == Idle
    case ClockReady(_) => l.phase == Preparing
    case PinLow => l.phase.Active?
    case Ready(data) => (l.phase == Active(false) || l.phase == Closing(false)) && |data| <= capacity
    case Disabled => l.phase.Closing?
    case Expire => l.timer && !l.calling
    case Return => l.calling
    case _ => true
  }

  function Opened(level: bool): Phase {
    if level then Active(false) else Closing(false)
  }

  function Next(l: Link, step: Step): Link {
    match step
    case PinHigh(clock, level) => l.(phase := if clock then Preparing else Opened(level))
    case ClockReady(level) => l.(phase := Opened(level))
    case PinLow => if l.phase.Active? then l.(phase := Closing(l.phase.got)) else l
    case Ready(data) => l.(phase := if l.phase.Active? then Active(true) else Closing(true), unread := data)
    case Disabled => l.(phase := if l.phase == Closing(true) && l.unread != [] then Blocked else Idle)
    case Read(size) => l.(unread := l.unread[Min(size, |l.unread|)..])
    case EnableRx => l.(timer := l.timer || l.unread != [])
    case EnableTx(free) => l.(timer := l.timer || free)
    case Expire => l.(timer := false, calling := true)
    case Return => l.(calling := false, phase := if l.phase == Blocked && l.unread == [] then Idle else l.phase)
  }

  /** What a step hands to the application. */
  function Out(l: Link, step: Step): seq<byte> {
    if step.Read? then l.unread[..Min(step.size, |l.unread|)] else []
  }

  // ----- Runs -----------------------------------------------------------------------------

  predicate Possible(l: Link, steps: seq<Step>, capacity: nat)
    decreases steps
  {
    steps == [] || (Can(l, steps[0], capacity) && Possible(Next(l, steps[0]), steps[1..], capacity))
  }

  function After(l: Link, steps: seq<Step>): Link
    decreases steps
  {
    if steps == [] then l else After(Next(l, steps[0]), steps[1..])
  }

  /** All bytes the physical UART reported. */
  function Delivered(steps: seq<Step>): seq<byte> {
    if steps == [] then [] else (if steps[0].Ready? then steps[0].data else []) + Delivered(steps[1..])
  }

  /** All bytes the application read. */
  function Received(l: Link, steps: seq<Step>): seq<byte>
    decreases steps
  {
    if steps == [] then [] else Out(l, steps[0]) + Received(Next(l, steps[0]), steps[1..])
  }

  // Taking the first step of the rest of a run.
  lemma FirstStep(l: Link, steps: seq<Step>, i: nat, capacity: nat)
    requires i < |steps| && Possible(l, steps[i..], capacity)
    ensures Can(l, steps[i], capacity) && Possible(Next(l, steps[i]), steps[i + 1..], capacity)
    ensures After(l, steps[i..]) == After(Next(l, steps[i]), steps[i + 1..])
    ensures Received(l, steps[i..]) == Out(l, steps[i]) + Received(Next(l, steps[i]), steps[i + 1..])
  {
  }

  lemma NoStep(l: Link)
    ensures After(l, []) == l && Received(l, []) == []
  {
  }

  /** Data can only be waiting once it has been reported, and never while the receiver is to be opened. */
  predicate Sound(l: Link) {
    l.phase == Idle || l.phase == Preparing || l.phase == Active(false) || l.phase == Closing(false) ==> l.unread == []
  }

  lemma StepIsSound(l: Link, step: Step, capacity: nat)
    requires Sound(l) && Can(l, step, capacity)
    ensures Sound(Next(l, step))
    ensures l.unread + (if step.Ready? then step.data else []) == Out(l, step) + Next(l, step).unread
  {
  }

  /**
   Over every run, what the application has read followed by what it can still read is exactly
   what the UART delivered: nothing is lost, repeated, reordered or overwritten.
   */
  lemma {:induction false} NothingIsLost(l: Link, steps: seq<Step>, capacity: nat)
    requires Sound(l) && Possible(l, steps, capacity)
    ensures Sound(After(l, steps))
    ensures l.unread + Delivered(steps) == Received(l, steps) + After(l, steps).unread
    decreases steps
  {
    if steps != [] {
      var step, rest := steps[0], steps[1..];
      StepIsSound(l, step, capacity);
      NothingIsLost(Next(l, step), rest, capacity);
      Regroup(l.unread, if step.Ready? then step.data else [], Delivered(rest),
              Out(l, step), Next(l, step).unread, Received(Next(l, step), rest), After(l, steps).unread);
    }
  }

  lemma Regroup(kept: seq<byte>, arrived: seq<byte>, later: seq<byte>,
                out: seq<byte>, left: seq<byte>, more: seq<byte>, end: seq<byte>)
    requires kept + arrived == out + left && left + later == more + end
    ensures kept + (arrived + later) == (out + more) + end
  {
    assert kept + (arrived + later) == (kept + arrived) + later;
    assert (out + left) + later == out + (left + later);
    assert out + (more + end) == (out + more) + end;
  }

  /** From the start, the reads concatenate to a prefix of the delivered bytes. */
  lemma ReadsArePrefix(steps: seq<Step>, capacity: nat)
    requires Possible(START, steps, capacity)
    ensures Received(START, steps) <= Delivered(steps)
  {
    NothingIsLost(START, steps, capacity);
    assert [] + Delivered(steps) == Delivered(steps);
  }

  // ----- A receiver that nothing wakes ------------------------------------------------------

  /** Everything was read, but the buffer was not given back and no timer will do it. */
  predicate Starved(l: Link) {
    l.phase == Blocked && l.unread == [] && !l.timer && !l.calling
  }

  predicate Quiet(steps: seq<Step>) {
    forall step :: step in steps ==> !step.EnableTx?
  }

  lemma {:induction false} StarvedStays(l: Link, steps: seq<Step>, capacity: nat)
    requires Starved(l) && Possible(l, steps, capacity) && Quiet(steps)
    ensures Starved(After(l, steps))
    decreases steps
  {
    if steps != [] {
      assert steps[0] in steps;
      StarvedStays(Next(l, steps[0]), steps[1..], capacity);
    }
  }

  lemma OneMore(l: Link, step: Step, rest: seq<Step>, capacity: nat)
    requires Can(l, step, capacity) && Possible(Next(l, step), rest, capacity) && Quiet(rest) && !step.EnableTx?
    ensures var steps := [step] + rest;
      Possible(l, steps, capacity) && Quiet(steps) && After(l, steps) == After(Next(l, step), rest)
  {
    assert ([step] + rest)[1..] == rest;
  }

  lemma Frees(l: Link, capacity: nat) returns (steps: seq<Step>)
    requires !Starved(l)
    ensures Possible(l, steps, capacity) && Quiet(steps) && After(l, steps).phase != Blocked
  {
    steps := [];
    if l.phase == Blocked {
      var woken := if l.timer || l.calling then l else Next(l, EnableRx);
      var called := if l.calling then l else Next(woken, Expire);
      var done := Next(called, Read(|l.unread|));
      OneMore(done, Return, [], capacity);
      OneMore(called, Read(|l.unread|), [Return], capacity);
      steps := [Read(|l.unread|)] + [Return];
      if !l.calling {
        OneMore(woken, Expire, steps, capacity);
        steps := [Expire] + steps;
        if !l.timer {
          OneMore(l, EnableRx, steps, capacity);
          steps := [EnableRx] + steps;
        }
      }
    }
  }

  /**
   Unless the transmit interrupt is enabled, reception never resumes exactly when the receiver is
   starved: the last bytes of a packet were read after it ended, outside the timer's callback.
   */
  lemma BlockedForeverIff(l: Link, capacity: nat)
    ensures Starved(l) <==>
      forall steps :: Possible(l, steps, capacity) && Quiet(steps) ==> After(l, steps).phase == Blocked
  {
    if Starved(l) {
      forall steps | Possible(l, steps, capacity) && Quiet(steps) ensures After(l, steps).phase == Blocked {
        StarvedStays(l, steps, capacity);
      }
    } else {
      var steps := Frees(l, capacity);
    }
  }

  /** And that happens: one packet, read once it has ended. */
  lemma StarvedIsReachable(x: byte, capacity: nat)
    requires capacity > 0
    ensures var steps := [PinHigh(false, true), Ready([x]), PinLow, Disabled, Read(1)];
      Possible(START, steps, capacity) && Starved(After(START, steps))
  {
    var l0 := START;
    var l1 := START.(phase := Active(false));
    var l2 := START.(phase := Active(true), unread := [x]);
    var l3 := START.(phase := Closing(true), unread := [x]);
    var l4 := START.(phase := Blocked, unread := [x]);
    var s5 := [Read(1)];
    var s4, s3, s2 := [Disabled] + s5, [PinLow, Disabled] + s5, [Ready([x]), PinLow, Disabled] + s5;
    var s1 := [PinHigh(false, true), Ready([x]), PinLow, Disabled, Read(1)];
    assert s4[1..] == s5 && s3[1..] == s4 && s2[1..] == s3 && s1[1..] == s2;
    assert Possible(l4, s5, capacity) && After(l4, s5) == START.(phase := Blocked);
    assert Possible(l3, s4, capacity) && After(l3, s4) == After(l4, s5);
    assert Possible(l2, s3, capacity) && After(l2, s3) == After(l3, s4);
    assert Possible(l1, s2, capacity) && After(l1, s2) == After(l2, s3);
    assert Possible(l0, s1, capacity) && After(l0, s1) == After(l1, s2);
  }

  // ----- Packets get through ------------------------------------------------------------------

  /** A packet that is read before or after its end, or a request that is withdrawn before the receiver
      is open; with or without a clock to wait for. */
  datatype Packet = Packet(clock: bool, data: seq<byte>, early: bool) | Withdrawn(clock: bool)

  function Opening(clock: bool, level: bool): seq<Step> {
    if clock then [PinHigh(true, level), ClockReady(level)] else [PinHigh(false, level)]
  }

  /** The steps of a packet: data read at once, or once the receiver has closed, in the timer's callback. */
  function Course(p: Packet): seq<Step> {
    match p
    case Withdrawn(clock) => Opening(clock, false) + [Disabled]
    case Packet(clock, data, true) => Opening(clock, true) + [Ready(data), Read(|data|), PinLow, Disabled]
    case Packet(clock, data, false) =>
      Opening(clock, true) + [Ready(data), PinLow, Disabled, EnableRx, Expire, Read(|data|), Return]
  }

  function Courses(ps: seq<Packet>): seq<Step> {
    if ps == [] then [] else Course(ps[0]) + Courses(ps[1..])
  }

  function Contents(ps: seq<Packet>): seq<byte> {
    if ps == [] then [] else (if ps[0].Packet? then ps[0].data else []) + Contents(ps[1..])
  }

  /** The steps can be taken and lead from one state to the other, with these bytes read. */
  ghost predicate Leads(l: Link, steps: seq<Step>, l': Link, out: seq<byte>, capacity: nat) {
    Possible(l, steps, capacity) && After(l, steps) == l' && Received(l, steps) == out
  }

  lemma {:induction false} LeadsOn(l: Link, a: seq<Step>, l': Link, out: seq<byte>, b: seq<Step>, l'': Link, more: seq<byte>, capacity: nat)
    requires Leads(l, a, l', out, capacity) && Leads(l', b, l'', more, capacity)
    ensures Leads(l, a + b, l'', out + more, capacity)
    decreases a
  {
    if a == [] {
      assert a + b == b && out + more == more;
    } else {
      assert (a + b)[1..] == a[1..] + b;
      var l1 := Next(l, a[0]);
      LeadsOn(l1, a[1..], l', Received(l1, a[1..]), b, l'', more, capacity);
      Assoc(Out(l, a[0]), Received(l1, a[1..]), more);
    }
  }

  lemma Takes(l: Link, step: Step, rest: seq<Step>, l': Link, out: seq<byte>, capacity: nat)
    requires Can(l, step, capacity) && Leads(Next(l, step), rest, l', out, capacity)
    ensures Leads(l, [step] + rest, l', Out(l, step) + out, capacity)
  {
    assert ([step] + rest)[1..] == rest;
  }

  lemma OpeningLeads(clock: bool, level: bool, capacity: nat)
    ensures Leads(START, Opening(clock, level), START.(phase := if level then Active(false) else Closing(false)), [], capacity)
  {
    var open := START.(phase := if level then Active(false) else Closing(false));
    assert Leads(open, [], open, [], capacity);
    if clock {
      Takes(START.(phase := Preparing), ClockReady(level), [], open, [], capacity);
      Takes(START, PinHigh(true, level), [ClockReady(level)], open, [], capacity);
    } else {
      Takes(START, PinHigh(false, level), [], open, [], capacity);
    }
  }

  lemma EarlyLeads(data: seq<byte>, capacity: nat)
    requires |data| <= capacity
    ensures Leads(START.(phase := Active(false)), [Ready(data), Read(|data|), PinLow, Disabled], START, data, capacity)
  {
    var l1 := START.(phase := Active(true));
    assert Leads(START, [], START, [], capacity);
    Takes(START.(phase := Closing(true)), Disabled, [], START, [], capacity);
    Takes(l1, PinLow, [Disabled], START, [], capacity);
    assert Next(l1.(unread := data), Read(|data|)) == l1 && data + [] == data;
    Takes(l1.(unread := data), Read(|data|), [PinLow, Disabled], START, [], capacity);
    Takes(START.(phase := Active(false)), Ready(data), [Read(|data|), PinLow, Disabled], START, data, capacity);
  }

  lemma LateLeads(data: seq<byte>, capacity: nat)
    requires 0 < |data| <= capacity
    ensures Leads(START.(phase := Active(false)), [Ready(data), PinLow, Disabled, EnableRx, Expire, Read(|data|), Return], START, data, capacity)
  {
    hide Leads;
    var l := START.(phase := Blocked, unread := data);
    var s1 := [Return];
    var s2 := [Read(|data|)] + s1;
    var s3 := [Expire] + s2;
    var s4 := [EnableRx] + s3;
    var s5 := [Disabled] + s4;
    var s6 := [PinLow] + s5;
    NothingLeads(START, capacity);
    Takes(START.(phase := Blocked, calling := true), Return, [], START, [], capacity);
    assert [Return] + [] == s1;
    assert Next(l.(calling := true), Read(|data|)) == START.(phase := Blocked, calling := true) && data + [] == data;
    Takes(l.(calling := true), Read(|data|), s1, START, [], capacity);
    assert [] + data == data;
    Takes(l.(timer := true), Expire, s2, START, data, capacity);
    Takes(l, EnableRx, s3, START, data, capacity);
    Takes(l.(phase := Closing(true)), Disabled, s4, START, data, capacity);
    Takes(l.(phase := Active(true)), PinLow, s5, START, data, capacity);
    Takes(START.(phase := Active(false)), Ready(data), s6, START, data, capacity);
    assert [Ready(data)] + s6 == [Ready(data), PinLow, Disabled, EnableRx, Expire, Read(|data|), Return];
  }

  lemma PacketLeads(p: Packet, capacity: nat)
    requires p.Packet? ==> 0 < |p.data| <= capacity
    ensures Leads(START, Course(p), START, if p.Packet? then p.data else [], capacity)
  {
    hide Leads;
    match p
    case Withdrawn(clock) =>
      OpeningLeads(clock, false, capacity);
      assert Leads(START, [], START, [], capacity) by { NothingLeads(START, capacity); }
      Takes(START.(phase := Closing(false)), Disabled, [], START, [], capacity);
      assert [Disabled] + [] == [Disabled];
      var none: seq<byte> := [];
      assert none + none == none;
      LeadsOn(START, Opening(clock, false), START.(phase := Closing(false)), [], [Disabled], START, [], capacity);
    case Packet(clock, data, early) =>
      OpeningLeads(clock, true, capacity);
      var steps := if early then [Ready(data), Read(|data|), PinLow, Disabled]
                   else [Ready(data), PinLow, Disabled, EnableRx, Expire, Read(|data|), Return];
      if early {
        EarlyLeads(data, capacity);
      } else {
        LateLeads(data, capacity);
      }
      LeadsOn(START, Opening(clock, true), START.(phase := Active(false)), [], steps, START, data, capacity);
      assert [] + data == data;
  }

  lemma NothingLeads(l: Link, capacity: nat)
    ensures Leads(l, [], l, [], capacity)
  {
  }

  /** Any number of packets and withdrawn requests, one after the other, are all received, and the receiver is ready
      for more. */
  lemma {:induction false} PacketsGetThrough(ps: seq<Packet>, capacity: nat)
    requires forall p :: p in ps && p.Packet? ==> 0 < |p.data| <= capacity
    ensures Possible(START, Courses(ps), capacity) && After(START, Courses(ps)) == START
    ensures Received(START, Courses(ps)) == Contents(ps)
    decreases ps
  {
    if ps != [] {
      PacketLeads(ps[0], capacity);
      PacketsGetThrough(ps[1..], capacity);
      LeadsOn(START, Course(ps[0]), START, if ps[0].Packet? then ps[0].data else [], Courses(ps[1..]), START, Contents(ps[1..]), capacity);
    }
  }

  /** A starved receiver is woken by enabling the transmit interrupt, just when no transfer is pending. */
  lemma TransmitInterruptWakes(l: Link, free: bool, capacity: nat)
    requires Starved(l)
    ensures var l' := Next(l, EnableTx(free));
            if free then Leads(l', [Expire, Return], START, [], capacity) else Starved(l')
  {
    if free {
      var l' := Next(l, EnableTx(free));
      NothingLeads(START, capacity);
      Takes(START.(phase := Blocked, calling := true), Return, [], START, [], capacity);
      Takes(l', Expire, [Return], START, [], capacity);
    }
  }
}
