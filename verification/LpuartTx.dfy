/**
 What the transmitting half of nrf/drivers/serial/uart_nrf_sw_lpuart.c is meant to do, as a machine
 over atomic steps: a transfer is accepted, waits until the other side confirms the request, is
 sent by the physical UART, and ends. `LpuartTxDriver` is proved to be this machine.
 */
module LpuartTx {
  import opened Wrappers

  /** The driver's own FIFO buffer, its buffer for a polled byte, or a caller's buffer. */
  datatype Buffer = Fifo | Polled | User(id: nat)

  datatype Phase = Free | Waiting(buf: Buffer, len: nat) | Sending(buf: Buffer, len: nat)

  /** The transfer, what the physical UART is sending, the timeout timer, and the filled FIFO bytes. */
  datatype Tx = Tx(phase: Phase, wire: Option<Buffer>, timer: bool, filled: nat)

  datatype Step =
    | Send(buf: Buffer, len: nat, timed: bool)   // api_tx
    | Fill(size: nat)                            // api_fifo_fill
    | Confirm(ok: bool)                          // the request pin; whether uart_tx starts the transfer
    | Done                                       // UART_TX_DONE
    | Aborted                                    // UART_TX_ABORTED
    | Abort                                      // api_tx_abort
    | Timeout

  /** What can happen: the pin only while armed, the UART ends what it was given, aborts when asked. */
  predicate Can(t: Tx, step: Step) {
    match step
    case Send(buf, _, _) => buf != Fifo
    case Confirm(ok) => t.phase.Waiting? && (ok ==> t.wire.None?)
    case Done => t.wire.Some?
    case Aborted => t.wire.Some? && !t.phase.Sending?
    case Timeout => t.timer
    case _ => true
  }

  function Next(t: Tx, step: Step, capacity: nat): Tx {
    match step
    case Send(buf, len, timed) => if t.phase == Free then t.(phase := Waiting(buf, len), timer := t.timer || timed) else t
    case Fill(size) =>
      if t.filled != 0 || t.phase != Free then t
      else t.(phase := Waiting(Fifo, Min(size, capacity)), timer := true, filled := Min(size, capacity))
    case Confirm(ok) =>
      if !t.phase.Waiting? then t
      else if ok then t.(phase := Sending(t.phase.buf, t.phase.len), wire := Some(t.phase.buf), timer := false)
      else t.(phase := Free, timer := false)
    case Done => t.(phase := Free, wire := None, filled := if t.wire == Some(Polled) then t.filled else 0)
    case Aborted => t.(wire := None)
    case Abort => if t.phase == Free then t else t.(phase := Free, timer := false)
    case Timeout => t.(timer := false, phase := if t.phase.Sending? then t.phase else Free)
  }

  /** A sending transfer is the one on the wire, and is not timed any more. */
  predicate Sound(t: Tx) {
    t.phase.Sending? ==> t.wire == Some(t.phase.buf) && !t.timer
  }

  // ----- Runs -----------------------------------------------------------------------------

  predicate Possible(t: Tx, steps: seq<Step>, capacity: nat)
    decreases steps
  {
    steps == [] || (Can(t, steps[0]) && Possible(Next(t, steps[0], capacity), steps[1..], capacity))
  }

  function After(t: Tx, steps: seq<Step>, capacity: nat): Tx
    decreases steps
  {
    if steps == [] then t else After(Next(t, steps[0], capacity), steps[1..], capacity)
  }

  lemma {:induction false} RunIsSound(t: Tx, steps: seq<Step>, capacity: nat)
    requires Sound(t) && Possible(t, steps, capacity)
    ensures Sound(After(t, steps, capacity))
    decreases steps
  {
    if steps != [] {
      RunIsSound(Next(t, steps[0], capacity), steps[1..], capacity);
    }
  }

  // ----- What is seen from outside ------------------------------------------------------------

  /** A transfer is accepted, uart_tx is called for it, the driver is done with it. */
  datatype Event = Accepted(buf: Buffer, len: nat) | Started(buf: Buffer, len: nat) | Ended

  function Events(t: Tx, step: Step, capacity: nat): seq<Event> {
    match step
    case Send(buf, len, _) => if t.phase == Free then [Accepted(buf, len)] else []
    case Fill(size) => if t.filled != 0 || t.phase != Free then [] else [Accepted(Fifo, Min(size, capacity))]
    case Confirm(ok) =>
      if !t.phase.Waiting? then [] else [Started(t.phase.buf, t.phase.len)] + if ok then [] else [Ended]
    case Done => [Ended]
    case Abort => if t.phase == Free then [] else [Ended]
    case Timeout => if t.phase.Sending? then [] else [Ended]
    case Aborted => []
  }

  function Trace(t: Tx, steps: seq<Step>, capacity: nat): seq<Event>
    decreases steps
  {
    if steps == [] then [] else Events(t, steps[0], capacity) + Trace(Next(t, steps[0], capacity), steps[1..], capacity)
  }

  // Taking the first step of the rest of a run.
  lemma FirstStep(t: Tx, steps: seq<Step>, i: nat, capacity: nat)
    requires i < |steps| && Possible(t, steps[i..], capacity)
    ensures Can(t, steps[i]) && Possible(Next(t, steps[i], capacity), steps[i + 1..], capacity)
    ensures After(t, steps[i..], capacity) == After(Next(t, steps[i], capacity), steps[i + 1..], capacity)
    ensures Trace(t, steps[i..], capacity) ==
      Events(t, steps[i], capacity) + Trace(Next(t, steps[i], capacity), steps[i + 1..], capacity)
  {
  }

  lemma NoStep(t: Tx, capacity: nat)
    ensures After(t, [], capacity) == t && Trace(t, [], capacity) == []
  {
  }

  /** Where a transfer is after an event, and which event may come where. */
  function PhaseAfter(e: Event): Phase {
    match e
    case Accepted(buf, len) => Waiting(buf, len)
    case Started(buf, len) => Sending(buf, len)
    case Ended => Free
  }

  predicate Fits(phase: Phase, e: Event) {
    match e
    case Accepted(_, _) => phase == Free
    case Started(buf, len) => phase == Waiting(buf, len)
    case Ended => true
  }

  function Last(phase: Phase, trace: seq<Event>): Phase {
    if trace == [] then phase else PhaseAfter(trace[|trace| - 1])
  }

  predicate Orderly(phase: Phase, trace: seq<Event>) {
    forall i :: 0 <= i < |trace| ==> Fits(Last(phase, trace[..i]), trace[i])
  }

  lemma JoinOrderly(phase: Phase, a: seq<Event>, b: seq<Event>)
    requires Orderly(phase, a) && Orderly(Last(phase, a), b)
    ensures Orderly(phase, a + b) && Last(phase, a + b) == Last(Last(phase, a), b)
  {
    forall i | 0 <= i < |a + b| ensures Fits(Last(phase, (a + b)[..i]), (a + b)[i]) {
      if i < |a| {
        assert (a + b)[..i] == a[..i];
      } else {
        assert (a + b)[..i] == a + b[..i - |a|];
        assert Last(phase, a + b[..i - |a|]) == Last(Last(phase, a), b[..i - |a|]);
      }
    }
  }

  lemma StepIsOrderly(t: Tx, step: Step, capacity: nat)
    requires Sound(t) && Can(t, step)
    ensures Orderly(t.phase, Events(t, step, capacity))
    ensures Last(t.phase, Events(t, step, capacity)) == Next(t, step, capacity).phase
  {
  }

  lemma {:induction false} RunIsOrderly(t: Tx, steps: seq<Step>, capacity: nat)
    requires Sound(t) && Possible(t, steps, capacity)
    ensures Orderly(t.phase, Trace(t, steps, capacity))
    ensures Last(t.phase, Trace(t, steps, capacity)) == After(t, steps, capacity).phase
    decreases steps
  {
    if steps != [] {
      var next := Next(t, steps[0], capacity);
      StepIsOrderly(t, steps[0], capacity);
      RunIsOrderly(next, steps[1..], capacity);
      JoinOrderly(t.phase, Events(t, steps[0], capacity), Trace(next, steps[1..], capacity));
    }
  }

  /**
   Over every run, uart_tx is only called right after a transfer was accepted, with that transfer's
   buffer and length: at most once for each, and not once it has ended, by abort or timeout or
   otherwise. And a transfer is only accepted when the one before has ended.
   */
  lemma StartsFollowAccepts(steps: seq<Step>, capacity: nat, i: nat)
    requires Possible(Tx(Free, None, false, 0), steps, capacity)
    requires i < |Trace(Tx(Free, None, false, 0), steps, capacity)|
    ensures var trace := Trace(Tx(Free, None, false, 0), steps, capacity);
      && (trace[i].Started? ==> i > 0 && trace[i - 1] == Accepted(trace[i].buf, trace[i].len))
      && (trace[i].Accepted? ==> i == 0 || trace[i - 1] == Ended)
  {
    var trace := Trace(Tx(Free, None, false, 0), steps, capacity);
    RunIsOrderly(Tx(Free, None, false, 0), steps, capacity);
    assert Fits(Last(Free, trace[..i]), trace[i]);
    assert i > 0 ==> trace[..i][i - 1] == trace[i - 1];
  }

  // ----- A FIFO that is never emptied -----------------------------------------------------------

  predicate Empties(b: Buffer) {
    b != Polled
  }

  /** The FIFO counts as filled, and no transfer whose end would empty it is under way. */
  predicate Wedged(t: Tx) {
    && t.filled != 0
    && (t.phase != Free ==> !Empties(t.phase.buf))
    && (t.wire.Some? ==> !Empties(t.wire.value))
  }

  /** Only the FIFO and polled output are used. */
  predicate Driven(steps: seq<Step>) {
    forall step :: step in steps ==> step.Send? ==> step.buf == Polled
  }

  lemma {:induction false} WedgedStays(t: Tx, steps: seq<Step>, capacity: nat)
    requires Wedged(t) && Possible(t, steps, capacity) && Driven(steps)
    ensures Wedged(After(t, steps, capacity))
    decreases steps
  {
    if steps != [] {
      assert steps[0] in steps;
      WedgedStays(Next(t, steps[0], capacity), steps[1..], capacity);
    }
  }

  lemma OneMore(t: Tx, step: Step, rest: seq<Step>, capacity: nat)
    requires Can(t, step) && Possible(Next(t, step, capacity), rest, capacity) && Driven(rest) && !step.Send?
    ensures var steps := [step] + rest;
      && Possible(t, steps, capacity) && Driven(steps)
      && After(t, steps, capacity) == After(Next(t, step, capacity), rest, capacity)
  {
  }

  lemma Empty(t: Tx, capacity: nat) returns (steps: seq<Step>)
    requires Sound(t) && !Wedged(t)
    ensures Possible(t, steps, capacity) && Driven(steps) && After(t, steps, capacity).filled == 0
  {
    steps := [];
    if t.filled != 0 {
      if t.wire.Some? && Empties(t.wire.value) {
        OneMore(t, Done, [], capacity);
        steps := [Done];
      } else {
        var t1 := if t.wire.Some? then Next(t, Aborted, capacity) else t;
        var t2 := Next(t1, Confirm(true), capacity);
        OneMore(t2, Done, [], capacity);
        OneMore(t1, Confirm(true), [Done], capacity);
        steps := [Confirm(true)] + [Done];
        if t.wire.Some? {
          OneMore(t, Aborted, steps, capacity);
          steps := [Aborted] + steps;
        }
      }
    }
  }

  /**
   In interrupt-driven use, filling the FIFO is refused from now on, for ever, exactly when no
   transfer that could empty it is under way.
   */
  lemma RefusedForeverIff(t: Tx, capacity: nat)
    requires Sound(t)
    ensures Wedged(t) <==>
      forall steps :: Possible(t, steps, capacity) && Driven(steps) ==> After(t, steps, capacity).filled != 0
  {
    if Wedged(t) {
      forall steps | Possible(t, steps, capacity) && Driven(steps) ensures After(t, steps, capacity).filled != 0 {
        WedgedStays(t, steps, capacity);
      }
    } else {
      var steps := Empty(t, capacity);
    }
  }

  /** Every way for a FIFO transfer to end other than by UART_TX_DONE leads there. */
  lemma UnsentWedges(t: Tx, step: Step, capacity: nat)
    requires Sound(t) && t.phase.Waiting? && t.phase.buf == Fifo && t.filled != 0 && t.wire.None? && Can(t, step)
    ensures Next(t, step, capacity).phase == Free <==> Wedged(Next(t, step, capacity))
  {
  }

  // ----- Transfers get through ------------------------------------------------------------------

  /** How a transfer ends: sent, not started by the UART, given up before or after it was confirmed, or timed out. */
  datatype Fate = Sent | Refused | AbortedEarly | AbortedLate | TimedOut

  /** A transfer of a buffer with or without a timeout, or bytes put in the FIFO and sent. */
  datatype Transfer = Transfer(buf: Buffer, len: nat, timed: bool, fate: Fate) | FifoSent(size: nat)

  function Ending(fate: Fate): seq<Step> {
    match fate
    case Sent => [Confirm(true), Done]
    case Refused => [Confirm(false)]
    case AbortedEarly => [Abort]
    case AbortedLate => [Confirm(true), Abort, Aborted]
    case TimedOut => [Timeout]
  }

  function Course(x: Transfer): seq<Step> {
    match x
    case Transfer(buf, len, timed, fate) => [Send(buf, len, timed)] + Ending(fate)
    case FifoSent(size) => [Fill(size), Confirm(true), Done]
  }

  function Courses(xs: seq<Transfer>): seq<Step> {
    if xs == [] then [] else Course(xs[0]) + Courses(xs[1..])
  }

  /** What is seen of it from outside: it is started only if it was confirmed, and ends once. */
  function Seen(x: Transfer, capacity: nat): seq<Event> {
    match x
    case Transfer(buf, len, _, fate) =>
      [Accepted(buf, len)] + (if fate.AbortedEarly? || fate.TimedOut? then [] else [Started(buf, len)]) + [Ended]
    case FifoSent(size) =>
      var n := Min(size, capacity);
      [Accepted(Fifo, n), Started(Fifo, n), Ended]
  }

  function AllSeen(xs: seq<Transfer>, capacity: nat): seq<Event> {
    if xs == [] then [] else Seen(xs[0], capacity) + AllSeen(xs[1..], capacity)
  }

  const REST := Tx(Free, None, false, 0)

  /** The steps can be taken and lead from one state to the other, with these events. */
  ghost predicate Leads(t: Tx, steps: seq<Step>, t': Tx, seen: seq<Event>, capacity: nat) {
    Possible(t, steps, capacity) && After(t, steps, capacity) == t' && Trace(t, steps, capacity) == seen
  }

  lemma {:induction false} LeadsOn(t: Tx, a: seq<Step>, t': Tx, seen: seq<Event>, b: seq<Step>, t'': Tx, more: seq<Event>, capacity: nat)
    requires Leads(t, a, t', seen, capacity) && Leads(t', b, t'', more, capacity)
    ensures Leads(t, a + b, t'', seen + more, capacity)
    decreases a
  {
    if a == [] {
      assert a + b == b && seen + more == more;
    } else {
      assert (a + b)[1..] == a[1..] + b;
      var t1 := Next(t, a[0], capacity);
      LeadsOn(t1, a[1..], t', Trace(t1, a[1..], capacity), b, t'', more, capacity);
      Assoc(Events(t, a[0], capacity), Trace(t1, a[1..], capacity), more);
    }
  }

  lemma Takes(t: Tx, step: Step, rest: seq<Step>, seen: seq<Event>, t': Tx, steps: seq<Step>, all: seq<Event>, capacity: nat)
    requires Can(t, step) && Leads(Next(t, step, capacity), rest, t', seen, capacity)
    requires steps == [step] + rest && all == Events(t, step, capacity) + seen
    ensures Leads(t, steps, t', all, capacity)
  {
    assert steps[1..] == rest;
  }

  lemma NothingLeads(t: Tx, capacity: nat)
    ensures Leads(t, [], t, [], capacity)
  {
  }

  // From a transfer that waits, with its timer running or not, to the end.
  lemma EndingLeads(buf: Buffer, len: nat, timed: bool, filled: nat, fate: Fate, capacity: nat)
    requires (filled != 0 ==> fate == Sent && buf == Fifo) && (fate == TimedOut ==> timed)
    ensures Leads(Tx(Waiting(buf, len), None, timed, filled), Ending(fate), REST,
                  (if fate.AbortedEarly? || fate.TimedOut? then [] else [Started(buf, len)]) + [Ended], capacity)
  {
    hide Leads;
    var t := Tx(Waiting(buf, len), None, timed, filled);
    var sending := Tx(Sending(buf, len), Some(buf), false, filled);
    NothingLeads(REST, capacity);
    match fate
    case Sent =>
      Takes(sending, Done, [], [], REST, [Done], [Ended], capacity);
      Takes(t, Confirm(true), [Done], [Ended], REST, Ending(Sent), [Started(buf, len)] + [Ended], capacity);
    case AbortedLate =>
      Takes(sending.(phase := Free), Aborted, [], [], REST, [Aborted], [], capacity);
      Takes(sending, Abort, [Aborted], [], REST, [Abort, Aborted], [Ended], capacity);
      Takes(t, Confirm(true), [Abort, Aborted], [Ended], REST, Ending(AbortedLate), [Started(buf, len)] + [Ended], capacity);
    case Refused =>
      Takes(t, Confirm(false), [], [], REST, Ending(Refused), [Started(buf, len)] + [Ended], capacity);
    case AbortedEarly =>
      Takes(t, Abort, [], [], REST, Ending(AbortedEarly), [] + [Ended], capacity);
    case TimedOut =>
      Takes(t, Timeout, [], [], REST, Ending(TimedOut), [] + [Ended], capacity);
  }

  lemma TransferLeads(x: Transfer, capacity: nat)
    requires x.Transfer? ==> x.buf != Fifo && (x.fate == TimedOut ==> x.timed)
    ensures Leads(REST, Course(x), REST, Seen(x, capacity), capacity)
  {
    hide Leads;
    match x
    case Transfer(buf, len, timed, fate) =>
      EndingLeads(buf, len, timed, 0, fate, capacity);
      var seen := (if fate.AbortedEarly? || fate.TimedOut? then [] else [Started(buf, len)]) + [Ended];
      Takes(REST, Send(buf, len, timed), Ending(fate), seen, REST, Course(x), Seen(x, capacity), capacity);
    case FifoSent(size) =>
      var n := Min(size, capacity);
      EndingLeads(Fifo, n, true, n, Sent, capacity);
      Takes(REST, Fill(size), Ending(Sent), [Started(Fifo, n)] + [Ended], REST, Course(x), Seen(x, capacity), capacity);
  }

  /** Any number of transfers, however each of them ends, are accepted one after the other, each seen to start if it was
      confirmed and to end once, and the driver is free again. */
  lemma {:induction false} TransfersGetThrough(xs: seq<Transfer>, capacity: nat)
    requires forall x :: x in xs && x.Transfer? ==> x.buf != Fifo && (x.fate == TimedOut ==> x.timed)
    ensures Possible(REST, Courses(xs), capacity) && After(REST, Courses(xs), capacity) == REST
    ensures Trace(REST, Courses(xs), capacity) == AllSeen(xs, capacity)
    decreases xs
  {
    if xs != [] {
      TransferLeads(xs[0], capacity);
      TransfersGetThrough(xs[1..], capacity);
      LeadsOn(REST, Course(xs[0]), REST, Seen(xs[0], capacity), Courses(xs[1..]), REST, AllSeen(xs[1..], capacity), capacity);
    }
  }
}
