/**
 The transmitting half of nrf/drivers/serial/uart_nrf_sw_lpuart.c as its handlers run. As long as the
 hardware behaves, the driver is proved to be the machine of `LpuartTx`.
 */
module LpuartTxDriver {
  import opened LpuartTx
  import opened Wrappers

  const EBUSY := 16
  const EFAULT := 14

  class Driver {
    const capacity: nat

    var txBuf: Option<Buffer>
    var txLen: nat
    var txActive: bool

    // Interrupt-driven mode: length of what is in the FIFO buffer.
    var txlen: nat

    // The request pin's trigger, the timeout timer, and what the physical UART is sending.
    var armed: bool
    var timer: bool
    var wire: Option<Buffer>

    ghost var trace: seq<Event>

    ghost predicate Valid()
      reads this
    {
      && (txActive ==> txBuf.Some? && wire == txBuf)
      && (armed <==> txBuf.Some? && !txActive)
      && (timer ==> !txActive)
    }

    function Phase(): Phase
      reads this
    {
      if txBuf.None? then Free else if txActive then Sending(txBuf.value, txLen) else Waiting(txBuf.value, txLen)
    }

    /** The transmitter as the abstract machine sees it. */
    function Abs(): Tx
      reads this
    {
      Tx(Phase(), wire, timer, txlen)
    }

    twostate predicate Steps(step: Step)
      reads this
    {
      && Abs() == Next(old(Abs()), step, capacity)
      && trace == old(trace) + Events(old(Abs()), step, capacity)
    }

    /** tx_complete. */
    method TxComplete()
      modifies this`armed, this`txBuf, this`txActive, this`trace
      ensures txBuf == None && !txActive && trace == old(trace) + [Ended]
      ensures armed == (old(armed) && old(txActive))
    {
      if !txActive {
        armed := false;
      }
      txBuf := None;
      txActive := false;
      trace := trace + [Ended];
    }

    /** api_tx. */
    method Transmit(buf: Buffer, len: nat, timed: bool) returns (err: int)
      requires Valid()
      modifies this
      ensures Valid() && (err == 0 || err == -EBUSY)
      ensures err == -EBUSY <==> old(txBuf).Some?
      ensures err == -EBUSY ==> unchanged(this)
      ensures err == 0 ==> Abs() == old(Abs()).(phase := Waiting(buf, len), timer := old(timer) || timed)
      ensures err == 0 ==> trace == old(trace) + [Accepted(buf, len)]
    {
      if txBuf.Some? {
        return -EBUSY;
      }
      txBuf := Some(buf);
      txLen := len;
      timer := timer || timed;
      armed := true;
      trace := trace + [Accepted(buf, len)];
      err := 0;
    }

    /** api_fifo_fill: how many bytes it takes. */
    method FifoFill(size: nat) returns (taken: nat)
      requires Valid()
      modifies this
      ensures Valid() && Steps(Fill(size))
      ensures taken == if old(txlen) != 0 || old(txBuf).Some? then 0 else Min(size, capacity)
    {
      var n := Min(size, capacity);
      if txlen != 0 {
        return 0;
      }
      txlen := n;
      var err := Transmit(Fifo, txlen, true);
      if err < 0 {
        txlen := 0;
        return 0;
      }
      taken := n;
    }

    /** req_pin_handler; `ok` says whether uart_tx starts the transfer. */
    method ReqPinHandler(ok: bool)
      requires armed && (ok ==> wire.None?)
      modifies this
      ensures old(Valid()) ==> Valid() && Steps(Confirm(ok))
      ensures old(txBuf).None? ==> txBuf.None? && !txActive && wire == old(wire) && trace == old(trace) + [Ended]
    {
      if txBuf.None? {
        TxComplete();
        return;
      }
      armed := false;
      timer := false;
      txActive := true;
      trace := trace + [Started(txBuf.value, txLen)];
      if ok {
        wire := txBuf;
      } else {
        TxComplete();
        assert trace == old(trace) + ([Started(old(txBuf).value, txLen)] + [Ended]);
      }
    }

    /** uart_callback on UART_TX_DONE, and int_driven_evt_handler after it. */
    method OnDone()
      requires Valid() && wire.Some?
      modifies this
      ensures Valid() && Steps(Done)
    {
      var sent := wire.value;
      wire := None;
      TxComplete();
      if sent != Polled {
        txlen := 0;
      }
    }

    /** uart_callback on UART_TX_ABORTED, which only tells the user. */
    method OnAborted()
      requires Valid() && wire.Some? && !txActive
      modifies this
      ensures Valid() && Steps(Aborted)
    {
      wire := None;
    }

    /** tx_timeout; a transfer under way would only be asked to stop. */
    method TxTimeout()
      requires timer
      modifies this
      ensures old(Valid()) ==> Valid() && Steps(Timeout)
      ensures old(txActive) ==> txBuf == old(txBuf) && txActive && trace == old(trace)
    {
      timer := false;
      if txActive {
        return;
      }
      TxComplete();
    }

    /** api_tx_abort; `answer` is what uart_tx_abort returns, -EFAULT if it sends nothing. */
    method TxAbort(answer: int) returns (err: int)
      requires Valid() && (answer == -EFAULT <==> wire.None?)
      modifies this
      ensures Valid() && Steps(Abort)
      ensures err == if old(txBuf).None? then -EFAULT else if old(wire).None? then 0 else answer
    {
      if txBuf.None? {
        return -EFAULT;
      }
      timer := false;
      TxComplete();
      err := answer;
      if err == -EFAULT {
        err := 0;
      }
    }

    constructor (capacity: nat)
      ensures Valid() && Abs() == Tx(Free, None, false, 0) && trace == [] && this.capacity == capacity
    {
      this.capacity := capacity;
      txBuf, txLen, txActive, txlen, armed, timer, wire, trace := None, 0, false, 0, false, false, None, [];
    }

    // ----- Whole runs ----------------------------------------------------------------------------

    method Perform(step: Step)
      requires Valid() && Can(Abs(), step)
      modifies this
      ensures Valid() && Steps(step)
    {
      match step
      case Send(buf, len, timed) => var err := Transmit(buf, len, timed);
      case Fill(size) => var taken := FifoFill(size);
      case Confirm(ok) => ReqPinHandler(ok);
      case Done => OnDone();
      case Aborted => OnAborted();
      case Abort => var err := TxAbort(if wire.None? then -EFAULT else 0);
      case Timeout => TxTimeout();
    }

    /** Every run of a fresh driver on hardware that behaves goes through the machine's states and events. */
    method Run(steps: seq<Step>)
      requires Valid() && Abs() == Tx(Free, None, false, 0) && trace == [] && Possible(Abs(), steps, capacity)
      modifies this
      ensures Valid() && Abs() == After(Tx(Free, None, false, 0), steps, capacity)
      ensures trace == Trace(Tx(Free, None, false, 0), steps, capacity)
    {
      hide Next, Can, Events, Possible, After, Trace, Driver.Valid, Driver.Abs;
      ghost var start := Abs();
      assert steps[0..] == steps && steps[|steps|..] == [];
      for i := 0 to |steps|
        invariant Valid()
        invariant Possible(Abs(), steps[i..], capacity)
        invariant After(Abs(), steps[i..], capacity) == After(start, steps, capacity)
        invariant trace + Trace(Abs(), steps[i..], capacity) == Trace(start, steps, capacity)
      {
        ghost var before, rest := trace, Trace(Abs(), steps[i..], capacity);
        FirstStep(Abs(), steps, i, capacity);
        Perform(steps[i]);
        assert trace + Trace(Abs(), steps[i + 1..], capacity) == before + rest;
      }
      NoStep(Abs(), capacity);
      assert trace + [] == trace;
    }
  }
}
