/**
 The receiving half of nrf/drivers/serial/uart_nrf_sw_lpuart.c as its handlers run: fields that each
 handler updates, and beside them what the hardware holds. The handlers keep every branch of the
 source; as long as the hardware behaves, the driver is proved to be the machine of `LpuartRx`.
 */
module LpuartRxDriver {
  import opened Bytes
  import opened LpuartRx

  datatype RxState = RxOff | RxIdle | RxPrepare | RxActive | RxToIdle | RxBlocked | RxToOff

  datatype Trigger = NoTrigger | High | HighToLow

  class Driver {
    const capacity: nat
    const rxbuf: array<byte>

    var rxState: RxState
    var rxBuf: array?<byte>
    var rxSize: nat
    var gotData: bool

    // Interrupt-driven mode: length of the packet in rxbuf and how much of it was read.
    var rxlen: nat
    var rxrd: nat
    var timer: bool
    var calling: bool

    // The ready pin, the physical receiver, and the clock it waits for.
    var trigger: Trigger
    var enabled: bool
    var disabling: bool
    var reported: bool
    var clockWanted: bool

    // No assertion of the driver has failed, and no unread byte was given to the receiver.
    ghost var sane: bool
    ghost var safe: bool

    ghost predicate Valid()
      reads this
      ensures Valid() ==> rxrd <= rxlen <= rxbuf.Length
    {
      && sane && safe
      && rxbuf.Length == capacity && rxBuf == rxbuf && rxSize == capacity
      && rxrd <= rxlen <= capacity
      && rxState in {RxIdle, RxPrepare, RxActive, RxToIdle, RxBlocked}
      && (trigger == High <==> rxState == RxIdle)
      && (trigger == HighToLow <==> rxState == RxActive)
      && (enabled <==> rxState == RxActive || rxState == RxToIdle)
      && (disabling <==> rxState == RxToIdle)
      && (clockWanted <==> rxState == RxPrepare)
      && (enabled ==> reported == gotData)
      && (rxState in {RxIdle, RxPrepare} || (enabled && !gotData) ==> rxlen == 0)
    }

    function Phase(): Phase
      reads this
    {
      match rxState
      case RxPrepare => Preparing
      case RxActive => Active(gotData)
      case RxToIdle => Closing(gotData)
      case RxBlocked => Blocked
      case _ => Idle
    }

    /** The receiver as the abstract machine sees it. */
    function Abs(): Link
      requires rxrd <= rxlen <= rxbuf.Length
      reads this, rxbuf
    {
      Link(Phase(), rxbuf[rxrd..rxlen], timer, calling)
    }

    // ----- Pins and the physical UART ------------------------------------------------------

    method RdyPinSuspend()
      modifies this`trigger
      ensures trigger == NoTrigger
    {
      trigger := NoTrigger;
    }

    method RdyPinIdle()
      modifies this`trigger
      ensures trigger == High
    {
      trigger := High;
    }

    /** Arms the end-of-packet trigger; `level` says whether the line came back high. */
    method RdyPinBlink(level: bool) returns (ok: bool)
      modifies this`trigger
      ensures trigger == HighToLow && ok == level
    {
      trigger := HighToLow;
      ok := level;
    }

    /** The receiver takes the buffer over; bytes still unread in it would be overwritten. */
    method UartRxEnable()
      modifies this`enabled, this`reported, this`safe, this`sane
      ensures enabled && !reported
      ensures safe == (old(safe) && rxlen == 0 && rxrd == 0)
      ensures sane == (old(sane) && !old(enabled))
    {
      safe := safe && rxlen == 0 && rxrd == 0;
      sane := sane && !enabled;
      enabled, reported := true, false;
    }

    method UartRxDisable()
      modifies this`disabling
      ensures disabling == (old(disabling) || enabled)
    {
      disabling := disabling || enabled;
    }

    // ----- Activation --------------------------------------------------------------------------

    method DeactivateRx()
      modifies this`rxState, this`disabling
      ensures rxState == RxToIdle && disabling == (old(disabling) || enabled)
    {
      rxState := RxToIdle;
      UartRxDisable();
    }

    method ActivateRx(level: bool)
      modifies this`gotData, this`rxState, this`enabled, this`reported, this`safe, this`sane, this`trigger, this`disabling
      ensures rxBuf == null ==> unchanged(this)
      ensures rxBuf != null ==> enabled && !gotData && !reported
      ensures rxBuf != null && level ==> rxState == RxActive && trigger == HighToLow && disabling == old(disabling)
      ensures rxBuf != null && !level ==> rxState == RxToIdle && trigger == NoTrigger && disabling
      ensures rxBuf != null ==> safe == (old(safe) && rxlen == 0 && rxrd == 0)
      ensures rxBuf != null ==> sane == (old(sane) && !old(enabled))
    {
      if rxBuf == null {
        return;
      }
      gotData := false;
      rxState := RxActive;
      UartRxEnable();
      var ok := RdyPinBlink(level);
      if !ok {
        RdyPinSuspend();
        DeactivateRx();
      }
    }

    method StartRxActivation(clock: bool, level: bool)
      requires trigger == NoTrigger && rxState == RxIdle
      modifies this
      ensures unchanged(this`rxlen, this`rxrd, this`timer, this`calling)
      ensures old(Opening()) ==> Valid() && Abs() == Next(old(Abs()), PinHigh(clock, level))
    {
      rxState := RxPrepare;
      if clock {
        clockWanted := true;
      } else {
        ActivateRx(level);
      }
    }

    /** Idle, but for the trigger that has just been suspended. */
    ghost predicate Opening()
      reads this
    {
      && sane && safe
      && rxbuf.Length == capacity && rxBuf == rxbuf && rxSize == capacity
      && !enabled && !disabling && !clockWanted && rxlen == 0 == rxrd
    }

    // ----- Handlers ----------------------------------------------------------------------------

    /** rdy_pin_handler. */
    method RdyPinHandler(detected: Trigger, clock: bool, level: bool)
      requires trigger == detected && detected != NoTrigger
      modifies this
      ensures unchanged(this`rxlen, this`rxrd, this`timer, this`calling)
      ensures old(Valid()) ==> Valid()
      ensures old(Valid()) ==>
        Abs() == Next(old(Abs()), if detected == High then PinHigh(clock, level) else PinLow)
      ensures detected == HighToLow && old(rxState) != RxActive ==> rxState == RxIdle && trigger == High
    {
      RdyPinSuspend();
      if detected == High {
        sane := sane && rxState != RxActive;
        if rxState == RxIdle {
          StartRxActivation(clock, level);
        }
      } else {
        if rxState != RxActive {
          rxState := RxIdle;
          RdyPinIdle();
          return;
        }
        DeactivateRx();
      }
    }

    /** rx_hfclk_callback. */
    method ClockReady(level: bool)
      requires clockWanted
      modifies this
      ensures unchanged(this`rxlen, this`rxrd, this`timer, this`calling)
      ensures old(Valid()) ==> Valid() && Abs() == Next(old(Abs()), LpuartRx.ClockReady(level))
    {
      clockWanted := false;
      ActivateRx(level);
    }

    /** uart_callback on UART_RX_RDY, and int_driven_evt_handler after it. */
    method OnReady(data: seq<byte>)
      requires enabled && !reported && |data| <= rxbuf.Length
      modifies this, rxbuf
      ensures old(Valid()) ==> Valid() && Abs() == Next(old(Abs()), Ready(data))
    {
      forall i | 0 <= i < |data| {
        rxbuf[i] := data[i];
      }
      reported := true;
      gotData := true;
      sane := sane && rxlen == 0;
      rxlen := |data|;
    }

    /** uart_callback on UART_RX_BUF_REQUEST: the whole packet fits, so no other buffer is asked for. */
    method OnBufRequest()
      modifies this
      ensures old(rxSize) >= capacity ==> unchanged(this)
    {
      if rxSize < capacity {
        IntDrivenBufRequest();
      }
    }

    /** The receiver has stopped on the way to idle: it waits for its buffer if that holds a packet. */
    method EndPacket()
      requires rxState == RxToIdle
      modifies this`rxlen, this`rxrd, this`rxBuf, this`rxSize, this`rxState, this`trigger, this`sane
      ensures sane == old(sane)
      ensures old(gotData && rxlen != rxrd) ==> rxState == RxBlocked && unchanged(`rxlen, `rxrd, `rxBuf, `rxSize, `trigger)
      ensures old(gotData && rxlen == rxrd) ==>
        rxState == RxIdle && trigger == High && rxlen == 0 == rxrd && rxBuf == rxbuf && rxSize == rxbuf.Length
      ensures !gotData ==> rxState == RxIdle && trigger == High && unchanged(`rxlen, `rxrd, `rxBuf, `rxSize)
    {
      if gotData {
        rxState := RxBlocked;
        IntDrivenBufRequest();
      } else {
        rxState := RxIdle;
        RdyPinIdle();
      }
    }

    /** uart_callback on UART_RX_DISABLED. */
    method OnDisabled()
      requires disabling
      modifies this
      ensures old(Valid()) ==> Valid() && Abs() == Next(old(Abs()), Disabled)
      ensures old(rxState) != RxToIdle ==> rxState == RxIdle && trigger == High && rxlen == 0 == rxrd && rxBuf == rxbuf
    {
      enabled, disabling := false, false;
      sane := sane && rxState != RxOff;
      if rxState == RxToIdle {
        EndPacket();
      } else {
        rxBuf := null;
        rxState := RxOff;
        IntDrivenDisabled();
      }
    }

    // ----- Interrupt-driven mode ----------------------------------------------------------------

    /** api_rx_enable. */
    method RxEnable(buf: array<byte>) returns (err: int)
      modifies this`rxBuf, this`rxSize, this`rxState, this`trigger, this`sane
      ensures sane == (old(sane) && old(rxState) == RxOff)
      ensures err < 0 <==> old(rxBuf) != null
      ensures err < 0 ==> unchanged(`rxBuf, `rxSize, `rxState, `trigger)
      ensures err >= 0 ==> rxBuf == buf && rxSize == buf.Length && rxState == RxIdle && trigger == High
    {
      sane := sane && rxState == RxOff;
      if rxBuf != null {
        return -16;
      }
      rxBuf, rxSize := buf, buf.Length;
      rxState := RxIdle;
      RdyPinIdle();
      err := 0;
    }

    /** api_rx_buf_rsp; in the states where it hands the buffer on, the driver keeps nothing. */
    method RxBufRsp(buf: array<byte>)
      modifies this`rxBuf, this`rxSize, this`rxState, this`trigger, this`sane
      ensures sane == (old(sane) && old(rxState) != RxOff && old(rxState) != RxToOff)
      ensures old(rxState) in {RxToIdle, RxBlocked} ==>
        rxBuf == buf && rxSize == buf.Length && rxState == RxIdle && trigger == High
      ensures old(rxState) !in {RxToIdle, RxBlocked} ==> unchanged(`rxBuf, `rxSize, `rxState, `trigger)
    {
      sane := sane && rxState != RxOff && rxState != RxToOff;
      if rxState == RxToIdle || rxState == RxBlocked {
        rxBuf, rxSize := buf, buf.Length;
        rxState := RxIdle;
        RdyPinIdle();
      }
    }

    method IntDrivenRxFeed()
      modifies this`rxlen, this`rxrd, this`rxBuf, this`rxSize, this`rxState, this`trigger, this`sane
      ensures rxlen == 0 == rxrd
      ensures old(rxState) in {RxToIdle, RxBlocked} ==>
        rxBuf == rxbuf && rxSize == rxbuf.Length && rxState == RxIdle && trigger == High && sane == old(sane)
    {
      rxlen, rxrd := 0, 0;
      RxBufRsp(rxbuf);
    }

    /** int_driven_evt_handler on UART_RX_BUF_REQUEST. */
    method IntDrivenBufRequest()
      modifies this`rxlen, this`rxrd, this`rxBuf, this`rxSize, this`rxState, this`trigger, this`sane
      ensures old(rxlen != rxrd) ==> unchanged(this)
      ensures old(rxlen == rxrd) ==> rxlen == 0 == rxrd
      ensures old(rxlen == rxrd) && old(rxState) in {RxToIdle, RxBlocked} ==>
        rxBuf == rxbuf && rxSize == rxbuf.Length && rxState == RxIdle && trigger == High && sane == old(sane)
    {
      if rxlen - rxrd == 0 {
        IntDrivenRxFeed();
      }
    }

    /** int_driven_evt_handler on UART_RX_DISABLED: reception starts again. */
    method IntDrivenDisabled()
      requires rxBuf == null
      modifies this`rxlen, this`rxrd, this`rxBuf, this`rxSize, this`rxState, this`trigger, this`sane
      ensures rxState == RxIdle && trigger == High && rxlen == 0 == rxrd && rxBuf == rxbuf && rxSize == rxbuf.Length
    {
      rxlen, rxrd := 0, 0;
      var err := RxEnable(rxbuf);
      sane := sane && err >= 0;
    }

    /** api_fifo_read: the bytes it copies out. */
    method FifoRead(size: nat) returns (data: seq<byte>)
      requires Valid()
      modifies this`rxrd
      ensures Valid() && data == Out(old(Abs()), Read(size)) && Abs() == Next(old(Abs()), Read(size))
    {
      var available := rxlen - rxrd;
      data := [];
      if available != 0 {
        var n := if available < size then available else size;
        data := rxbuf[rxrd..rxrd + n];
        rxrd := rxrd + n;
      }
    }

    /** api_irq_rx_enable. */
    method IrqRxEnable()
      requires Valid()
      modifies this`timer
      ensures Valid() && Abs() == Next(old(Abs()), EnableRx)
    {
      if rxlen - rxrd != 0 {
        timer := true;
      }
    }

    /** api_irq_tx_enable; `free` says that tx_buf is NULL. */
    method IrqTxEnable(free: bool)
      requires Valid()
      modifies this`timer
      ensures Valid() && Abs() == Next(old(Abs()), EnableTx(free))
    {
      if free {
        timer := true;
      }
    }

    /** trampoline_timeout, up to the application's callback. */
    method TrampolineTimeout()
      requires Valid() && timer && !calling
      modifies this`timer, this`calling
      ensures Valid() && Abs() == Next(old(Abs()), Expire)
    {
      timer, calling := false, true;
    }

    /** trampoline_timeout, after the callback, which may have read and may have started the timer. */
    method TrampolineReturn()
      requires Valid() && calling
      modifies this`calling, this`rxlen, this`rxrd, this`rxBuf, this`rxSize, this`rxState, this`trigger, this`sane
      ensures Valid() && Abs() == Next(old(Abs()), Return)
    {
      calling := false;
      assert Abs().unread == [] <==> rxlen == rxrd;
      if rxlen - rxrd == 0 && rxState == RxBlocked {
        IntDrivenRxFeed();
        assert Abs().unread == [];
      }
    }

    /** lpuart_init: reception is enabled. */
    constructor (capacity: nat)
      ensures Valid() && Abs() == START && this.capacity == capacity && fresh(rxbuf)
    {
      this.capacity := capacity;
      rxbuf := new byte[capacity](_ => 0);
      rxState, rxBuf, rxSize, gotData, rxlen, rxrd := RxOff, null, 0, false, 0, 0;
      timer, calling := false, false;
      trigger, enabled, disabling, reported, clockWanted := NoTrigger, false, false, false, false;
      sane, safe := true, true;
      new;
      var err := RxEnable(rxbuf);
    }

    // ----- Whole runs ----------------------------------------------------------------------------

    method Perform(step: Step) returns (data: seq<byte>)
      requires Valid() && Can(Abs(), step, capacity)
      modifies this, rxbuf
      ensures Valid() && Abs() == Next(old(Abs()), step) && data == Out(old(Abs()), step)
    {
      data := [];
      match step
      case PinHigh(clock, level) => RdyPinHandler(High, clock, level);
      case ClockReady(level) => ClockReady(level);
      case PinLow => RdyPinHandler(HighToLow, false, false);
      case Ready(packet) => OnReady(packet);
      case Disabled => OnDisabled();
      case Read(size) => data := FifoRead(size);
      case EnableRx => IrqRxEnable();
      case EnableTx(free) => IrqTxEnable(free);
      case Expire => TrampolineTimeout();
      case Return => TrampolineReturn();
    }

    /**
     Every run of a fresh driver on hardware that behaves: the driver is always in a state of the
     machine, its triggers are armed as the state says, none of its assertions fails, no unread
     byte is overwritten, and the application reads a prefix of what was delivered.
     */
    method Run(steps: seq<Step>) returns (received: seq<byte>)
      requires Valid() && Abs() == START && Possible(Abs(), steps, capacity)
      modifies this, rxbuf
      ensures Valid() && Abs() == After(START, steps)
      ensures received + Abs().unread == Delivered(steps)
    {
      hide Next, Can, Out, Possible, After, Received, Delivered, Driver.Valid, Driver.Abs;
      received := [];
      ghost var start := Abs();
      assert steps[0..] == steps && steps[|steps|..] == [];
      NothingIsLost(start, steps, capacity);
      for i := 0 to |steps|
        invariant Valid()
        invariant Possible(Abs(), steps[i..], capacity)
        invariant After(Abs(), steps[i..]) == After(start, steps)
        invariant received + Received(Abs(), steps[i..]) == Received(start, steps)
      {
        ghost var before, rest := received, Received(Abs(), steps[i..]);
        FirstStep(Abs(), steps, i, capacity);
        var data := Perform(steps[i]);
        received := received + data;
        assert received + Received(Abs(), steps[i + 1..]) == before + rest;
      }
      NoStep(Abs());
      assert received + [] == received && [] + Delivered(steps) == Delivered(steps);
    }
  }
}
