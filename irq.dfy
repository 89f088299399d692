/** The radio interrupt handler of the session (ulorawan_irq.c): a switch on
    the session state that moves between the transmit and the two receive
    windows, starts the receive-window timers after a transmission, stops
    the second one when the first window receives, and hands received
    frames to the downlink handler. */
module Irq {
  import opened ErrorCodes
  import opened Session

  /** What one interrupt does: the state it leaves, the status it returns and
      the calls it makes, in order. */
  datatype Outcome = Outcome(state: State, result: int, calls: seq<HalCall>)

  /** The moves between states that a single interrupt can make. */
  predicate Edge(from: State, to: State)
  {
    || from == to
    || (from == Tx && (to == Rx1 || to == Fault))
    || (from == Rx1 && (to == Rx2 || to == Idle || to == Fault))
    || (from == Rx2 && to == Idle)
  }

  /** The states in which the handler refuses every interrupt. */
  predicate Refuses(s: State)
  {
    s == Init || s == Idle || s == Fault
  }

  /** The timer starts made after a transmission: TIMER1 is started only
      when starting TIMER0 succeeded. */
  function StartCalls(rxDelay1: bv32, rxDelay2: bv32, hal: Hal): (calls: seq<HalCall>)
    ensures 1 <= |calls| <= 2 && calls[0] == TimerStart(Timer0, rxDelay1)
    ensures |calls| == 2 <==> hal.timer0Ok
    ensures |calls| == 2 ==> calls[1] == TimerStart(Timer1, rxDelay2)
  {
    [TimerStart(Timer0, rxDelay1)] + (if hal.timer0Ok then [TimerStart(Timer1, rxDelay2)] else [])
  }

  /** One interrupt, as the handler is written: on a failure to start the
      receive-window timers it sets FAULT and then overwrites it with RX1. */
  function HandleIrq(from: State, flags: set<IrqFlag>, rxDelay1: bv32, rxDelay2: bv32, hal: Hal): (o: Outcome)
    ensures Edge(from, o.state)
    ensures o.result == ErrNone || o.result == ErrState || o.result == ErrTimer || o.result == hal.downlinkResult
    ensures Refuses(from) ==> o == Outcome(from, ErrState, [])
    ensures o.state == Idle && from != Idle ==> o.result == ErrNone && (from == Rx1 ==> hal.stopOk)
    ensures o.state == Fault && from != Fault ==> o.result == ErrTimer && o.calls == [TimerStop(Timer1)]
    ensures from == Tx ==> o.state != Fault
    ensures DownlinkHandler in o.calls ==> o.result == hal.downlinkResult && o.calls[|o.calls| - 1] == DownlinkHandler
    // TX: TX_DONE opens the receive windows, anything else is ignored
    ensures from == Tx && TxDone !in flags ==> o == Outcome(Tx, ErrNone, [])
    ensures from == Tx && TxDone in flags ==>
              && o.state == Rx1
              && o.calls == StartCalls(rxDelay1, rxDelay2, hal)
              && (hal.timer0Ok && hal.timer1Ok ==> o.result == ErrNone)
              && (!(hal.timer0Ok && hal.timer1Ok) ==> o.result == ErrTimer)
    // RX1 and RX2: the timeout is tested before RX_DONE
    ensures (from == Rx1 || from == Rx2) && RxTimeout !in flags && RxDone !in flags ==> o == Outcome(from, ErrNone, [])
    ensures from == Rx1 && RxTimeout in flags ==> o == Outcome(Rx2, ErrNone, [])
    ensures from == Rx2 && RxTimeout in flags ==> o == Outcome(Idle, ErrNone, [])
    ensures from == Rx1 && RxTimeout !in flags && RxDone in flags && !hal.stopOk ==>
              o == Outcome(Fault, ErrTimer, [TimerStop(Timer1)])
    ensures from == Rx1 && RxTimeout !in flags && RxDone in flags && hal.stopOk ==>
              && o.calls == [TimerStop(Timer1), DownlinkHandler]
              && o.result == hal.downlinkResult
              && (hal.downlinkResult == ErrNone ==> o.state == Idle)
              && (hal.downlinkResult != ErrNone ==> o.state == Rx1)
    ensures from == Rx2 && RxTimeout !in flags && RxDone in flags ==>
              && o.calls == [DownlinkHandler]
              && o.result == hal.downlinkResult
              && (hal.downlinkResult == ErrNone ==> o.state == Idle)
              && (hal.downlinkResult != ErrNone ==> o.state == Rx2)
  {
    match from
    case Init => Outcome(from, ErrState, [])
    case Idle => Outcome(from, ErrState, [])
    case Fault => Outcome(from, ErrState, [])
    case Tx =>
      if TxDone !in flags then Outcome(Tx, ErrNone, [])
      else
        var started := hal.timer0Ok && hal.timer1Ok;
        Outcome(Rx1, if started then ErrNone else ErrTimer, StartCalls(rxDelay1, rxDelay2, hal))
    case Rx1 =>
      if RxTimeout in flags then Outcome(Rx2, ErrNone, [])
      else if RxDone !in flags then Outcome(Rx1, ErrNone, [])
      else if !hal.stopOk then Outcome(Fault, ErrTimer, [TimerStop(Timer1)])
      else
        Outcome(if hal.downlinkResult == ErrNone then Idle else Rx1, hal.downlinkResult,
                [TimerStop(Timer1), DownlinkHandler])
    case Rx2 =>
      if RxTimeout in flags then Outcome(Idle, ErrNone, [])
      else if RxDone !in flags then Outcome(Rx2, ErrNone, [])
      else Outcome(if hal.downlinkResult == ErrNone then Idle else Rx2, hal.downlinkResult, [DownlinkHandler])
  }

  /** timer_hal_start: records the call and returns the timer HAL's status. */
  method TimerHalStart(session: Session, timer: Timer, interval: bv32, ok: bool) returns (status: int)
    modifies session`calls
    ensures session.calls == old(session.calls) + [TimerStart(timer, interval)]
    ensures status == (if ok then 0 else -1)
  {
    session.calls := session.calls + [TimerStart(timer, interval)];
    status := if ok then 0 else -1;
  }

  /** timer_hal_stop: records the call and returns the timer HAL's status. */
  method TimerHalStop(session: Session, timer: Timer, ok: bool) returns (status: int)
    modifies session`calls
    ensures session.calls == old(session.calls) + [TimerStop(timer)]
    ensures status == (if ok then 0 else -1)
  {
    session.calls := session.calls + [TimerStop(timer)];
    status := if ok then 0 else -1;
  }

  /** ulorawan_downlink_handler: records the call and returns its result. */
  method DownlinkHandlerCall(session: Session, downlinkResult: int) returns (result: int)
    modifies session`calls
    ensures session.calls == old(session.calls) + [DownlinkHandler]
    ensures result == downlinkResult
  {
    session.calls := session.calls + [DownlinkHandler];
    result := downlinkResult;
  }

  /** ulorawan_radio_irq_handler: handles one radio interrupt on the session,
      with the outcome HandleIrq describes. */
  method RadioIrqHandler(session: Session, flags: set<IrqFlag>, hal: Hal) returns (result: int)
    modifies session`state, session`calls
    ensures var o := HandleIrq(old(session.state), flags, session.rxDelay1, session.rxDelay2, hal);
            session.state == o.state && result == o.result && session.calls == old(session.calls) + o.calls
  {
    result := ErrNone;
    match session.state {
      case Fault =>
        result := ErrState;
      case Init =>
        result := ErrState;
      case Idle =>
        result := ErrState;
      case Tx =>
        if TxDone in flags {
          var status := TimerHalStart(session, Timer0, session.rxDelay1, hal.timer0Ok);
          if status == 0 {
            status := TimerHalStart(session, Timer1, session.rxDelay2, hal.timer1Ok);
          }
          if status != 0 {
            result := ErrTimer;
            session.state := Fault;
          }
          session.state := Rx1;
        }
      case Rx1 =>
        if RxTimeout in flags {
          session.state := Rx2;
        } else if RxDone in flags {
          var status := TimerHalStop(session, Timer1, hal.stopOk);
          if status != 0 {
            result := ErrTimer;
            session.state := Fault;
          } else {
            result := DownlinkHandlerCall(session, hal.downlinkResult);
            if result == ErrNone {
              session.state := Idle;
            }
          }
        }
      case Rx2 =>
        if RxTimeout in flags {
          session.state := Idle;
        } else if RxDone in flags {
          result := DownlinkHandlerCall(session, hal.downlinkResult);
          if result == ErrNone {
            session.state := Idle;
          }
        }
    }
  }

  // ---------------------------------------------------------------------
  // The timer-start failure

  /** As written, a failure to start a receive-window timer after a
      transmission returns ERR_TIMER but leaves the session in RX1, as if
      the windows had been opened. */
  lemma StartFailureLeavesRx1(flags: set<IrqFlag>, rxDelay1: bv32, rxDelay2: bv32, hal: Hal)
    requires TxDone in flags && !(hal.timer0Ok && hal.timer1Ok)
    ensures HandleIrq(Tx, flags, rxDelay1, rxDelay2, hal).state == Rx1
    ensures HandleIrq(Tx, flags, rxDelay1, rxDelay2, hal).result == ErrTimer
  {
  }

  /** One interrupt as evidently intended: a failure to start the
      receive-window timers leaves the session in FAULT. Everything else is
      as HandleIrq describes. */
  function HandleIrqIntended(from: State, flags: set<IrqFlag>, rxDelay1: bv32, rxDelay2: bv32, hal: Hal): (o: Outcome)
    ensures Edge(from, o.state)
    ensures Refuses(from) ==> o == Outcome(from, ErrState, [])
    ensures o.result == ErrTimer && DownlinkHandler !in o.calls ==> o.state == Fault
    ensures o.state == Fault && from != Fault ==> o.result == ErrTimer
    ensures o.calls == HandleIrq(from, flags, rxDelay1, rxDelay2, hal).calls
    ensures o.result == HandleIrq(from, flags, rxDelay1, rxDelay2, hal).result
    ensures o.state != HandleIrq(from, flags, rxDelay1, rxDelay2, hal).state ==>
              from == Tx && TxDone in flags && o.state == Fault
    ensures from == Tx && TxDone in flags && !(hal.timer0Ok && hal.timer1Ok) ==> o.state == Fault
  {
    var o := HandleIrq(from, flags, rxDelay1, rxDelay2, hal);
    if from == Tx && TxDone in flags && !(hal.timer0Ok && hal.timer1Ok) then o.(state := Fault) else o
  }

  /** As written, an ERR_TIMER without a downlink call does not always leave
      the session in FAULT: TIMER0 failing to start is such a case. */
  lemma TimerErrorWithoutFault()
    ensures var o := HandleIrq(Tx, {TxDone}, 1000, 2000, Hal(false, true, true, ErrNone));
            o.result == ErrTimer && DownlinkHandler !in o.calls && o.state != Fault
  {
  }

  // ---------------------------------------------------------------------
  // Runs of interrupts

  /** An interrupt: its flags and the HAL results it meets. */
  datatype Interrupt = Interrupt(flags: set<IrqFlag>, hal: Hal)

  /** The state, the statuses and the calls of a run of interrupts. */
  datatype Trace = Trace(state: State, results: seq<int>, calls: seq<HalCall>)

  /** Handles a run of interrupts one after the other, from a given state. */
  function Run(from: State, irqs: seq<Interrupt>, rxDelay1: bv32, rxDelay2: bv32): (t: Trace)
    ensures |t.results| == |irqs|
    ensures t.state == Init ==> from == Init
    ensures t.state == Tx ==> from == Tx
    decreases |irqs|
  {
    if irqs == [] then Trace(from, [], [])
    else
      var o := HandleIrq(from, irqs[0].flags, rxDelay1, rxDelay2, irqs[0].hal);
      var t := Run(o.state, irqs[1..], rxDelay1, rxDelay2);
      Trace(t.state, [o.result] + t.results, o.calls + t.calls)
  }

  /** The number of starts of a given timer among some calls. */
  function TimerStarts(calls: seq<HalCall>, timer: Timer): (n: nat)
    ensures n <= |calls|
    ensures n == 0 <==> forall c :: c in calls ==> !(c.TimerStart? && c.timer == timer)
  {
    if calls == [] then 0
    else (if calls[0].TimerStart? && calls[0].timer == timer then 1 else 0) + TimerStarts(calls[1..], timer)
  }

  /** Counting timer starts distributes over concatenation. */
  lemma {:induction false} TimerStartsAppend(a: seq<HalCall>, b: seq<HalCall>, timer: Timer)
    ensures TimerStarts(a + b, timer) == TimerStarts(a, timer) + TimerStarts(b, timer)
    decreases |a|
  {
    if a != [] {
      assert (a + b)[1..] == a[1..] + b;
      TimerStartsAppend(a[1..], b, timer);
    } else {
      assert a + b == b;
    }
  }

  /** A session that is not in the middle of a transmission refuses every
      interrupt of a run: its state stays, every status is ERR_STATE and no
      call is made. */
  lemma {:induction false} RefusingStateIgnoresRun(from: State, irqs: seq<Interrupt>, rxDelay1: bv32, rxDelay2: bv32)
    requires Refuses(from)
    ensures Run(from, irqs, rxDelay1, rxDelay2).state == from
    ensures Run(from, irqs, rxDelay1, rxDelay2).calls == []
    ensures forall i :: 0 <= i < |irqs| ==> Run(from, irqs, rxDelay1, rxDelay2).results[i] == ErrState
    decreases |irqs|
  {
    if irqs != [] {
      RefusingStateIgnoresRun(from, irqs[1..], rxDelay1, rxDelay2);
    }
  }

  /** No interrupt leads back into TX, so a run that does not start in TX
      never starts a timer. */
  lemma {:induction false} NoStartsOutsideTx(from: State, irqs: seq<Interrupt>, rxDelay1: bv32, rxDelay2: bv32, timer: Timer)
    requires from != Tx
    ensures TimerStarts(Run(from, irqs, rxDelay1, rxDelay2).calls, timer) == 0
    decreases |irqs|
  {
    if irqs != [] {
      var o := HandleIrq(from, irqs[0].flags, rxDelay1, rxDelay2, irqs[0].hal);
      NoStartsOutsideTx(o.state, irqs[1..], rxDelay1, rxDelay2, timer);
      TimerStartsAppend(o.calls, Run(o.state, irqs[1..], rxDelay1, rxDelay2).calls, timer);
      assert TimerStarts(o.calls, timer) == 0 by {
        if o.calls == [TimerStop(Timer1), DownlinkHandler] {
          assert o.calls[1..] == [DownlinkHandler];
        }
      }
    }
  }

  /** Whatever the interrupts and the HAL results, a run starts each timer
      at most once: the receive windows are opened once per transmission. */
  lemma {:induction false} TimersStartedAtMostOnce(from: State, irqs: seq<Interrupt>, rxDelay1: bv32, rxDelay2: bv32, timer: Timer)
    ensures TimerStarts(Run(from, irqs, rxDelay1, rxDelay2).calls, timer) <= 1
    decreases |irqs|
  {
    if from != Tx {
      NoStartsOutsideTx(from, irqs, rxDelay1, rxDelay2, timer);
    } else if irqs != [] {
      var o := HandleIrq(from, irqs[0].flags, rxDelay1, rxDelay2, irqs[0].hal);
      var rest := Run(o.state, irqs[1..], rxDelay1, rxDelay2);
      TimerStartsAppend(o.calls, rest.calls, timer);
      if o.state == Tx {
        TimersStartedAtMostOnce(Tx, irqs[1..], rxDelay1, rxDelay2, timer);
      } else {
        NoStartsOutsideTx(o.state, irqs[1..], rxDelay1, rxDelay2, timer);
        var starts := StartCalls(rxDelay1, rxDelay2, irqs[0].hal);
        assert o.calls == starts;
        if |starts| == 2 {
          assert starts[1..][1..] == [];
        }
      }
    }
  }

  /** A transmission whose two receive windows both time out returns the
      session to IDLE, having started TIMER0 with the first delay and TIMER1
      with the second. */
  lemma ReceiveWindowsTimeOut(rxDelay1: bv32, rxDelay2: bv32, hal: Hal)
    requires hal.timer0Ok && hal.timer1Ok
    ensures var t := Run(Tx, [Interrupt({TxDone}, hal), Interrupt({RxTimeout}, hal), Interrupt({RxTimeout}, hal)],
                        rxDelay1, rxDelay2);
            && t.state == Idle
            && t.results == [ErrNone, ErrNone, ErrNone]
            && t.calls == [TimerStart(Timer0, rxDelay1), TimerStart(Timer1, rxDelay2)]
  {
    var irqs := [Interrupt({TxDone}, hal), Interrupt({RxTimeout}, hal), Interrupt({RxTimeout}, hal)];
    assert irqs[1..][1..] == [Interrupt({RxTimeout}, hal)];
    assert irqs[1..][1..][1..] == [];
    assert HandleIrq(Rx2, {RxTimeout}, rxDelay1, rxDelay2, hal) == Outcome(Idle, ErrNone, []);
    var last := irqs[1..][1..];
    assert last[1..] == [] && last[0] == Interrupt({RxTimeout}, hal);
    assert Run(Idle, last[1..], rxDelay1, rxDelay2) == Trace(Idle, [], []);
    var t2 := Run(Rx2, last, rxDelay1, rxDelay2);
    assert t2 == Trace(Idle, [ErrNone], []);
    var t1 := Run(Rx1, irqs[1..], rxDelay1, rxDelay2);
    assert t1 == Trace(Idle, [ErrNone, ErrNone], []);
  }
}
