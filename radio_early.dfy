/** An earlier revision of the radio interrupt handler (ulorawan_radio.c).
    It moves between the states unconditionally: it starts no timers, and
    it ignores the results of stopping TIMER1 and of the downlink handler.
    Its switch has no FAULT case, so a session in FAULT reaches the default
    branch. */
module RadioEarly {
  import opened ErrorCodes
  import opened Session
  import Irq

  /** One interrupt as the earlier revision handles it. */
  function HandleIrqEarly(from: State, flags: set<IrqFlag>): (o: Irq.Outcome)
    ensures Irq.Edge(from, o.state)
    ensures o.result == ErrState <==> from == Init || from == Idle
    ensures o.result == ErrNone <==> !(from == Init || from == Idle)
    ensures o.state != Fault || from == Fault
    ensures from == Rx1 && RxTimeout in flags ==> o.state == Rx2
    ensures from == Rx1 && RxTimeout !in flags && RxDone in flags ==> o.state == Idle
    ensures from == Rx2 && (RxTimeout in flags || RxDone in flags) ==> o.state == Idle
    ensures from == Tx ==> o.calls == [] && (o.state == Rx1 <==> TxDone in flags)
    ensures forall c :: c in o.calls ==> !c.TimerStart?
    ensures (from == Rx1 || from == Rx2) && RxTimeout !in flags && RxDone !in flags ==> o == Irq.Outcome(from, ErrNone, [])
    ensures from == Rx1 && RxTimeout !in flags && RxDone in flags ==> o.calls == [TimerStop(Timer1), DownlinkHandler]
    ensures from == Rx2 && RxTimeout !in flags && RxDone in flags ==> o.calls == [DownlinkHandler]
    ensures o.calls != [] ==> (from == Rx1 || from == Rx2) && RxTimeout !in flags && RxDone in flags
  {
    match from
    case Init => Irq.Outcome(from, ErrState, [])
    case Idle => Irq.Outcome(from, ErrState, [])
    case Tx => Irq.Outcome(if TxDone in flags then Rx1 else Tx, ErrNone, [])
    case Rx1 =>
      if RxTimeout in flags then Irq.Outcome(Rx2, ErrNone, [])
      else if RxDone in flags then Irq.Outcome(Idle, ErrNone, [TimerStop(Timer1), DownlinkHandler])
      else Irq.Outcome(Rx1, ErrNone, [])
    case Rx2 =>
      if RxTimeout in flags then Irq.Outcome(Idle, ErrNone, [])
      else if RxDone in flags then Irq.Outcome(Idle, ErrNone, [DownlinkHandler])
      else Irq.Outcome(Rx2, ErrNone, [])
    case Fault => Irq.Outcome(from, ErrNone, [])
  }

  /** ulorawan_radio_irq_handler, earlier revision: handles one radio
      interrupt on the session, with the outcome HandleIrqEarly describes.
      The timer HAL's and the downlink handler's results do not matter. */
  method RadioIrqHandler(session: Session, flags: set<IrqFlag>, hal: Hal) returns (result: int)
    modifies session`state, session`calls
    ensures var o := HandleIrqEarly(old(session.state), flags);
            session.state == o.state && result == o.result && session.calls == old(session.calls) + o.calls
  {
    match session.state {
      case Init =>
        return ErrState;
      case Idle =>
        return ErrState;
      case Tx =>
        if TxDone in flags {
          session.state := Rx1;
        }
      case Rx1 =>
        if RxTimeout in flags {
          session.state := Rx2;
        } else if RxDone in flags {
          var _ := Irq.TimerHalStop(session, Timer1, hal.stopOk);
          var _ := Irq.DownlinkHandlerCall(session, hal.downlinkResult);
          session.state := Idle;
        }
      case Rx2 =>
        if RxTimeout in flags {
          session.state := Idle;
        } else if RxDone in flags {
          var _ := Irq.DownlinkHandlerCall(session, hal.downlinkResult);
          session.state := Idle;
        }
      case Fault =>
    }
    return ErrNone;
  }

  /** When every HAL call succeeds and the downlink handler reports no
      error, the later handler moves between the states exactly as the
      earlier one does and returns the same status, in every state but FAULT. */
  lemma LaterRevisionRefinesEarly(from: State, flags: set<IrqFlag>, rxDelay1: bv32, rxDelay2: bv32)
    requires from != Fault
    ensures var later := Irq.HandleIrq(from, flags, rxDelay1, rxDelay2, Hal(true, true, true, ErrNone));
            var early := HandleIrqEarly(from, flags);
            later.state == early.state && later.result == early.result
  {
  }

  /** In FAULT the earlier revision falls to the default branch and reports
      no error, where the later one reports ERR_STATE. */
  lemma FaultDiffers(flags: set<IrqFlag>, rxDelay1: bv32, rxDelay2: bv32, hal: Hal)
    ensures HandleIrqEarly(Fault, flags).result == ErrNone
    ensures Irq.HandleIrq(Fault, flags, rxDelay1, rxDelay2, hal).result == ErrState
  {
  }
}
