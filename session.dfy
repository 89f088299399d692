/** The session of the device stack (ulorawan_session.h): its state, its
    device class and the receive-window delays of its region, together with
    the calls it makes into the timer HAL and the downlink handler. */
module Session {

  /** The session states. The IRQ handler also uses FAULT, which the state
      enumeration of the session header does not list; it is included here. */
  datatype State = Init | Idle | Tx | Rx1 | Rx2 | Fault

  /** The LoRaWAN device classes. */
  datatype DeviceClass = ClassA | ClassB | ClassC

  /** The radio interrupt causes. The radio HAL's flag enumeration is
      unfinished, so each cause is a distinct member of a set of flags. */
  datatype IrqFlag = TxDone | RxDone | RxTimeout

  /** The two one-shot timers of the timer HAL. */
  datatype Timer = Timer0 | Timer1

  /** A call made by the session into code outside this model. */
  datatype HalCall =
    | TimerStart(timer: Timer, interval: bv32)
    | TimerStop(timer: Timer)
    | DownlinkHandler

  /** The results that the timer HAL and the downlink handler give for one
      interrupt: whether starting TIMER0, starting TIMER1 and stopping
      TIMER1 succeed, and what the downlink handler returns. */
  datatype Hal = Hal(timer0Ok: bool, timer1Ok: bool, stopOk: bool, downlinkResult: int)

  /** A session: its state, its class, the two receive-window delays of its
      region parameters, and (ghost) the calls it has made so far. */
  class Session {
    var state: State
    var deviceClass: DeviceClass
    var rxDelay1: bv32
    var rxDelay2: bv32
    ghost var calls: seq<HalCall>

    /** A fresh session in the INIT state that has made no calls. */
    constructor (deviceClass: DeviceClass, rxDelay1: bv32, rxDelay2: bv32)
      ensures state == Init && calls == []
      ensures this.deviceClass == deviceClass
      ensures this.rxDelay1 == rxDelay1 && this.rxDelay2 == rxDelay2
    {
      state := Init;
      this.deviceClass := deviceClass;
      this.rxDelay1 := rxDelay1;
      this.rxDelay2 := rxDelay2;
      calls := [];
    }
  }
}
