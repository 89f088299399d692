/** Wire layouts of a LoRaWAN MAC frame (ulorawan_mac_frame.h): the MHDR and
    FCtrl bitfield bytes, the frame header and the OTAA join request.
    The C unions overlay a bitfield struct on one byte; here each union is a
    datatype of its fields together with an explicit pack/unpack pair, and the
    two are proved to be mutual inverses. */
module MacFrame {

  /** Largest number of frame-option (FOpts) bytes a frame header carries. */
  const FOptsMaxSize: nat := 15
  /** Size of the globally unique end-device identifier (DevEUI). */
  const DevEuiSize: nat := 8
  /** Size of the globally unique join-server identifier (JoinEUI). */
  const JoinEuiSize: nat := 8
  /** The MHDR is one byte. */
  const MhdrSize: nat := 1
  /** The part of the frame header that is always present: DevAddr, FCtrl, FCnt. */
  const FhdrFixedSize: nat := 4 + 1 + 2
  /** The packed frame-header struct, which reserves room for all 15 options. */
  const FhdrSize: nat := FhdrFixedSize + FOptsMaxSize
  /** JoinEUI, DevEUI and the two-byte DevNonce. */
  const JoinReqSize: nat := JoinEuiSize + DevEuiSize + 2

  /** The frame-control byte: FOptsLen in bits 0-3, FPending (downlink) or
      ClassB (uplink) in bit 4, ACK in bit 5, ADRACKReq in bit 6, ADR in bit 7. */
  datatype FCtrl = FCtrl(foptsLen: bv4, fpendingClassB: bv1, ack: bv1, adrAckReq: bv1, adr: bv1)

  /** Number of option bytes announced by a frame-control byte. */
  function FOptsLen(f: FCtrl): (n: nat)
    ensures n <= FOptsMaxSize
  {
    f.foptsLen as nat
  }

  /** Reads the bitfields of a frame-control byte. */
  function UnpackFCtrl(b: bv8): (f: FCtrl)
  {
    FCtrl((b & 0x0F) as bv4, ((b >> 4) & 1) as bv1, ((b >> 5) & 1) as bv1,
          ((b >> 6) & 1) as bv1, ((b >> 7) & 1) as bv1)
  }

  /** The byte value of a frame-control union with the given bitfields. */
  function PackFCtrl(f: FCtrl): (b: bv8)
    ensures UnpackFCtrl(b) == f
  {
    (f.foptsLen as bv8) | ((f.fpendingClassB as bv8) << 4) | ((f.ack as bv8) << 5)
      | ((f.adrAckReq as bv8) << 6) | ((f.adr as bv8) << 7)
  }

  /** Every byte is the packing of its own bitfields. */
  lemma PackUnpackFCtrl(b: bv8)
    ensures PackFCtrl(UnpackFCtrl(b)) == b
  {
  }

  /** The frame types of the 3-bit MHDR FType field. */
  datatype FrameType =
    | JoinRequest | JoinAccept
    | UnconfirmedDataUp | UnconfirmedDataDown
    | ConfirmedDataUp | ConfirmedDataDown
    | Rfu | Proprietary

  /** The frame type a 3-bit FType code stands for. */
  function FrameTypeOf(code: bv3): (t: FrameType)
  {
    match code
    case 0 => JoinRequest
    case 1 => JoinAccept
    case 2 => UnconfirmedDataUp
    case 3 => UnconfirmedDataDown
    case 4 => ConfirmedDataUp
    case 5 => ConfirmedDataDown
    case 6 => Rfu
    case _ => Proprietary
  }

  /** The code of a frame type: every type has a code in 0..7, distinct from
      every other type's. */
  function FrameTypeCode(t: FrameType): (code: bv3)
    ensures FrameTypeOf(code) == t
  {
    match t
    case JoinRequest => 0
    case JoinAccept => 1
    case UnconfirmedDataUp => 2
    case UnconfirmedDataDown => 3
    case ConfirmedDataUp => 4
    case ConfirmedDataDown => 5
    case Rfu => 6
    case Proprietary => 7
  }

  /** Every 3-bit code names a frame type. */
  lemma FrameTypeCodeOf(code: bv3)
    ensures FrameTypeCode(FrameTypeOf(code)) == code
  {
  }

  /** The message-header byte: Major in bits 0-1, RFU in bits 2-4, FType in bits 5-7. */
  datatype Mhdr = Mhdr(major: bv2, rfu: bv3, ftype: FrameType)

  /** Reads the bitfields of a message-header byte. */
  function UnpackMhdr(b: bv8): (m: Mhdr)
  {
    Mhdr((b & 0x03) as bv2, ((b >> 2) & 0x07) as bv3, FrameTypeOf(((b >> 5) & 0x07) as bv3))
  }

  /** The byte value of a message-header union with the given bitfields. */
  function PackMhdr(m: Mhdr): (b: bv8)
    ensures UnpackMhdr(b) == m
  {
    (m.major as bv8) | ((m.rfu as bv8) << 2) | ((FrameTypeCode(m.ftype) as bv8) << 5)
  }

  /** Every byte is the packing of its own bitfields. */
  lemma PackUnpackMhdr(b: bv8)
    ensures PackMhdr(UnpackMhdr(b)) == b
  {
  }

  /** A frame header: device address, frame control, frame counter and the
      15-byte options array of which the first FOptsLen bytes are meaningful. */
  datatype Fhdr = Fhdr(devAddr: bv32, fctrl: FCtrl, fcnt: bv16, fopts: seq<bv8>)

  /** The options array has the fixed size of the C struct member. */
  predicate ValidFhdr(h: Fhdr)
  {
    |h.fopts| == FOptsMaxSize
  }

  /** The options that a frame header actually carries. */
  function CarriedFOpts(h: Fhdr): (opts: seq<bv8>)
    requires ValidFhdr(h)
    ensures |opts| == FOptsLen(h.fctrl) <= FOptsMaxSize
  {
    h.fopts[..FOptsLen(h.fctrl)]
  }

  /** Two headers agree on everything that goes on the wire. */
  predicate SameOnWire(a: Fhdr, b: Fhdr)
    requires ValidFhdr(a) && ValidFhdr(b)
  {
    a.devAddr == b.devAddr && a.fctrl == b.fctrl && a.fcnt == b.fcnt
    && CarriedFOpts(a) == CarriedFOpts(b)
  }

  /** An OTAA join request: JoinEUI, DevEUI and DevNonce. */
  datatype JoinReq = JoinReq(joinEui: seq<bv8>, devEui: seq<bv8>, devNonce: bv16)

  /** The identifier arrays have the fixed sizes of the C struct members. */
  predicate ValidJoinReq(r: JoinReq)
  {
    |r.joinEui| == JoinEuiSize && |r.devEui| == DevEuiSize
  }
}
