/** The session entry points of ulorawan.c: the guard chain of the join
    procedure and the packed stack version. */
module Ulorawan {
  import opened ErrorCodes
  import opened Session

  /** How a join attempt ends: it returns a status, or, when a channel is
      found, it reaches the end of the function without a return statement. */
  datatype JoinResult = Returned(code: int) | NoReturn

  /** The end of a join attempt, and whether it consulted the region's
      channel lookup. */
  datatype JoinOutcome = JoinOutcome(result: JoinResult, channelLookedUp: bool)

  /** ulorawan_join, for a session in the given state; channelAvailable is
      whether the region's channel lookup finds a channel. The session
      state is only read. */
  function Join(state: State, channelAvailable: bool): (j: JoinOutcome)
    ensures j.result == Returned(ErrInit) <==> state == Init
    ensures j.result == Returned(ErrState) <==> state != Init && state != Idle
    ensures j.result == Returned(ErrNoChannel) <==> state == Idle && !channelAvailable
    ensures j.result == NoReturn <==> state == Idle && channelAvailable
    ensures j.channelLookedUp <==> state == Idle
  {
    if state == Init then JoinOutcome(Returned(ErrInit), false)
    else if state != Idle then JoinOutcome(Returned(ErrState), false)
    else if !channelAvailable then JoinOutcome(Returned(ErrNoChannel), true)
    else JoinOutcome(NoReturn, true)
  }

  /** A version as its four one-byte fields. */
  datatype Version = Version(major: bv8, minor: bv8, patch: bv8, revision: bv8)

  /** The fields of a packed version: revision in the lowest byte, then
      patch, minor, and major in the highest byte. */
  function DecodeVersion(value: bv32): (v: Version)
  {
    Version((value >> 24) as bv8, ((value >> 16) & 0xFF) as bv8,
            ((value >> 8) & 0xFF) as bv8, (value & 0xFF) as bv8)
  }

  /** The packed value of a version. */
  function EncodeVersion(v: Version): (value: bv32)
    ensures DecodeVersion(value) == v
  {
    ((v.major as bv32) << 24) | ((v.minor as bv32) << 16) | ((v.patch as bv32) << 8) | (v.revision as bv32)
  }

  /** Every packed value is the encoding of its own fields. */
  lemma EncodeDecodeVersion(value: bv32)
    ensures EncodeVersion(DecodeVersion(value)) == value
  {
  }

  /** The packed version of the stack. */
  const PackedVersion: bv32 := 0x0100_0400

  /** ulorawan_version: the stack's version, 1.0.4.0. */
  function UlorawanVersion(): (v: Version)
    ensures v == Version(1, 0, 4, 0)
    ensures EncodeVersion(v) == PackedVersion
  {
    DecodeVersion(PackedVersion)
  }
}
