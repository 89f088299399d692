/** The MAC frame codec (ulorawan_mac.c, ulorawan_mac.h): a 255-byte frame
    buffer and an end-of-frame cursor, with one read and one write operation
    per frame field. The cursor gates each field to its place in the frame:
    the MHDR at offset 0, the frame header or join request at offset 1, the
    FPort and FRMPayload from offset 23 on; the MIC and the written payload are
    not gated at all. Multi-byte integers go on the wire little-endian. */
module Mac {
  import opened MacFrame

  /** Capacity of a frame buffer: the largest LoRaWAN frame. */
  const BufSize: nat := 255

  /** Offset from which FPort and FRMPayload may be accessed: the MHDR plus
      the whole packed frame-header struct, options array included (23). */
  const PayloadOffset: nat := MhdrSize + FhdrSize

  /** Offset just past the fixed part of a frame header (8): where the
      options, and after them the FPort, begin. */
  const FixedHeaderEnd: nat := MhdrSize + FhdrFixedSize

  /** Result of a codec operation. */
  datatype MacStatus = ErrNone | ErrIndex

  /** The numeric status code: 0 for success, -1 for a cursor out of place. */
  function StatusCode(status: MacStatus): (code: int)
    ensures code == 0 <==> status == ErrNone
    ensures code == -1 <==> status == ErrIndex
  {
    match status
    case ErrNone => 0
    case ErrIndex => -1
  }

  /** ULORAWAN_MHDR_INIT(type, version): the byte `type << 5 | version`, which
      is the MHDR of that frame type and major version with RFU zero. */
  function MhdrInit(ftype: bv8, version: bv8): (b: bv8)
    ensures ftype < 8 && version < 4 ==> UnpackMhdr(b) == Mhdr(version as bv2, 0, FrameTypeOf(ftype as bv3))
  {
    (ftype << 5) | version
  }

  // ---------------------------------------------------------------------
  // Little-endian integers

  /** A 16-bit value as its two wire bytes, least significant first. */
  function EncodeLe16(v: bv16): (s: seq<bv8>)
    ensures |s| == 2 && DecodeLe16(s) == v
  {
    [(v & 0xFF) as bv8, ((v >> 8) & 0xFF) as bv8]
  }

  /** The 16-bit value of two wire bytes, least significant first. */
  function DecodeLe16(s: seq<bv8>): bv16
    requires |s| == 2
  {
    (s[0] as bv16) | ((s[1] as bv16) << 8)
  }

  /** Every pair of bytes is the encoding of its own value. */
  lemma EncodeDecodeLe16(s: seq<bv8>)
    requires |s| == 2
    ensures EncodeLe16(DecodeLe16(s)) == s
  {
  }

  /** A 32-bit value as its four wire bytes, least significant first. */
  function EncodeLe32(v: bv32): (s: seq<bv8>)
    ensures |s| == 4 && DecodeLe32(s) == v
  {
    [(v & 0xFF) as bv8, ((v >> 8) & 0xFF) as bv8,
     ((v >> 16) & 0xFF) as bv8, ((v >> 24) & 0xFF) as bv8]
  }

  /** The 32-bit value of four wire bytes, least significant first. */
  function DecodeLe32(s: seq<bv8>): bv32
    requires |s| == 4
  {
    (s[0] as bv32) | ((s[1] as bv32) << 8) | ((s[2] as bv32) << 16) | ((s[3] as bv32) << 24)
  }

  /** Every four bytes are the encoding of their own value. */
  lemma EncodeDecodeLe32(s: seq<bv8>)
    requires |s| == 4
    ensures EncodeLe32(DecodeLe32(s)) == s
  {
  }

  // ---------------------------------------------------------------------
  // Field layouts

  /** The wire bytes of a frame header: DevAddr, FCtrl, FCnt, then the
      options announced by FCtrl. */
  function FhdrBytes(h: Fhdr): (s: seq<bv8>)
    requires ValidFhdr(h)
    ensures |s| == FhdrFixedSize + FOptsLen(h.fctrl) <= FhdrSize
  {
    EncodeLe32(h.devAddr) + [PackFCtrl(h.fctrl)] + EncodeLe16(h.fcnt) + CarriedFOpts(h)
  }

  /** Where each field sits among the wire bytes of a frame header. */
  lemma FhdrBytesLayout(h: Fhdr)
    requires ValidFhdr(h)
    ensures FhdrBytes(h)[..4] == EncodeLe32(h.devAddr)
    ensures FhdrBytes(h)[4] == PackFCtrl(h.fctrl)
    ensures FhdrBytes(h)[5..FhdrFixedSize] == EncodeLe16(h.fcnt)
    ensures forall i :: 0 <= i < FOptsLen(h.fctrl) ==> FhdrBytes(h)[FhdrFixedSize + i] == h.fopts[i]
  {
  }

  /** Length of the frame header at the start of s, as its FCtrl byte announces. */
  function FhdrLength(s: seq<bv8>): (n: nat)
    requires |s| >= FhdrFixedSize
    ensures FhdrFixedSize <= n <= FhdrSize
  {
    FhdrFixedSize + FOptsLen(UnpackFCtrl(s[4]))
  }

  /** The frame header at the start of s. Options beyond the announced
      length keep their prior values, as the C out-parameter does. */
  function ParseFhdr(s: seq<bv8>, prior: seq<bv8>): (h: Fhdr)
    requires |prior| == FOptsMaxSize
    requires |s| >= FhdrFixedSize && |s| >= FhdrLength(s)
    ensures ValidFhdr(h)
    ensures h.fopts[FOptsLen(h.fctrl)..] == prior[FOptsLen(h.fctrl)..]
  {
    var fctrl := UnpackFCtrl(s[4]);
    var n := FOptsLen(fctrl);
    Fhdr(DecodeLe32(s[..4]), fctrl, DecodeLe16(s[5..7]), s[FhdrFixedSize..FhdrFixedSize + n] + prior[n..])
  }

  /** The header parsed from a frame buffer is assembled byte by byte from
      offsets 1 to 8 and from the option bytes after them. */
  lemma ParseFhdrFields(bs: seq<bv8>, prior: seq<bv8>, opts: seq<bv8>)
    requires |bs| == BufSize && |prior| == FOptsMaxSize && |opts| == FOptsMaxSize
    requires var n := FOptsLen(UnpackFCtrl(bs[5]));
      opts[..n] == bs[8..8 + n] && opts[n..] == prior[n..]
    ensures ParseFhdr(bs[1..], prior)
            == Fhdr((bs[1] as bv32) | ((bs[2] as bv32) << 8) | ((bs[3] as bv32) << 16) | ((bs[4] as bv32) << 24),
                    UnpackFCtrl(bs[5]), (bs[6] as bv16) | ((bs[7] as bv16) << 8), opts)
  {
    var s := bs[1..];
    var n := FOptsLen(UnpackFCtrl(bs[5]));
    assert s[..4] == bs[1..5] && s[5..7] == bs[6..8] && s[4] == bs[5];
    assert s[FhdrFixedSize..FhdrFixedSize + n] == bs[8..8 + n];
    assert opts == opts[..n] + opts[n..];
  }

  /** Writing a frame header and parsing the bytes back gives the same header,
      whatever follows it in the buffer. */
  lemma ParseFhdrBytes(h: Fhdr, rest: seq<bv8>, prior: seq<bv8>)
    requires ValidFhdr(h) && |prior| == FOptsMaxSize
    ensures FhdrLength(FhdrBytes(h) + rest) == |FhdrBytes(h)|
    ensures SameOnWire(ParseFhdr(FhdrBytes(h) + rest, prior), h)
    ensures prior[FOptsLen(h.fctrl)..] == h.fopts[FOptsLen(h.fctrl)..]
            ==> ParseFhdr(FhdrBytes(h) + rest, prior) == h
  {
  }

  /** The header parsed from some bytes depends only on a prefix long
      enough to hold it. */
  lemma ParseFhdrPrefix(s: seq<bv8>, t: seq<bv8>, prior: seq<bv8>)
    requires |prior| == FOptsMaxSize
    requires |t| >= FhdrFixedSize && |t| >= FhdrLength(t) && |s| >= |t| && s[..|t|] == t
    ensures FhdrLength(s) == FhdrLength(t) && ParseFhdr(s, prior) == ParseFhdr(t, prior)
  {
    assert s[4] == t[4];
    assert s[..4] == t[..4] && s[5..7] == t[5..7];
    assert s[FhdrFixedSize..FhdrLength(t)] == t[FhdrFixedSize..FhdrLength(t)];
  }

  /** Parsing a frame header and writing it again gives back exactly the
      bytes the header occupied. */
  lemma FhdrBytesOfParse(s: seq<bv8>, prior: seq<bv8>)
    requires |prior| == FOptsMaxSize
    requires |s| >= FhdrFixedSize && |s| >= FhdrLength(s)
    ensures FhdrBytes(ParseFhdr(s, prior)) == s[..FhdrLength(s)]
  {
    var n := FOptsLen(UnpackFCtrl(s[4]));
    EncodeDecodeLe32(s[..4]);
    EncodeDecodeLe16(s[5..7]);
    PackUnpackFCtrl(s[4]);
    assert s[..FhdrLength(s)] == s[..4] + [s[4]] + s[5..7] + s[FhdrFixedSize..FhdrFixedSize + n];
  }

  /** The wire bytes of a join request: JoinEUI, DevEUI, then DevNonce
      little-endian. */
  function JoinReqBytes(r: JoinReq): (s: seq<bv8>)
    requires ValidJoinReq(r)
    ensures |s| == JoinReqSize
    ensures s[..JoinEuiSize] == r.joinEui
    ensures s[JoinEuiSize..JoinEuiSize + DevEuiSize] == r.devEui
    ensures DecodeLe16(s[JoinEuiSize + DevEuiSize..]) == r.devNonce
  {
    r.joinEui + r.devEui + EncodeLe16(r.devNonce)
  }

  /** s with the bytes from offset `at` on replaced by data. */
  function Splice(s: seq<bv8>, at: nat, data: seq<bv8>): (r: seq<bv8>)
    requires at + |data| <= |s|
    ensures |r| == |s| && r[at..at + |data|] == data
  {
    s[..at] + data + s[at + |data|..]
  }

  /** The bytes up to the end of a splice are the old bytes before it
      followed by the spliced data. */
  lemma SplicePrefix(s: seq<bv8>, at: nat, data: seq<bv8>)
    requires at + |data| <= |s|
    ensures Splice(s, at, data)[..at + |data|] == s[..at] + data
    ensures Splice(s, at, data)[at..] == data + s[at + |data|..]
  {
  }

  /** Writing one more byte just past a splice extends the splice. */
  lemma SpliceSnoc(s: seq<bv8>, at: nat, data: seq<bv8>, b: bv8)
    requires at + |data| < |s|
    ensures Splice(s, at, data)[at + |data| := b] == Splice(s, at, data + [b])
  {
  }

  // ---------------------------------------------------------------------
  // The frame context

  /** A frame being written or read: the byte buffer and the end-of-frame
      cursor marking the next byte to write or read. */
  class FrameContext {
    var buf: array<bv8>
    var eof: nat

    ghost predicate Valid()
      reads this
    {
      buf.Length == BufSize && eof <= BufSize
    }

    /** A context whose buffer starts with the given bytes (zero after them)
        and whose cursor stands at `cursor`. */
    constructor (contents: seq<bv8>, cursor: nat)
      requires |contents| <= BufSize && cursor <= BufSize
      ensures Valid() && fresh(buf) && eof == cursor
      ensures buf[..|contents|] == contents
      ensures forall k :: |contents| <= k < BufSize ==> buf[k] == 0
    {
      buf := new bv8[BufSize](i => if 0 <= i < |contents| then contents[i] else 0);
      eof := cursor;
    }

    /** The `buf[eof++] = b` step of a field being written from offset `at`:
        b is the next byte of `bytes`, which is being spliced into `before`. */
    method Put(ghost before: seq<bv8>, ghost at: nat, ghost bytes: seq<bv8>, b: bv8)
      requires Valid() && |before| == BufSize && at <= eof && at + |bytes| <= BufSize
      requires eof - at < |bytes| && b == bytes[eof - at]
      requires buf[..] == Splice(before, at, bytes[..eof - at])
      modifies this`eof, buf
      ensures Valid() && eof == old(eof) + 1
      ensures buf[..] == Splice(before, at, bytes[..eof - at])
    {
      SpliceSnoc(before, at, bytes[..eof - at], b);
      assert bytes[..eof - at] + [b] == bytes[..eof + 1 - at];
      buf[eof] := b;
      eof := eof + 1;
    }

    /** The four BYTE_n steps that put v on the wire little-endian, as the
        next four bytes of `bytes`. */
    method PutLe32(ghost before: seq<bv8>, ghost at: nat, ghost bytes: seq<bv8>, v: bv32)
      requires Valid() && |before| == BufSize && at <= eof && at + |bytes| <= BufSize
      requires eof - at + 4 <= |bytes| && bytes[eof - at..eof - at + 4] == EncodeLe32(v)
      requires buf[..] == Splice(before, at, bytes[..eof - at])
      modifies this`eof, buf
      ensures Valid() && eof == old(eof) + 4
      ensures buf[..] == Splice(before, at, bytes[..eof - at])
    {
      ghost var k := eof - at;
      assert bytes[k] == (v & 0xFF) as bv8 && bytes[k + 1] == ((v >> 8) & 0xFF) as bv8;
      assert bytes[k + 2] == ((v >> 16) & 0xFF) as bv8 && bytes[k + 3] == ((v >> 24) & 0xFF) as bv8;
      Put(before, at, bytes, (v & 0xFF) as bv8);
      Put(before, at, bytes, ((v >> 8) & 0xFF) as bv8);
      Put(before, at, bytes, ((v >> 16) & 0xFF) as bv8);
      Put(before, at, bytes, ((v >> 24) & 0xFF) as bv8);
    }

    /** The two BYTE_n steps that put v on the wire little-endian, as the
        next two bytes of `bytes`. */
    method PutLe16(ghost before: seq<bv8>, ghost at: nat, ghost bytes: seq<bv8>, v: bv16)
      requires Valid() && |before| == BufSize && at <= eof && at + |bytes| <= BufSize
      requires eof - at + 2 <= |bytes| && bytes[eof - at..eof - at + 2] == EncodeLe16(v)
      requires buf[..] == Splice(before, at, bytes[..eof - at])
      modifies this`eof, buf
      ensures Valid() && eof == old(eof) + 2
      ensures buf[..] == Splice(before, at, bytes[..eof - at])
    {
      ghost var k := eof - at;
      assert bytes[k] == (v & 0xFF) as bv8 && bytes[k + 1] == ((v >> 8) & 0xFF) as bv8;
      Put(before, at, bytes, (v & 0xFF) as bv8);
      Put(before, at, bytes, ((v >> 8) & 0xFF) as bv8);
    }

    /** Writes the message header at offset 0. */
    method WriteMhdr(mhdr: Mhdr) returns (status: MacStatus)
      requires Valid()
      modifies this`eof, buf
      ensures Valid()
      ensures status == ErrNone <==> old(eof) == 0
      ensures status == ErrIndex ==> eof == old(eof) && buf[..] == old(buf[..])
      ensures status == ErrNone ==> eof == MhdrSize && buf[..] == Splice(old(buf[..]), 0, [PackMhdr(mhdr)])
    {
      if eof != 0 {
        return ErrIndex;
      }
      buf[eof] := PackMhdr(mhdr);
      eof := eof + 1;
      return ErrNone;
    }

    /** Reads the message header at offset 0 into `into`. */
    method ReadMhdr(into: Mhdr) returns (status: MacStatus, mhdr: Mhdr)
      requires Valid()
      modifies this`eof
      ensures Valid()
      ensures status == ErrNone <==> old(eof) == 0
      ensures status == ErrIndex ==> eof == old(eof) && mhdr == into
      ensures status == ErrNone ==> eof == MhdrSize && PackMhdr(mhdr) == buf[0]
    {
      if eof != 0 {
        return ErrIndex, into;
      }
      mhdr := UnpackMhdr(buf[eof]);
      eof := eof + 1;
      PackUnpackMhdr(buf[0]);
      return ErrNone, mhdr;
    }

    /** Writes a frame header just after the message header. */
    method WriteFhdr(fhdr: Fhdr) returns (status: MacStatus)
      requires Valid() && ValidFhdr(fhdr)
      modifies this`eof, buf
      ensures Valid()
      ensures status == ErrNone <==> old(eof) == MhdrSize
      ensures status == ErrIndex ==> eof == old(eof) && buf[..] == old(buf[..])
      ensures status == ErrNone ==>
                eof == MhdrSize + |FhdrBytes(fhdr)|
                && buf[..] == Splice(old(buf[..]), MhdrSize, FhdrBytes(fhdr))
    {
      if eof != MhdrSize {
        return ErrIndex;
      }
      ghost var before := buf[..];
      ghost var bytes := FhdrBytes(fhdr);
      FhdrBytesLayout(fhdr);
      assert bytes[..0] == [];
      PutLe32(before, MhdrSize, bytes, fhdr.devAddr);
      Put(before, MhdrSize, bytes, PackFCtrl(fhdr.fctrl));
      PutLe16(before, MhdrSize, bytes, fhdr.fcnt);
      var i := 0;
      while i < FOptsLen(fhdr.fctrl)
        invariant 0 <= i <= FOptsLen(fhdr.fctrl)
        invariant eof == FixedHeaderEnd + i
        invariant buf[..] == Splice(before, MhdrSize, bytes[..FhdrFixedSize + i])
      {
        Put(before, MhdrSize, bytes, fhdr.fopts[i]);
        i := i + 1;
      }
      assert bytes[..FhdrFixedSize + i] == bytes;
      return ErrNone;
    }

    /** Reads a frame header just after the message header into `into`. */
    method ReadFhdr(into: Fhdr) returns (status: MacStatus, fhdr: Fhdr)
      requires Valid() && ValidFhdr(into)
      modifies this`eof
      ensures Valid()
      ensures status == ErrNone <==> old(eof) == MhdrSize
      ensures status == ErrIndex ==> eof == old(eof) && fhdr == into
      ensures status == ErrNone ==>
                eof == MhdrSize + FhdrLength(buf[MhdrSize..])
                && fhdr == ParseFhdr(buf[MhdrSize..], into.fopts)
    {
      if eof != MhdrSize {
        return ErrIndex, into;
      }
      var devAddr: bv32 := buf[eof] as bv32;
      eof := eof + 1;
      devAddr := devAddr | ((buf[eof] as bv32) << 8);
      eof := eof + 1;
      devAddr := devAddr | ((buf[eof] as bv32) << 16);
      eof := eof + 1;
      devAddr := devAddr | ((buf[eof] as bv32) << 24);
      eof := eof + 1;
      var fctrl := UnpackFCtrl(buf[eof]);
      eof := eof + 1;
      var fcnt: bv16 := buf[eof] as bv16;
      eof := eof + 1;
      fcnt := fcnt | ((buf[eof] as bv16) << 8);
      eof := eof + 1;
      var opts := into.fopts;
      var i := 0;
      while i < FOptsLen(fctrl)
        invariant 0 <= i <= FOptsLen(fctrl)
        invariant eof == FixedHeaderEnd + i
        invariant |opts| == FOptsMaxSize
        invariant opts[..i] == buf[FixedHeaderEnd..eof]
        invariant opts[i..] == into.fopts[i..]
      {
        opts := opts[i := buf[eof]];
        eof := eof + 1;
        i := i + 1;
      }
      ParseFhdrFields(buf[..], into.fopts, opts);
      fhdr := Fhdr(devAddr, fctrl, fcnt, opts);
      return ErrNone, fhdr;
    }

    /** Writes the FPort byte; accepted only from offset 23 on. */
    method WriteFPort(fport: bv8) returns (status: MacStatus)
      requires Valid() && eof + 1 <= BufSize
      modifies this`eof, buf
      ensures Valid()
      ensures status == ErrNone <==> old(eof) >= PayloadOffset
      ensures status == ErrIndex ==> eof == old(eof) && buf[..] == old(buf[..])
      ensures status == ErrNone ==> eof == old(eof) + 1 && buf[..] == Splice(old(buf[..]), old(eof), [fport])
    {
      if eof < PayloadOffset {
        return ErrIndex;
      }
      buf[eof] := fport;
      eof := eof + 1;
      return ErrNone;
    }

    /** Reads the FPort byte into `into`; accepted only from offset 23 on. */
    method ReadFPort(into: bv8) returns (status: MacStatus, fport: bv8)
      requires Valid() && eof + 1 <= BufSize
      modifies this`eof
      ensures Valid()
      ensures status == ErrNone <==> old(eof) >= PayloadOffset
      ensures status == ErrIndex ==> eof == old(eof) && fport == into
      ensures status == ErrNone ==> eof == old(eof) + 1 && fport == buf[old(eof)]
    {
      if eof < PayloadOffset {
        return ErrIndex, into;
      }
      fport := buf[eof];
      eof := eof + 1;
      return ErrNone, fport;
    }

    /** Copies the first len bytes of payload at the cursor. Never refused. */
    method WriteFrmPayload(payload: seq<bv8>, len: nat) returns (status: MacStatus)
      requires Valid() && len <= |payload| && eof + len <= BufSize
      modifies this`eof, buf
      ensures Valid() && status == ErrNone
      ensures eof == old(eof) + len
      ensures buf[..] == Splice(old(buf[..]), old(eof), payload[..len])
    {
      forall k | 0 <= k < len {
        buf[eof + k] := payload[k];
      }
      eof := eof + len;
      return ErrNone;
    }

    /** Copies len bytes at the cursor into payload; accepted only from
        offset 23 on. */
    method ReadFrmPayload(payload: array<bv8>, len: nat) returns (status: MacStatus)
      requires Valid() && payload != buf && len <= payload.Length
      requires eof >= PayloadOffset ==> eof + len <= BufSize
      modifies this`eof, payload
      ensures Valid()
      ensures status == ErrNone <==> old(eof) >= PayloadOffset
      ensures status == ErrIndex ==> eof == old(eof) && payload[..] == old(payload[..])
      ensures status == ErrNone ==>
                eof == old(eof) + len
                && payload[..] == Splice(old(payload[..]), 0, buf[old(eof)..old(eof) + len])
    {
      if eof < PayloadOffset {
        return ErrIndex;
      }
      forall k | 0 <= k < len {
        payload[k] := buf[eof + k];
      }
      eof := eof + len;
      return ErrNone;
    }

    /** Writes the FPort byte, accepted from the end of the fixed frame
        header on (offset 8), where a header without options ends. */
    method WriteFPortAtHeaderEnd(fport: bv8) returns (status: MacStatus)
      requires Valid() && eof + 1 <= BufSize
      modifies this`eof, buf
      ensures Valid()
      ensures status == ErrNone <==> old(eof) >= FixedHeaderEnd
      ensures status == ErrIndex ==> eof == old(eof) && buf[..] == old(buf[..])
      ensures status == ErrNone ==> eof == old(eof) + 1 && buf[..] == Splice(old(buf[..]), old(eof), [fport])
    {
      if eof < FixedHeaderEnd {
        return ErrIndex;
      }
      buf[eof] := fport;
      eof := eof + 1;
      return ErrNone;
    }

    /** Reads the FPort byte into `into`, accepted from the end of the fixed
        frame header on (offset 8). */
    method ReadFPortAtHeaderEnd(into: bv8) returns (status: MacStatus, fport: bv8)
      requires Valid() && eof + 1 <= BufSize
      modifies this`eof
      ensures Valid()
      ensures status == ErrNone <==> old(eof) >= FixedHeaderEnd
      ensures status == ErrIndex ==> eof == old(eof) && fport == into
      ensures status == ErrNone ==> eof == old(eof) + 1 && fport == buf[old(eof)]
    {
      if eof < FixedHeaderEnd {
        return ErrIndex, into;
      }
      fport := buf[eof];
      eof := eof + 1;
      return ErrNone, fport;
    }

    /** Copies len bytes at the cursor into payload, accepted from the end of
        the fixed frame header on (offset 8). */
    method ReadFrmPayloadAtHeaderEnd(payload: array<bv8>, len: nat) returns (status: MacStatus)
      requires Valid() && payload != buf && len <= payload.Length
      requires eof >= FixedHeaderEnd ==> eof + len <= BufSize
      modifies this`eof, payload
      ensures Valid()
      ensures status == ErrNone <==> old(eof) >= FixedHeaderEnd
      ensures status == ErrIndex ==> eof == old(eof) && payload[..] == old(payload[..])
      ensures status == ErrNone ==>
                eof == old(eof) + len
                && payload[..] == Splice(old(payload[..]), 0, buf[old(eof)..old(eof) + len])
    {
      if eof < FixedHeaderEnd {
        return ErrIndex;
      }
      forall k | 0 <= k < len {
        payload[k] := buf[eof + k];
      }
      eof := eof + len;
      return ErrNone;
    }

    /** Writes an OTAA join request just after the message header. */
    method WriteJoinReq(req: JoinReq) returns (status: MacStatus)
      requires Valid() && ValidJoinReq(req)
      modifies this`eof, buf
      ensures Valid()
      ensures status == ErrNone <==> old(eof) == MhdrSize
      ensures status == ErrIndex ==> eof == old(eof) && buf[..] == old(buf[..])
      ensures status == ErrNone ==>
                eof == MhdrSize + JoinReqSize
                && buf[..] == Splice(old(buf[..]), MhdrSize, JoinReqBytes(req))
    {
      if eof != MhdrSize {
        return ErrIndex;
      }
      ghost var before := buf[..];
      ghost var bytes := JoinReqBytes(req);
      var i := 0;
      while i < JoinEuiSize
        invariant 0 <= i <= JoinEuiSize
        invariant eof == MhdrSize + i
        invariant buf[..] == Splice(before, MhdrSize, bytes[..i])
      {
        Put(before, MhdrSize, bytes, req.joinEui[i]);
        i := i + 1;
      }
      i := 0;
      while i < DevEuiSize
        invariant 0 <= i <= DevEuiSize
        invariant eof == MhdrSize + JoinEuiSize + i
        invariant buf[..] == Splice(before, MhdrSize, bytes[..JoinEuiSize + i])
      {
        Put(before, MhdrSize, bytes, req.devEui[i]);
        i := i + 1;
      }
      PutLe16(before, MhdrSize, bytes, req.devNonce);
      assert bytes[..JoinReqSize] == bytes;
      return ErrNone;
    }

    /** Writes the four-byte message integrity code at the cursor. Never refused. */
    method WriteMic(mic: bv32) returns (status: MacStatus)
      requires Valid() && eof + 4 <= BufSize
      modifies this`eof, buf
      ensures Valid() && status == ErrNone
      ensures eof == old(eof) + 4
      ensures buf[..] == Splice(old(buf[..]), old(eof), EncodeLe32(mic))
    {
      buf[eof] := (mic & 0xFF) as bv8;
      eof := eof + 1;
      buf[eof] := ((mic >> 8) & 0xFF) as bv8;
      eof := eof + 1;
      buf[eof] := ((mic >> 16) & 0xFF) as bv8;
      eof := eof + 1;
      buf[eof] := ((mic >> 24) & 0xFF) as bv8;
      eof := eof + 1;
      return ErrNone;
    }
  }

  // ---------------------------------------------------------------------
  // Frames assembled from the operations

  /** A frame header written after a message header and read back from the
      same bytes comes back as written, and reading ends where writing did. */
  method FhdrWriteRead(mhdr: Mhdr, fhdr: Fhdr, into: Fhdr) returns (back: Fhdr, written: nat, read: nat)
    requires ValidFhdr(fhdr) && ValidFhdr(into)
    ensures ValidFhdr(back) && SameOnWire(back, fhdr)
    ensures written == read == FixedHeaderEnd + FOptsLen(fhdr.fctrl)
  {
    var w := new FrameContext([], 0);
    var status := w.WriteMhdr(mhdr);
    status := w.WriteFhdr(fhdr);
    written := w.eof;
    ghost var bytes := w.buf[..];
    SplicePrefix(bytes[..], MhdrSize, FhdrBytes(fhdr));
    ghost var rest := bytes[MhdrSize + |FhdrBytes(fhdr)|..];
    assert bytes[MhdrSize..] == FhdrBytes(fhdr) + rest;
    ParseFhdrBytes(fhdr, rest, into.fopts);
    var r := new FrameContext(w.buf[..], MhdrSize);
    assert r.buf[..] == r.buf[..BufSize] == bytes;
    status, back := r.ReadFhdr(into);
    read := r.eof;
  }

  /** With the FPort gated at offset 23, a data frame whose header carries
      fewer than 15 option bytes cannot be given an FPort. */
  method FPortAfterFhdrAsWritten(mhdr: Mhdr, fhdr: Fhdr, fport: bv8) returns (status: MacStatus)
    requires ValidFhdr(fhdr)
    ensures status == ErrIndex <==> FOptsLen(fhdr.fctrl) < FOptsMaxSize
  {
    var ctx := new FrameContext([], 0);
    status := ctx.WriteMhdr(mhdr);
    status := ctx.WriteFhdr(fhdr);
    status := ctx.WriteFPort(fport);
  }

  /** A data frame written field by field, with the FPort gated at the end
      of the fixed frame header: MHDR, FHDR, FPort, FRMPayload and MIC follow
      each other in that order with nothing between them. */
  method EncodeDataFrame(mhdr: Mhdr, fhdr: Fhdr, fport: bv8, payload: seq<bv8>, mic: bv32)
    returns (frame: seq<bv8>)
    requires ValidFhdr(fhdr)
    requires FixedHeaderEnd + FOptsLen(fhdr.fctrl) + 1 + |payload| + 4 <= BufSize
    ensures frame == [PackMhdr(mhdr)] + FhdrBytes(fhdr) + [fport] + payload + EncodeLe32(mic)
  {
    var ctx := new FrameContext([], 0);
    ghost var s := ctx.buf[..];
    var status := ctx.WriteMhdr(mhdr);
    SplicePrefix(s, 0, [PackMhdr(mhdr)]);
    assert ctx.buf[..ctx.eof] == [PackMhdr(mhdr)];
    ghost var frameSoFar := ctx.buf[..ctx.eof];

    s := ctx.buf[..];
    status := ctx.WriteFhdr(fhdr);
    SplicePrefix(s, MhdrSize, FhdrBytes(fhdr));
    assert ctx.buf[..ctx.eof] == frameSoFar + FhdrBytes(fhdr);
    frameSoFar := ctx.buf[..ctx.eof];

    s := ctx.buf[..];
    ghost var at := ctx.eof;
    status := ctx.WriteFPortAtHeaderEnd(fport);
    SplicePrefix(s, at, [fport]);
    assert ctx.buf[..ctx.eof] == frameSoFar + [fport];
    frameSoFar := ctx.buf[..ctx.eof];

    s := ctx.buf[..];
    at := ctx.eof;
    status := ctx.WriteFrmPayload(payload, |payload|);
    SplicePrefix(s, at, payload);
    assert payload[..|payload|] == payload;
    assert ctx.buf[..ctx.eof] == frameSoFar + payload;
    frameSoFar := ctx.buf[..ctx.eof];

    s := ctx.buf[..];
    at := ctx.eof;
    status := ctx.WriteMic(mic);
    SplicePrefix(s, at, EncodeLe32(mic));
    assert ctx.buf[..ctx.eof] == frameSoFar + EncodeLe32(mic);
    frame := ctx.buf[..ctx.eof];
  }

  /** The bytes after a header in a buffer that starts with header,
      port, payload and trailer are the port and then the payload. */
  lemma FieldsAfter(bytes: seq<bv8>, head: seq<bv8>, fport: bv8, payload: seq<bv8>, trailer: seq<bv8>)
    requires |head| + 1 + |payload| + |trailer| <= |bytes|
    requires bytes[..|head| + 1 + |payload| + |trailer|] == head + [fport] + payload + trailer
    ensures bytes[..|head|] == head
    ensures bytes[|head|] == fport
    ensures bytes[|head| + 1..|head| + 1 + |payload|] == payload
  {
    var frame := head + [fport] + payload + trailer;
    assert bytes[..|head|] == frame[..|head|];
    assert bytes[|head|] == frame[|head|];
    assert bytes[|head| + 1..|head| + 1 + |payload|] == frame[|head| + 1..|head| + 1 + |payload|];
  }

  /** Where each field of a data frame sits in a buffer that starts with
      the frame. */
  lemma DataFrameFields(bytes: seq<bv8>, mhdr: Mhdr, fhdr: Fhdr, fport: bv8, payload: seq<bv8>, mic: bv32,
                        prior: seq<bv8>)
    requires ValidFhdr(fhdr) && |prior| == FOptsMaxSize && |bytes| == BufSize
    requires var frame := [PackMhdr(mhdr)] + FhdrBytes(fhdr) + [fport] + payload + EncodeLe32(mic);
      |frame| <= BufSize && bytes[..|frame|] == frame
    ensures bytes[0] == PackMhdr(mhdr)
    ensures FhdrLength(bytes[MhdrSize..]) == FhdrFixedSize + FOptsLen(fhdr.fctrl)
    ensures SameOnWire(ParseFhdr(bytes[MhdrSize..], prior), fhdr)
    ensures bytes[FixedHeaderEnd + FOptsLen(fhdr.fctrl)] == fport
    ensures bytes[FixedHeaderEnd + FOptsLen(fhdr.fctrl) + 1..FixedHeaderEnd + FOptsLen(fhdr.fctrl) + 1 + |payload|] == payload
  {
    var fb := FhdrBytes(fhdr);
    var head := [PackMhdr(mhdr)] + fb;
    FieldsAfter(bytes, head, fport, payload, EncodeLe32(mic));
    assert bytes[0] == head[0];
    assert bytes[MhdrSize..][..|fb|] == fb by {
      assert bytes[MhdrSize..][..|fb|] == bytes[..|head|][MhdrSize..];
    }
    ParseFhdrBytes(fhdr, [], prior);
    assert fb + [] == fb;
    ParseFhdrPrefix(bytes[MhdrSize..], fb, prior);
  }

  /** Writes a data frame with EncodeDataFrame and opens a fresh context
      over it for reading, with the cursor at the start. */
  method ReopenDataFrame(mhdr: Mhdr, fhdr: Fhdr, fport: bv8, payload: seq<bv8>, mic: bv32, ghost prior: seq<bv8>)
    returns (ctx: FrameContext)
    requires ValidFhdr(fhdr) && |prior| == FOptsMaxSize
    requires FixedHeaderEnd + FOptsLen(fhdr.fctrl) + 1 + |payload| + 4 <= BufSize
    ensures fresh(ctx) && fresh(ctx.buf) && ctx.Valid() && ctx.eof == 0
    ensures ctx.buf[0] == PackMhdr(mhdr)
    ensures FhdrLength(ctx.buf[MhdrSize..]) == FhdrFixedSize + FOptsLen(fhdr.fctrl)
    ensures SameOnWire(ParseFhdr(ctx.buf[MhdrSize..], prior), fhdr)
    ensures ctx.buf[FixedHeaderEnd + FOptsLen(fhdr.fctrl)] == fport
    ensures ctx.buf[FixedHeaderEnd + FOptsLen(fhdr.fctrl) + 1..FixedHeaderEnd + FOptsLen(fhdr.fctrl) + 1 + |payload|] == payload
  {
    var frame := EncodeDataFrame(mhdr, fhdr, fport, payload, mic);
    ctx := new FrameContext(frame, 0);
    DataFrameFields(ctx.buf[..], mhdr, fhdr, fport, payload, mic, prior);
  }

  /** A data frame written with the FPort gated at the end of the fixed
      frame header reads back, through the reads gated the same way, as the
      MHDR, a frame header equal on the wire, the FPort and the payload that
      were written. */
  method DataFrameRoundTrip(mhdr: Mhdr, fhdr: Fhdr, fport: bv8, payload: seq<bv8>, mic: bv32, into: Fhdr)
    returns (mhdrBack: Mhdr, fhdrBack: Fhdr, fportBack: bv8, payloadBack: seq<bv8>)
    requires ValidFhdr(fhdr) && ValidFhdr(into)
    requires FixedHeaderEnd + FOptsLen(fhdr.fctrl) + 1 + |payload| + 4 <= BufSize
    ensures mhdrBack == mhdr
    ensures ValidFhdr(fhdrBack) && SameOnWire(fhdrBack, fhdr)
    ensures fportBack == fport
    ensures payloadBack == payload
  {
    var ctx := ReopenDataFrame(mhdr, fhdr, fport, payload, mic, into.fopts);
    ghost var n := FOptsLen(fhdr.fctrl);
    var status;
    status, mhdrBack := ctx.ReadMhdr(Mhdr(0, 0, JoinRequest));
    assert status == ErrNone;
    assert mhdrBack == mhdr by {
      assert UnpackMhdr(PackMhdr(mhdrBack)) == mhdrBack;
    }
    status, fhdrBack := ctx.ReadFhdr(into);
    assert status == ErrNone;
    assert ctx.eof == FixedHeaderEnd + n;
    fportBack, payloadBack := ReadBodyBack(ctx, 0, |payload|);
  }

  /** Reads the FPort and then len payload bytes at the cursor, through the
      reads gated at the end of the fixed frame header. */
  method ReadBodyBack(ctx: FrameContext, into: bv8, len: nat) returns (fport: bv8, payload: seq<bv8>)
    requires ctx.Valid() && ctx.eof >= FixedHeaderEnd && ctx.eof + 1 + len <= BufSize
    modifies ctx`eof
    ensures ctx.Valid() && ctx.eof == old(ctx.eof) + 1 + len
    ensures fport == ctx.buf[old(ctx.eof)]
    ensures payload == ctx.buf[old(ctx.eof) + 1..old(ctx.eof) + 1 + len]
  {
    var status;
    status, fport := ctx.ReadFPortAtHeaderEnd(into);
    var out := new bv8[len];
    status := ctx.ReadFrmPayloadAtHeaderEnd(out, len);
    payload := out[..];
    assert payload == Splice(payload, 0, ctx.buf[old(ctx.eof) + 1..old(ctx.eof) + 1 + len]);
  }

  // ---------------------------------------------------------------------
  // Worked examples

  /** FCtrl 0x55 announces five option bytes with FPending/ClassB and
      ADRACKReq set; Confirmed Data Down of major version R1 is MHDR 0xA0. */
  lemma HeaderByteExamples()
    ensures UnpackFCtrl(0x55) == FCtrl(5, 1, 0, 1, 0)
    ensures PackMhdr(Mhdr(0, 0, ConfirmedDataDown)) == 0xA0
    ensures MhdrInit(5, 0) == 0xA0
  {
  }

  /** DevAddr 0xAA55BEEF, FCtrl 0x55 and FCnt 0xFEED with options
      DE AD BE EF AA go on the wire as EF BE 55 AA 55 ED FE DE AD BE EF AA,
      and parse back from those bytes. */
  lemma FhdrExample(unused: seq<bv8>, prior: seq<bv8>)
    requires |unused| == FOptsMaxSize - 5 && |prior| == FOptsMaxSize
    ensures var h := Fhdr(0xAA55BEEF, UnpackFCtrl(0x55), 0xFEED, [0xDE, 0xAD, 0xBE, 0xEF, 0xAA] + unused);
            var wire: seq<bv8> := [0xEF, 0xBE, 0x55, 0xAA, 0x55, 0xED, 0xFE, 0xDE, 0xAD, 0xBE, 0xEF, 0xAA];
            && ValidFhdr(h)
            && FhdrBytes(h) == wire
            && FhdrLength(wire) == |wire|
            && SameOnWire(ParseFhdr(wire, prior), h)
  {
  }

  /** The MIC 0xAA55FEED goes on the wire as ED FE 55 AA. */
  lemma MicExample()
    ensures EncodeLe32(0xAA55FEED) == [0xED, 0xFE, 0x55, 0xAA]
  {
  }
}
