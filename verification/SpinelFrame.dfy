/** Spinel frames: one header byte (flag, network link, transaction), a command byte, a payload. */
module SpinelFrame {
  import opened Bytes
  import Hdlc

  datatype Header = Header(flag: byte, networkLinkId: byte, transactionId: byte)

  datatype Frame = Frame(header: Header, commandId: byte, payload: seq<byte>)

  datatype FrameError = PayloadTooShort | NotSpinelFrame

  predicate HeaderInRange(h: Header) {
    h.flag < 4 && h.networkLinkId < 4 && h.transactionId < 16
  }

  /** The frames the protocol exchanges: field widths respected, Spinel flag set, at least one payload byte. */
  predicate WellFormed(f: Frame) {
    HeaderInRange(f.header) && f.header.flag == 2 && f.payload != []
  }

  function Pack(flag: byte, link: byte, tid: byte): byte {
    (flag << 6) | (link << 4) | tid
  }

  function HeaderFromByte(b: byte): Header {
    Header((b & 0xC0) >> 6, (b & 0x30) >> 4, b & 0x0F)
  }

  function HeaderToByte(h: Header): byte {
    Pack(h.flag, h.networkLinkId, h.transactionId)
  }

  function FromBytes(bytes: seq<byte>): Result<Frame, FrameError> {
    if |bytes| < 3 then Err(PayloadTooShort)
    else
      var header := HeaderFromByte(bytes[0]);
      if header.flag != 2 then Err(NotSpinelFrame)
      else Ok(Frame(header, bytes[1], bytes[2..]))
  }

  function ToBytes(f: Frame): seq<byte> {
    [HeaderToByte(f.header), f.commandId] + f.payload
  }

  lemma UnpackPack(flag: byte, link: byte, tid: byte)
    requires flag < 4 && link < 4 && tid < 16
    ensures var b := Pack(flag, link, tid);
            (b & 0xC0) >> 6 == flag && (b & 0x30) >> 4 == link && b & 0x0F == tid
  {
  }

  lemma PackUnpack(b: byte)
    ensures Pack((b & 0xC0) >> 6, (b & 0x30) >> 4, b & 0x0F) == b
    ensures (b & 0xC0) >> 6 < 4 && (b & 0x30) >> 4 < 4 && b & 0x0F < 16
  {
  }

  lemma HeaderRoundTrip(h: Header)
    requires HeaderInRange(h)
    ensures HeaderFromByte(HeaderToByte(h)) == h
  {
    UnpackPack(h.flag, h.networkLinkId, h.transactionId);
    hide Pack;
  }

  /** A frame with fields in range survives the wire exactly when it is a Spinel frame with a payload. */
  lemma RoundTrip(f: Frame)
    requires HeaderInRange(f.header)
    ensures FromBytes(ToBytes(f)) == Ok(f) <==> WellFormed(f)
  {
    HeaderRoundTrip(f.header);
    hide HeaderFromByte, HeaderToByte;
    var bytes := ToBytes(f);
    assert bytes[2..] == f.payload;
  }

  /** Every accepted byte string is the printing of a well-formed frame, hence no two strings parse alike. */
  lemma PrintParse(bytes: seq<byte>)
    ensures FromBytes(bytes).Ok? ==> WellFormed(FromBytes(bytes).value) && ToBytes(FromBytes(bytes).value) == bytes
    ensures FromBytes(bytes).Ok? <==> |bytes| >= 3 && bytes[0] & 0xC0 == 0x80
  {
    if |bytes| >= 3 {
      PackUnpack(bytes[0]);
      FlagBits(bytes[0]);
      hide Pack;
      assert bytes == [bytes[0], bytes[1]] + bytes[2..];
    }
  }

  /** Which error is reported when. */
  lemma RefusedExactly(bytes: seq<byte>)
    ensures FromBytes(bytes) == Err(PayloadTooShort) <==> |bytes| < 3
    ensures FromBytes(bytes) == Err(NotSpinelFrame) <==> |bytes| >= 3 && bytes[0] & 0xC0 != 0x80
  {
    PrintParse(bytes);
  }

  lemma FlagBits(b: byte)
    ensures (b & 0xC0) >> 6 == 2 <==> b & 0xC0 == 0x80
  {
  }

  /** What a sender puts on the line for a frame. */
  function Wire(crc: Hdlc.Crc, f: Frame): seq<byte> {
    Hdlc.WithFlags(crc, ToBytes(f))
  }
}
