/** The IEEE 802.15.4 MAC frame as the driver reads and writes it. */
module Ieee802154 {
  import opened Bytes
  import opened Addresses
  import Fcs

  datatype FrameType = Beacon | Data | Command | Ack

  datatype AddressingMode = NoAddress | Short | Long

  datatype FrameControl = FrameControl(
    frameType: FrameType,
    securityEnabled: bool,
    framePending: bool,
    ackRequest: bool,
    panIdCompression: bool,
    reserved: bool,
    sequenceNumberSuppression: bool,
    informationElementsPresent: bool,
    destAddrMode: AddressingMode,
    frameVersion: byte,
    srcAddrMode: AddressingMode)

  datatype Address = ShortAddress(nwk: Nwk) | LongAddress(eui64: Eui64)

  datatype Frame = Frame(
    frameControl: FrameControl,
    sequenceNumber: Option<byte>,
    destPanId: Option<PanId>,
    destAddress: Option<Address>,
    srcPanId: Option<PanId>,
    srcAddress: Option<Address>,
    payload: seq<byte>,
    fcs: bv16)

  // Frame control

  function TypeCode(t: FrameType): byte {
    match t
    case Beacon => 0
    case Data => 1
    case Ack => 2
    case Command => 3
  }

  function TypeOf(code: byte): Option<FrameType> {
    if code == 0 then Some(Beacon)
    else if code == 1 then Some(Data)
    else if code == 3 then Some(Command)
    else if code == 2 then Some(Ack)
    else None
  }

  function ModeCode(m: AddressingMode): byte {
    match m
    case NoAddress => 0
    case Short => 2
    case Long => 3
  }

  function ModeOf(code: byte): Option<AddressingMode> {
    if code == 0 then Some(NoAddress)
    else if code == 2 then Some(Short)
    else if code == 3 then Some(Long)
    else None
  }

  function PackLow(t: byte, security: bool, pending: bool, ack: bool, compression: bool, reserved: bool): byte {
    (t << 0) | (Flag(security) << 3) | (Flag(pending) << 4) | (Flag(ack) << 5)
    | (Flag(compression) << 6) | (Flag(reserved) << 7)
  }

  function PackHigh(suppression: bool, elements: bool, dest: byte, version: byte, src: byte): byte {
    (Flag(suppression) << 0) | (Flag(elements) << 1) | (dest << 2) | (version << 4) | (src << 6)
  }

  function PrintFrameControl(c: FrameControl): seq<byte> {
    [PackLow(TypeCode(c.frameType), c.securityEnabled, c.framePending, c.ackRequest, c.panIdCompression, c.reserved),
     PackHigh(c.sequenceNumberSuppression, c.informationElementsPresent, ModeCode(c.destAddrMode), c.frameVersion,
              ModeCode(c.srcAddrMode))]
  }

  predicate Bit(b: byte, mask: byte) {
    b & mask != 0
  }

  function TypeField(b: byte): byte {
    b & 0x07
  }

  function DestField(b: byte): byte {
    (b >> 2) & 0x03
  }

  function VersionField(b: byte): byte {
    (b >> 4) & 0x03
  }

  function SrcField(b: byte): byte {
    (b >> 6) & 0x03
  }

  function ParseFrameControl(b: seq<byte>): Parsed<FrameControl> {
    if |b| < 2 then Rejected(NotEnoughData)
    else match (TypeOf(TypeField(b[0])), ModeOf(DestField(b[1])), ModeOf(SrcField(b[1])))
      case (Some(frameType), Some(dest), Some(src)) =>
        Parsed(FrameControl(frameType, Bit(b[0], 0x08), Bit(b[0], 0x10), Bit(b[0], 0x20), Bit(b[0], 0x40),
                            Bit(b[0], 0x80), Bit(b[1], 0x01), Bit(b[1], 0x02), dest, VersionField(b[1]), src),
               b[2..])
      case _ => Rejected(InvalidField)
  }

  lemma UnpackLow(t: byte, s: bool, p: bool, a: bool, c: bool, r: bool)
    requires t < 4
    ensures var b := PackLow(t, s, p, a, c, r);
            && TypeField(b) == t && Bit(b, 0x08) == s && Bit(b, 0x10) == p && Bit(b, 0x20) == a
            && Bit(b, 0x40) == c && Bit(b, 0x80) == r
  {
  }

  lemma UnpackHigh(s: bool, e: bool, d: byte, v: byte, a: byte)
    requires d < 4 && v < 4 && a < 4
    ensures var b := PackHigh(s, e, d, v, a);
            && Bit(b, 0x01) == s && Bit(b, 0x02) == e
            && DestField(b) == d && VersionField(b) == v && SrcField(b) == a
  {
  }

  lemma RepackLow(b: byte)
    ensures PackLow(TypeField(b), Bit(b, 0x08), Bit(b, 0x10), Bit(b, 0x20), Bit(b, 0x40), Bit(b, 0x80)) == b
  {
  }

  lemma RepackHigh(b: byte)
    ensures VersionField(b) < 4
    ensures PackHigh(Bit(b, 0x01), Bit(b, 0x02), DestField(b), VersionField(b), SrcField(b)) == b
  {
  }

  lemma CodesRoundTrip()
    ensures forall t :: TypeOf(TypeCode(t)) == Some(t) && TypeCode(t) < 4
    ensures forall m :: ModeOf(ModeCode(m)) == Some(m) && ModeCode(m) < 4
    ensures forall b :: TypeOf(b).Some? ==> TypeCode(TypeOf(b).value) == b
    ensures forall b :: ModeOf(b).Some? ==> ModeCode(ModeOf(b).value) == b
  {
  }

  /** A control is refused exactly when it is short, or names a frame type or an addressing mode there is none of. */
  lemma FrameControlRefused(b: seq<byte>)
    ensures ParseFrameControl(b) == Rejected(NotEnoughData) <==> |b| < 2
    ensures ParseFrameControl(b) == Rejected(InvalidField) <==>
            |b| >= 2 && (b[0] & 0x04 != 0 || b[1] & 0x0C == 0x04 || b[1] & 0xC0 == 0x40)
  {
    if |b| >= 2 {
      UnknownCodes(b[0], b[1]);
      hide TypeField, DestField, VersionField, SrcField, Bit, TypeOf, ModeOf;
    }
  }

  lemma UnknownCodes(lo: byte, hi: byte)
    ensures TypeOf(TypeField(lo)) == None <==> lo & 0x04 != 0
    ensures ModeOf(DestField(hi)) == None <==> hi & 0x0C == 0x04
    ensures ModeOf(SrcField(hi)) == None <==> hi & 0xC0 == 0x40
  {
  }

  lemma FrameControlPrintParse(b: seq<byte>)
    requires ParseFrameControl(b).Parsed?
    ensures ParseFrameControl(b).value.frameVersion < 4
    ensures b == PrintFrameControl(ParseFrameControl(b).value) + ParseFrameControl(b).rest
  {
    CodesRoundTrip();
    RepackLow(b[0]);
    RepackHigh(b[1]);
    hide PackLow, PackHigh, Bit, TypeField, DestField, VersionField, SrcField, TypeOf, ModeOf, TypeCode, ModeCode;
    assert b == [b[0], b[1]] + b[2..];
  }

  lemma FrameControlParsePrint(c: FrameControl, rest: seq<byte>)
    requires c.frameVersion < 4
    ensures ParseFrameControl(PrintFrameControl(c) + rest) == Parsed(c, rest)
  {
    CodesRoundTrip();
    UnpackLow(TypeCode(c.frameType), c.securityEnabled, c.framePending, c.ackRequest, c.panIdCompression, c.reserved);
    UnpackHigh(c.sequenceNumberSuppression, c.informationElementsPresent, ModeCode(c.destAddrMode), c.frameVersion,
               ModeCode(c.srcAddrMode));
    hide PackLow, PackHigh, Bit, TypeField, DestField, VersionField, SrcField, TypeOf, ModeOf, TypeCode, ModeCode;
    assert (PrintFrameControl(c) + rest)[2..] == rest;
  }

  lemma FrameControlExact(b: seq<byte>, c: FrameControl, rest: seq<byte>)
    ensures ParseFrameControl(b) == Parsed(c, rest) <==> c.frameVersion < 4 && b == PrintFrameControl(c) + rest
  {
    hide ParseFrameControl, PrintFrameControl;
    if ParseFrameControl(b).Parsed? {
      FrameControlPrintParse(b);
    }
    if c.frameVersion < 4 {
      FrameControlParsePrint(c, rest);
    }
  }

  // The optional fields

  function ParseSequenceNumber(c: FrameControl, b: seq<byte>): Parsed<Option<byte>> {
    if c.sequenceNumberSuppression then Parsed(None, b)
    else if b == [] then OutOfBounds  // indexed without a length check
    else Parsed(Some(b[0]), b[1..])
  }

  function PrintSequenceNumber(s: Option<byte>): seq<byte> {
    match s
    case None => []
    case Some(n) => [n]
  }

  function ParseAddress(mode: AddressingMode, b: seq<byte>): Parsed<Option<Address>> {
    match mode
    case NoAddress => Parsed(None, b)
    case Short => var (nwk, rest) :- ParseNwk(b); Parsed(Some(ShortAddress(nwk)), rest)
    case Long => var (eui64, rest) :- ParseEui64(b); Parsed(Some(LongAddress(eui64)), rest)
  }

  function PrintAddress(a: Option<Address>): seq<byte> {
    match a
    case None => []
    case Some(ShortAddress(nwk)) => PrintNwk(nwk)
    case Some(LongAddress(eui64)) => PrintEui64(eui64)
  }

  predicate AddressFits(mode: AddressingMode, a: Option<Address>) {
    match mode
    case NoAddress => a.None?
    case Short => a.Some? && a.value.ShortAddress?
    case Long => a.Some? && a.value.LongAddress?
  }

  function ParsePan(present: bool, b: seq<byte>): Parsed<Option<PanId>> {
    if present then var (pan, rest) :- ParsePanId(b); Parsed(Some(pan), rest) else Parsed(None, b)
  }

  function PrintPan(p: Option<PanId>): seq<byte> {
    match p
    case None => []
    case Some(pan) => PrintPanId(pan)
  }

  lemma SequenceNumberExact(c: FrameControl, b: seq<byte>, s: Option<byte>, rest: seq<byte>)
    ensures ParseSequenceNumber(c, b) == Parsed(s, rest) <==>
            (s.None? <==> c.sequenceNumberSuppression) && b == PrintSequenceNumber(s) + rest
  {
    assert [] + rest == rest;
    if b != [] {
      assert b == [b[0]] + b[1..];
    }
    if s.Some? && b == [s.value] + rest {
      assert b[1..] == rest;
    }
  }

  lemma AddressExact(mode: AddressingMode, b: seq<byte>, a: Option<Address>, rest: seq<byte>)
    ensures ParseAddress(mode, b) == Parsed(a, rest) <==> AddressFits(mode, a) && b == PrintAddress(a) + rest
  {
    hide ParseNwk, ParseEui64, PrintNwk, PrintEui64;
    assert [] + rest == rest;
    match mode {
      case NoAddress =>
      case Short =>
        if a.Some? && a.value.ShortAddress? {
          NwkExact(b, a.value.nwk, rest);
        }
      case Long =>
        if a.Some? && a.value.LongAddress? {
          Eui64Exact(b, a.value.eui64, rest);
        }
    }
  }

  lemma PanExact(present: bool, b: seq<byte>, p: Option<PanId>, rest: seq<byte>)
    ensures ParsePan(present, b) == Parsed(p, rest) <==> (p.Some? <==> present) && b == PrintPan(p) + rest
  {
    hide ParsePanId, PrintPanId;
    assert [] + rest == rest;
    if p.Some? {
      PanIdExact(b, p.value, rest);
    }
  }

  // The frame

  /** The source PAN is on the wire only in uncompressed data frames. */
  predicate CarriesSourcePan(c: FrameControl) {
    !c.panIdCompression && c.frameType == Data
  }

  function ParseFrame(b: seq<byte>, fcs: bv16): Parsed<Frame> {
    var (c, b1) :- ParseFrameControl(b);
    var (sequenceNumber, b2) :- ParseSequenceNumber(c, b1);
    ParseAddressing(c, sequenceNumber, b2, fcs)
  }

  /** The four address fields and the payload after them. */
  function ParseAddressing(c: FrameControl, sequenceNumber: Option<byte>, b2: seq<byte>, fcs: bv16): Parsed<Frame> {
    var (destPan, b3) :- ParsePan(c.destAddrMode != NoAddress, b2);
    var (dest, b4) :- ParseAddress(c.destAddrMode, b3);
    var (ownPan, b5) :- ParsePan(CarriesSourcePan(c), b4);
    var (src, payload) :- ParseAddress(c.srcAddrMode, b5);
    var srcPan := if c.panIdCompression then destPan else ownPan;
    Parsed(Frame(c, sequenceNumber, destPan, dest, srcPan, src, payload, fcs), [])
  }

  function WrittenSourcePan(f: Frame): Option<PanId> {
    if f.frameControl.panIdCompression then None else f.srcPanId
  }

  function PrintBody(f: Frame): seq<byte> {
    PrintFrameControl(f.frameControl)
    + (PrintSequenceNumber(f.sequenceNumber)
       + (PrintPan(f.destPanId)
          + (PrintAddress(f.destAddress)
             + (PrintPan(WrittenSourcePan(f))
                + (PrintAddress(f.srcAddress)
                   + f.payload)))))
  }

  /** The optional fields are the ones the frame control announces. */
  predicate WellFormed(f: Frame) {
    var c := f.frameControl;
    && c.frameVersion < 4
    && (f.sequenceNumber.None? <==> c.sequenceNumberSuppression)
    && (f.destPanId.Some? <==> c.destAddrMode != NoAddress)
    && AddressFits(c.destAddrMode, f.destAddress)
    && (if c.panIdCompression then f.srcPanId == f.destPanId else (f.srcPanId.Some? <==> c.frameType == Data))
    && AddressFits(c.srcAddrMode, f.srcAddress)
  }

  lemma BodyPrintParse(b: seq<byte>, fcs: bv16)
    requires ParseFrame(b, fcs).Parsed?
    ensures var f := ParseFrame(b, fcs).value; WellFormed(f) && f.fcs == fcs && b == PrintBody(f)
  {
    var (c, b1) := ParseFrameControl(b).Extract();
    var (sequenceNumber, b2) := ParseSequenceNumber(c, b1).Extract();
    var (destPan, b3) := ParsePan(c.destAddrMode != NoAddress, b2).Extract();
    var (dest, b4) := ParseAddress(c.destAddrMode, b3).Extract();
    var (ownPan, b5) := ParsePan(CarriesSourcePan(c), b4).Extract();
    var (src, payload) := ParseAddress(c.srcAddrMode, b5).Extract();
    hide ParseFrameControl, ParseSequenceNumber, ParsePan, ParseAddress;
    hide PrintFrameControl, PrintSequenceNumber, PrintPan, PrintAddress;
    FrameControlExact(b, c, b1);
    SequenceNumberExact(c, b1, sequenceNumber, b2);
    PanExact(c.destAddrMode != NoAddress, b2, destPan, b3);
    AddressExact(c.destAddrMode, b3, dest, b4);
    PanExact(CarriesSourcePan(c), b4, ownPan, b5);
    AddressExact(c.srcAddrMode, b5, src, payload);
  }

  lemma BodyParsePrint(f: Frame)
    requires WellFormed(f)
    ensures ParseFrame(PrintBody(f), f.fcs) == Parsed(f, [])
  {
    var c := f.frameControl;
    hide ParseFrameControl, ParseSequenceNumber, ParsePan, ParseAddress;
    hide PrintFrameControl, PrintSequenceNumber, PrintPan, PrintAddress;
    var b5 := PrintAddress(f.srcAddress) + f.payload;
    var b4 := PrintPan(WrittenSourcePan(f)) + b5;
    var b3 := PrintAddress(f.destAddress) + b4;
    var b2 := PrintPan(f.destPanId) + b3;
    var b1 := PrintSequenceNumber(f.sequenceNumber) + b2;
    FrameControlExact(PrintFrameControl(c) + b1, c, b1);
    SequenceNumberExact(c, b1, f.sequenceNumber, b2);
    PanExact(c.destAddrMode != NoAddress, b2, f.destPanId, b3);
    AddressExact(c.destAddrMode, b3, f.destAddress, b4);
    PanExact(CarriesSourcePan(c), b4, WrittenSourcePan(f), b5);
    AddressExact(c.srcAddrMode, b5, f.srcAddress, f.payload);
  }

  function FromBytes(data: seq<byte>): Parsed<Frame> {
    if |data| < 4 then Rejected(NotEnoughData)
    else if !Fcs.FcsMatches(data) then Rejected(InvalidFcs)
    else ParseFrame(data[..|data| - 2], FromLe16(data[|data| - 2], data[|data| - 1]))
  }

  function FromBytesWithoutFcs(data: seq<byte>): Parsed<Frame> {
    FromBytes(data + Le16(Fcs.Fcs(data)))
  }

  function ToBytes(f: Frame): seq<byte> {
    PrintBody(f) + Le16(Fcs.Fcs(PrintBody(f)))
  }

  /** The routines agree with the functions above; the reader needs its one unchecked index to be in range. */
  method ReadFrame(data: seq<byte>) returns (r: Parsed<Frame>)
    requires FromBytes(data) != OutOfBounds
    ensures r == FromBytes(data)
  {
    hide ParseFrameControl, ParsePanId, ParseNwk, ParseEui64, FromLe16, Fcs.Fcs;
    if |data| < 2 + 2 {
      return Rejected(NotEnoughData);
    }
    var fcs := FromLe16(data[|data| - 2], data[|data| - 1]);
    var remaining := data[..|data| - 2];
    var computed := Fcs.ComputeFcs(remaining);
    if computed != fcs {
      return Rejected(InvalidFcs);
    }

    var p0 :- ParseFrameControl(remaining);
    var c := p0.0;
    remaining := p0.1;

    var sequenceNumber: Option<byte> := None;
    if !c.sequenceNumberSuppression {
      sequenceNumber := Some(remaining[0]);
      remaining := remaining[1..];
    }

    var destPanId: Option<PanId>, destAddress: Option<Address> := None, None;
    match c.destAddrMode {
      case Short =>
        var pan :- ParsePanId(remaining);
        remaining := pan.1;
        var nwk :- ParseNwk(remaining);
        remaining := nwk.1;
        destPanId, destAddress := Some(pan.0), Some(ShortAddress(nwk.0));
      case Long =>
        var pan :- ParsePanId(remaining);
        remaining := pan.1;
        var eui64 :- ParseEui64(remaining);
        remaining := eui64.1;
        destPanId, destAddress := Some(pan.0), Some(LongAddress(eui64.0));
      case NoAddress =>
    }

    var srcPanId: Option<PanId> := None;
    if c.panIdCompression {
      srcPanId := destPanId;
    } else if c.frameType == Data {
      var pan :- ParsePanId(remaining);
      remaining := pan.1;
      srcPanId := Some(pan.0);
    }

    var srcAddress: Option<Address> := None;
    match c.srcAddrMode {
      case Short =>
        var nwk :- ParseNwk(remaining);
        remaining := nwk.1;
        srcAddress := Some(ShortAddress(nwk.0));
      case Long =>
        var eui64 :- ParseEui64(remaining);
        remaining := eui64.1;
        srcAddress := Some(LongAddress(eui64.0));
      case NoAddress =>
    }

    return Parsed(Frame(c, sequenceNumber, destPanId, destAddress, srcPanId, srcAddress, remaining, fcs), []);
  }

  method WriteFrame(f: Frame) returns (data: seq<byte>)
    ensures data == ToBytes(f)
  {
    hide PrintFrameControl, PrintPanId, PrintNwk, PrintEui64, Le16, Fcs.Fcs;
    data := PrintFrameControl(f.frameControl);
    ghost var c := data;
    if f.sequenceNumber.Some? {
      data := data + [f.sequenceNumber.value];
    }
    ghost var s := PrintSequenceNumber(f.sequenceNumber);
    assert data == c + s;
    if f.destPanId.Some? {
      data := data + PrintPanId(f.destPanId.value);
    }
    ghost var dp := PrintPan(f.destPanId);
    assert data == c + s + dp;
    if f.destAddress.Some? {
      data := data + PrintAddress(f.destAddress);
    }
    ghost var d := PrintAddress(f.destAddress);
    assert data == c + s + dp + d;
    if !f.frameControl.panIdCompression {
      if f.srcPanId.Some? {
        data := data + PrintPanId(f.srcPanId.value);
      }
    }
    ghost var sp := PrintPan(WrittenSourcePan(f));
    assert data == c + s + dp + d + sp;
    if f.srcAddress.Some? {
      data := data + PrintAddress(f.srcAddress);
    }
    ghost var a := PrintAddress(f.srcAddress);
    assert data == c + s + dp + d + sp + a;
    data := data + f.payload;
    SevenParts(c, s, dp, d, sp, a, f.payload);
    var fcs := Fcs.ComputeFcs(data);
    data := data + Le16(fcs);
  }

  lemma SevenParts(a: seq<byte>, b: seq<byte>, c: seq<byte>, d: seq<byte>, e: seq<byte>, f: seq<byte>, g: seq<byte>)
    ensures a + b + c + d + e + f + g == a + (b + (c + (d + (e + (f + g)))))
  {
    Associate3(e, f, g);
    Associate3(d, e, f + g);
    Associate3(c, d, e + (f + g));
    Associate3(b, c, d + (e + (f + g)));
    Associate3(a, b, c + (d + (e + (f + g))));
    Associate3(a + b, c, d + (e + (f + g)));
    Associate3(a + b + c, d, e + (f + g));
    Associate3(a + b + c + d, e, f + g);
    Associate3(a + b + c + d + e, f, g);
  }

  // What the codec promises

  /**
   The reader accepts a byte string as a frame exactly when it is the writing of that frame, the frame's optional
   fields are those its control announces, and its check sequence field is the one computed.
   */
  lemma CodecExact(data: seq<byte>, f: Frame)
    ensures FromBytes(data) == Parsed(f, []) <==>
            WellFormed(f) && f.fcs == Fcs.Fcs(PrintBody(f)) && data == ToBytes(f)
  {
    hide ParseFrame, WellFormed, PrintBody, Le16, FromLe16, Fcs.Fcs;
    if FromBytes(data).Parsed? {
      var body, lo, hi := data[..|data| - 2], data[|data| - 2], data[|data| - 1];
      BodyPrintParse(body, FromLe16(lo, hi));
      FromLe16RoundTrip(lo, hi);
      assert data == body + [lo, hi];
    }
    if WellFormed(f) && f.fcs == Fcs.Fcs(PrintBody(f)) && data == ToBytes(f) {
      Le16RoundTrip(f.fcs);
      BodyIsLongEnough(f);
      assert data[..|data| - 2] == PrintBody(f);
      BodyParsePrint(f);
    }
  }

  lemma BodyIsLongEnough(f: Frame)
    ensures |PrintBody(f)| >= 2
  {
    hide PrintSequenceNumber, PrintPan, PrintAddress;
  }

  /** Reading is injective: two accepted byte strings never give the same frame. */
  lemma ReadingIsInjective(x: seq<byte>, y: seq<byte>)
    requires FromBytes(x).Parsed? && FromBytes(x) == FromBytes(y)
    ensures x == y
  {
    hide FromBytes;
    ReadsLeaveNothing(x);
    CodecExact(x, FromBytes(x).value);
    CodecExact(y, FromBytes(x).value);
  }

  lemma ReadsLeaveNothing(x: seq<byte>)
    requires FromBytes(x).Parsed?
    ensures FromBytes(x).rest == []
  {
    hide ParseFrameControl, ParseSequenceNumber, ParsePan, ParseAddress, Fcs.Fcs;
  }

  /** Reading without a check sequence never fails on the check, and agrees with reading the bytes as a frame body. */
  lemma WithoutFcs(data: seq<byte>)
    ensures FromBytesWithoutFcs(data) == if |data| < 2 then Rejected(NotEnoughData) else ParseFrame(data, Fcs.Fcs(data))
  {
    Le16RoundTrip(Fcs.Fcs(data));
    hide ParseFrame, Le16, FromLe16, Fcs.Fcs;
    var whole := data + Le16(Fcs.Fcs(data));
    assert whole[..|whole| - 2] == data;
  }

  /** Where the reader's unchecked index fails: a bare frame control that announces a sequence number. */
  lemma OutOfBoundsExactly(data: seq<byte>)
    ensures FromBytes(data) == OutOfBounds <==>
            && |data| == 4 && Fcs.FcsMatches(data) && ParseFrameControl(data[..2]).Parsed?
            && !ParseFrameControl(data[..2]).value.sequenceNumberSuppression
  {
    hide Fcs.FcsMatches, ParseFrame, ParseFrameControl, FromLe16;
    if |data| >= 4 {
      var body := data[..|data| - 2];
      FrameOutOfBoundsExactly(body, FromLe16(data[|data| - 2], data[|data| - 1]));
      if |data| == 4 {
        assert body == data[..2];
      }
    }
  }

  lemma FrameOutOfBoundsExactly(b: seq<byte>, fcs: bv16)
    requires |b| >= 2
    ensures ParseFrame(b, fcs) == OutOfBounds <==>
            |b| == 2 && ParseFrameControl(b).Parsed? && !ParseFrameControl(b).value.sequenceNumberSuppression
  {
    ControlTakesTwo(b);
    if ParseFrameControl(b).Parsed? {
      var (c, b1) := ParseFrameControl(b).Extract();
      SequenceOutOfBounds(c, b1);
      hide ParseFrameControl, ParseSequenceNumber, ParseAddressing;
      if ParseSequenceNumber(c, b1).Parsed? {
        AddressingInBounds(c, ParseSequenceNumber(c, b1).value, ParseSequenceNumber(c, b1).rest, fcs);
      }
    }
  }

  lemma AddressingInBounds(c: FrameControl, sequenceNumber: Option<byte>, b2: seq<byte>, fcs: bv16)
    ensures ParseAddressing(c, sequenceNumber, b2, fcs) != OutOfBounds
  {
    hide ParsePan, ParseAddress, CarriesSourcePan;
    var dest := ParsePan(c.destAddrMode != NoAddress, b2);
    FieldsInBounds(c.destAddrMode != NoAddress, c.destAddrMode, b2);
    if dest.Parsed? {
      FieldsInBounds(true, c.destAddrMode, dest.rest);
      var address := ParseAddress(c.destAddrMode, dest.rest);
      if address.Parsed? {
        FieldsInBounds(CarriesSourcePan(c), c.srcAddrMode, address.rest);
        var src := ParsePan(CarriesSourcePan(c), address.rest);
        if src.Parsed? {
          FieldsInBounds(true, c.srcAddrMode, src.rest);
        }
      }
    }
  }

  lemma SequenceOutOfBounds(c: FrameControl, b: seq<byte>)
    ensures ParseSequenceNumber(c, b) == OutOfBounds <==> b == [] && !c.sequenceNumberSuppression
    ensures !ParseSequenceNumber(c, b).Rejected?
  {
  }

  lemma FieldsInBounds(present: bool, mode: AddressingMode, s: seq<byte>)
    ensures ParsePan(present, s) != OutOfBounds && ParseAddress(mode, s) != OutOfBounds
  {
    hide FromLe16;
  }

  lemma ControlTakesTwo(b: seq<byte>)
    requires |b| >= 2
    ensures ParseFrameControl(b) != OutOfBounds
    ensures ParseFrameControl(b).Parsed? ==> ParseFrameControl(b).rest == b[2..]
  {
    hide TypeOf, ModeOf, Bit, TypeField, DestField, VersionField, SrcField;
  }

  /** Damage to an accepted frame confined to sixteen consecutive bits is reported as a bad check sequence. */
  lemma DamageIsRejected(x: seq<byte>, y: seq<byte>, start: nat)
    requires FromBytes(x).Parsed? && |x| == |y| && x != y
    requires Fcs.DifferOnlyWithin(Fcs.Bits(x), Fcs.Bits(y), start, 16)
    ensures FromBytes(y) == Rejected(InvalidFcs)
  {
    Fcs.BurstsAreDetected(x, y, start);
  }
}
