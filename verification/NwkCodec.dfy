/** The Zigbee network-layer frame: header with optional fields and relay list, auxiliary security header, payload. */
module NwkCodec {
  import opened Bytes
  import opened Addresses

  datatype FrameType = Data | Command | Interpan

  datatype RouteDiscovery = Suppress | Enable | WithMulticast

  datatype FrameControl = FrameControl(
    frameType: FrameType,
    protocolVersion: byte,
    discoverRoute: RouteDiscovery,
    multicast: bool,
    security: bool,
    sourceRoute: bool,
    destination: bool,
    extendedSource: bool,
    endDeviceInitiator: bool,
    reserved: byte)

  datatype SourceRoute = SourceRoute(relayCount: byte, relayIndex: byte, relays: seq<Nwk>)

  datatype Header = Header(
    frameControl: FrameControl,
    destination: Nwk,
    source: Nwk,
    radius: byte,
    sequenceNumber: byte,
    destinationIeee: Option<Eui64>,
    sourceIeee: Option<Eui64>,
    multicastControl: Option<byte>,
    sourceRoute: Option<SourceRoute>)

  datatype KeyId = DataKey | NetworkKey | KeyTransportKey | KeyLoadKey

  datatype SecurityLevel = NoSecurity | Mic32 | Mic64 | Mic128 | Enc | EncMic32 | EncMic64 | EncMic128

  datatype SecurityControl = SecurityControl(
    securityLevel: SecurityLevel,
    keyId: KeyId,
    extendedSource: bool,
    requireVerifiedFrameCounter: bool,
    reserved: byte)

  datatype AuxHeader = AuxHeader(
    securityControl: SecurityControl,
    frameCounter: bv32,
    extendedSource: Option<Eui64>,
    keySequenceNumber: byte)

  datatype Frame = Frame(header: Header, auxHeader: Option<AuxHeader>, payload: seq<byte>, encrypted: bool)

  // Frame control

  function FrameTypeCode(t: FrameType): byte {
    match t
    case Data => 0
    case Command => 1
    case Interpan => 3
  }

  function FrameTypeOf(code: byte): Option<FrameType> {
    if code == 0 then Some(Data)
    else if code == 1 then Some(Command)
    else if code == 3 then Some(Interpan)
    else None
  }

  function DiscoveryCode(d: RouteDiscovery): byte {
    match d
    case Suppress => 0
    case Enable => 1
    case WithMulticast => 2
  }

  function DiscoveryOf(code: byte): Option<RouteDiscovery> {
    if code == 0 then Some(Suppress)
    else if code == 1 then Some(Enable)
    else if code == 2 then Some(WithMulticast)
    else None
  }

  function PackLow(t: byte, version: byte, discovery: byte): byte {
    ((t & 0x03) << 0) | ((version & 0x0F) << 2) | ((discovery & 0x03) << 6)
  }

  function PackHigh(m: bool, s: bool, r: bool, d: bool, e: bool, i: bool, reserved: byte): byte {
    (Flag(m) << 0) | (Flag(s) << 1) | (Flag(r) << 2) | (Flag(d) << 3)
    | (Flag(e) << 4) | (Flag(i) << 5) | ((reserved & 0x03) << 6)
  }

  function TypeField(b: byte): byte {
    (b >> 0) & 0x03
  }

  function VersionField(b: byte): byte {
    (b >> 2) & 0x0F
  }

  function DiscoveryField(b: byte): byte {
    (b >> 6) & 0x03
  }

  predicate Bit(b: byte, k: bv8)
    requires k < 8
  {
    (b >> k) & 1 == 1
  }

  function PrintFrameControl(c: FrameControl): seq<byte> {
    [PackLow(FrameTypeCode(c.frameType), c.protocolVersion, DiscoveryCode(c.discoverRoute)),
     PackHigh(c.multicast, c.security, c.sourceRoute, c.destination, c.extendedSource, c.endDeviceInitiator,
              c.reserved)]
  }

  function ParseFrameControl(b: seq<byte>): Parsed<FrameControl> {
    if |b| < 2 then Rejected(NotEnoughData)
    else match (FrameTypeOf(TypeField(b[0])), DiscoveryOf(DiscoveryField(b[0])))
      case (Some(frameType), Some(discovery)) =>
        Parsed(FrameControl(frameType, VersionField(b[0]), discovery, Bit(b[1], 0), Bit(b[1], 1), Bit(b[1], 2),
                            Bit(b[1], 3), Bit(b[1], 4), Bit(b[1], 5), DiscoveryField(b[1])),
               b[2..])
      case _ => Rejected(InvalidField)
  }

  predicate FrameControlInRange(c: FrameControl) {
    c.protocolVersion < 16 && c.reserved < 4
  }

  lemma CodesRoundTrip()
    ensures forall t :: FrameTypeOf(FrameTypeCode(t)) == Some(t) && FrameTypeCode(t) < 4
    ensures forall d :: DiscoveryOf(DiscoveryCode(d)) == Some(d) && DiscoveryCode(d) < 4
    ensures forall b :: FrameTypeOf(b).Some? ==> FrameTypeCode(FrameTypeOf(b).value) == b
    ensures forall b :: DiscoveryOf(b).Some? ==> DiscoveryCode(DiscoveryOf(b).value) == b
  {
  }

  lemma UnpackLow(t: byte, v: byte, d: byte)
    requires t < 4 && v < 16 && d < 4
    ensures var b := PackLow(t, v, d); TypeField(b) == t && VersionField(b) == v && DiscoveryField(b) == d
  {
  }

  lemma UnpackHigh(m: bool, s: bool, r: bool, d: bool, e: bool, i: bool, x: byte)
    requires x < 4
    ensures var b := PackHigh(m, s, r, d, e, i, x);
            && Bit(b, 0) == m && Bit(b, 1) == s && Bit(b, 2) == r && Bit(b, 3) == d && Bit(b, 4) == e && Bit(b, 5) == i
            && DiscoveryField(b) == x
  {
  }

  lemma RepackLow(b: byte)
    ensures VersionField(b) < 16 && PackLow(TypeField(b), VersionField(b), DiscoveryField(b)) == b
  {
  }

  lemma RepackHigh(b: byte)
    ensures DiscoveryField(b) < 4
    ensures PackHigh(Bit(b, 0), Bit(b, 1), Bit(b, 2), Bit(b, 3), Bit(b, 4), Bit(b, 5), DiscoveryField(b)) == b
  {
  }

  lemma FrameControlPrintParse(b: seq<byte>)
    requires ParseFrameControl(b).Parsed?
    ensures FrameControlInRange(ParseFrameControl(b).value)
    ensures b == PrintFrameControl(ParseFrameControl(b).value) + ParseFrameControl(b).rest
  {
    CodesRoundTrip();
    RepackLow(b[0]);
    RepackHigh(b[1]);
    hide PackLow, PackHigh, Bit, TypeField, VersionField, DiscoveryField, FrameTypeOf, DiscoveryOf, FrameTypeCode,
         DiscoveryCode;
    assert b == [b[0], b[1]] + b[2..];
  }

  lemma FrameControlParsePrint(c: FrameControl, rest: seq<byte>)
    requires FrameControlInRange(c)
    ensures ParseFrameControl(PrintFrameControl(c) + rest) == Parsed(c, rest)
  {
    CodesRoundTrip();
    UnpackLow(FrameTypeCode(c.frameType), c.protocolVersion, DiscoveryCode(c.discoverRoute));
    UnpackHigh(c.multicast, c.security, c.sourceRoute, c.destination, c.extendedSource, c.endDeviceInitiator,
               c.reserved);
    hide PackLow, PackHigh, Bit, TypeField, VersionField, DiscoveryField, FrameTypeOf, DiscoveryOf, FrameTypeCode,
         DiscoveryCode;
    assert (PrintFrameControl(c) + rest)[2..] == rest;
  }

  lemma FrameControlExact(b: seq<byte>, c: FrameControl, rest: seq<byte>)
    ensures ParseFrameControl(b) == Parsed(c, rest) <==> FrameControlInRange(c) && b == PrintFrameControl(c) + rest
  {
    hide ParseFrameControl, PrintFrameControl, FrameControlInRange;
    if ParseFrameControl(b).Parsed? {
      FrameControlPrintParse(b);
    }
    if FrameControlInRange(c) {
      FrameControlParsePrint(c, rest);
    }
  }

  /** A control is refused exactly when it is short, or names a frame type or route discovery there is none of. */
  lemma FrameControlRefused(b: seq<byte>)
    ensures ParseFrameControl(b) == Rejected(NotEnoughData) <==> |b| < 2
    ensures ParseFrameControl(b) == Rejected(InvalidField) <==> |b| >= 2 && (b[0] & 0x03 == 2 || b[0] & 0xC0 == 0xC0)
  {
    if |b| >= 2 {
      UnknownCodes(b[0]);
      hide TypeField, VersionField, DiscoveryField, Bit, FrameTypeOf, DiscoveryOf;
    }
  }

  lemma UnknownCodes(b: byte)
    ensures FrameTypeOf(TypeField(b)) == None <==> b & 0x03 == 2
    ensures DiscoveryOf(DiscoveryField(b)) == None <==> b & 0xC0 == 0xC0
  {
  }

  // Source route

  function ParseRelays(count: nat, b: seq<byte>): Parsed<seq<Nwk>>
    decreases count
  {
    if count == 0 then Parsed([], b)
    else
      var (nwk, b1) :- ParseNwk(b);
      var (more, rest) :- ParseRelays(count - 1, b1);
      Parsed([nwk] + more, rest)
  }

  function PrintRelays(relays: seq<Nwk>): seq<byte> {
    if relays == [] then [] else PrintNwk(relays[0]) + PrintRelays(relays[1..])
  }

  function ParseSourceRoute(b: seq<byte>): Parsed<SourceRoute> {
    if |b| < 2 then Rejected(NotEnoughData)
    else
      var (relays, rest) :- ParseRelays(Nat8(b[0]), b[2..]);
      Parsed(SourceRoute(b[0], b[1], relays), rest)
  }

  function PrintSourceRoute(r: SourceRoute): seq<byte> {
    [r.relayCount, r.relayIndex] + PrintRelays(r.relays)
  }

  /** What the writer itself insists on: the count byte equals the list length truncated to eight bits. */
  predicate Printable(r: SourceRoute) {
    r.relayCount == U8(|r.relays|)
  }

  predicate CountMatches(r: SourceRoute) {
    |r.relays| == Nat8(r.relayCount)
  }

  lemma {:induction false} RelaysExact(count: nat, b: seq<byte>, relays: seq<Nwk>, rest: seq<byte>)
    ensures ParseRelays(count, b) == Parsed(relays, rest) <==> |relays| == count && b == PrintRelays(relays) + rest
    decreases count
  {
    hide ParseNwk, PrintNwk;
    if count == 0 {
      assert [] + rest == rest;
    } else if relays != [] {
      var tail := PrintRelays(relays[1..]) + rest;
      assert PrintRelays(relays) + rest == PrintNwk(relays[0]) + tail;
      NwkExact(b, relays[0], tail);
      RelaysExact(count - 1, tail, relays[1..], rest);
      if ParseNwk(b).Parsed? {
        var b1 := ParseNwk(b).rest;
        RelaysExact(count - 1, b1, relays[1..], rest);
        assert relays == [relays[0]] + relays[1..];
        if ParseRelays(count, b) == Parsed(relays, rest) {
          var more := ParseRelays(count - 1, b1).value;
          assert ([ParseNwk(b).value] + more)[1..] == more;
        }
      }
    }
  }

  lemma SourceRouteExact(b: seq<byte>, r: SourceRoute, rest: seq<byte>)
    ensures ParseSourceRoute(b) == Parsed(r, rest) <==> CountMatches(r) && b == PrintSourceRoute(r) + rest
  {
    hide ParseRelays, PrintRelays, Nat8;
    var tail := PrintRelays(r.relays) + rest;
    Associate3([r.relayCount, r.relayIndex], PrintRelays(r.relays), rest);
    PairExact(b, r.relayCount, r.relayIndex, tail);
    if |b| >= 2 {
      RelaysExact(Nat8(b[0]), b[2..], r.relays, rest);
    }
  }

  /** The eight-bit check lets lists of 256 relays and more through; reading back works exactly up to 255. */
  lemma PrintableRouteRoundTrip(r: SourceRoute, rest: seq<byte>)
    requires Printable(r)
    ensures ParseSourceRoute(PrintSourceRoute(r) + rest) == Parsed(r, rest) <==> |r.relays| < 256
  {
    hide Nat8, U8, ParseSourceRoute, PrintSourceRoute;
    SourceRouteExact(PrintSourceRoute(r) + rest, r, rest);
    U8Value(|r.relays|);
  }

  // Optional header fields

  function ParseOptionalEui64(present: bool, b: seq<byte>): Parsed<Option<Eui64>> {
    if present then var (ieee, rest) :- ParseEui64(b); Parsed(Some(ieee), rest) else Parsed(None, b)
  }

  function PrintOptionalEui64(a: Option<Eui64>): seq<byte> {
    match a
    case None => []
    case Some(ieee) => PrintEui64(ieee)
  }

  function ParseMulticast(present: bool, b: seq<byte>): Parsed<Option<byte>> {
    if !present then Parsed(None, b)
    else if b == [] then OutOfBounds  // indexed without a length check
    else Parsed(Some(b[0]), b[1..])
  }

  function PrintMulticast(m: Option<byte>): seq<byte> {
    match m
    case None => []
    case Some(control) => [control]
  }

  function ParseOptionalRoute(present: bool, b: seq<byte>): Parsed<Option<SourceRoute>> {
    if present then var (route, rest) :- ParseSourceRoute(b); Parsed(Some(route), rest) else Parsed(None, b)
  }

  function PrintOptionalRoute(r: Option<SourceRoute>): seq<byte> {
    match r
    case None => []
    case Some(route) => PrintSourceRoute(route)
  }

  lemma OptionalEui64Exact(present: bool, b: seq<byte>, a: Option<Eui64>, rest: seq<byte>)
    ensures ParseOptionalEui64(present, b) == Parsed(a, rest) <==>
            (a.Some? <==> present) && b == PrintOptionalEui64(a) + rest
  {
    hide ParseEui64, PrintEui64;
    assert [] + rest == rest;
    if a.Some? {
      Eui64Exact(b, a.value, rest);
    }
  }

  lemma MulticastExact(present: bool, b: seq<byte>, m: Option<byte>, rest: seq<byte>)
    ensures ParseMulticast(present, b) == Parsed(m, rest) <==> (m.Some? <==> present) && b == PrintMulticast(m) + rest
  {
    assert [] + rest == rest;
    if b != [] {
      assert b == [b[0]] + b[1..];
    }
    if m.Some? && b == [m.value] + rest {
      assert b[1..] == rest;
    }
  }

  lemma OptionalRouteExact(present: bool, b: seq<byte>, r: Option<SourceRoute>, rest: seq<byte>)
    ensures ParseOptionalRoute(present, b) == Parsed(r, rest) <==>
            (r.Some? <==> present) && (r.Some? ==> CountMatches(r.value)) && b == PrintOptionalRoute(r) + rest
  {
    hide ParseSourceRoute, PrintSourceRoute, CountMatches;
    assert [] + rest == rest;
    if r.Some? {
      SourceRouteExact(b, r.value, rest);
    }
  }

  // Header: the eight fixed bytes, then the optional fields

  datatype Fixed = Fixed(frameControl: FrameControl, destination: Nwk, source: Nwk, radius: byte, sequenceNumber: byte)

  datatype Options = Options(
    destinationIeee: Option<Eui64>,
    sourceIeee: Option<Eui64>,
    multicastControl: Option<byte>,
    sourceRoute: Option<SourceRoute>)

  function FixedOf(h: Header): Fixed {
    Fixed(h.frameControl, h.destination, h.source, h.radius, h.sequenceNumber)
  }

  function OptionsOf(h: Header): Options {
    Options(h.destinationIeee, h.sourceIeee, h.multicastControl, h.sourceRoute)
  }

  function HeaderOf(f: Fixed, o: Options): Header {
    Header(f.frameControl, f.destination, f.source, f.radius, f.sequenceNumber,
           o.destinationIeee, o.sourceIeee, o.multicastControl, o.sourceRoute)
  }

  /** One length check covers all eight fixed bytes. */
  function ParseFixed(b: seq<byte>): Parsed<Fixed> {
    if |b| < 8 then Rejected(NotEnoughData)
    else
      var (c, b1) :- ParseFrameControl(b);
      var (destination, b2) :- ParseNwk(b1);
      var (source, b3) :- ParseNwk(b2);
      if |b3| < 2 then OutOfBounds  // never: the check above leaves two bytes
      else Parsed(Fixed(c, destination, source, b3[0], b3[1]), b3[2..])
  }

  function PrintFixed(f: Fixed): seq<byte> {
    PrintFrameControl(f.frameControl) + (PrintNwk(f.destination) + (PrintNwk(f.source) + [f.radius, f.sequenceNumber]))
  }

  lemma PairExact(b: seq<byte>, x: byte, y: byte, rest: seq<byte>)
    ensures |b| >= 2 && b[0] == x && b[1] == y && b[2..] == rest <==> b == [x, y] + rest
  {
    if |b| >= 2 {
      assert b == [b[0], b[1]] + b[2..];
    }
    if b == [x, y] + rest {
      assert b[2..] == rest;
    }
  }

  lemma FourParts(a: seq<byte>, b: seq<byte>, c: seq<byte>, d: seq<byte>, rest: seq<byte>)
    ensures a + (b + (c + d)) + rest == a + (b + (c + (d + rest)))
  {
    Associate3(c, d, rest);
    Associate3(b, c + d, rest);
    Associate3(a, b + (c + d), rest);
  }

  lemma FixedPrintParse(b: seq<byte>)
    requires ParseFixed(b).Parsed?
    ensures FrameControlInRange(ParseFixed(b).value.frameControl)
    ensures b == PrintFixed(ParseFixed(b).value) + ParseFixed(b).rest
  {
    var (c, b1) := ParseFrameControl(b).Extract();
    var (destination, b2) := ParseNwk(b1).Extract();
    var (source, b3) := ParseNwk(b2).Extract();
    hide ParseFrameControl, ParseNwk, FrameControlInRange, PrintFrameControl, PrintNwk;
    FrameControlExact(b, c, b1);
    NwkExact(b1, destination, b2);
    NwkExact(b2, source, b3);
    PairExact(b3, b3[0], b3[1], b3[2..]);
    FourParts(PrintFrameControl(c), PrintNwk(destination), PrintNwk(source), [b3[0], b3[1]], b3[2..]);
  }

  lemma FixedParsePrint(f: Fixed, rest: seq<byte>)
    requires FrameControlInRange(f.frameControl)
    ensures ParseFixed(PrintFixed(f) + rest) == Parsed(f, rest)
  {
    PrintFixedLength(f);
    hide ParseFrameControl, ParseNwk, FrameControlInRange, PrintFrameControl, PrintNwk;
    var b3 := [f.radius, f.sequenceNumber] + rest;
    var b2 := PrintNwk(f.source) + b3;
    var b1 := PrintNwk(f.destination) + b2;
    FourParts(PrintFrameControl(f.frameControl), PrintNwk(f.destination), PrintNwk(f.source),
              [f.radius, f.sequenceNumber], rest);
    FrameControlExact(PrintFixed(f) + rest, f.frameControl, b1);
    NwkExact(b1, f.destination, b2);
    NwkExact(b2, f.source, b3);
    PairExact(b3, f.radius, f.sequenceNumber, rest);
  }

  lemma PrintFixedLength(f: Fixed)
    ensures |PrintFixed(f)| == 8
  {
  }

  lemma FixedExact(b: seq<byte>, f: Fixed, rest: seq<byte>)
    ensures ParseFixed(b) == Parsed(f, rest) <==> FrameControlInRange(f.frameControl) && b == PrintFixed(f) + rest
  {
    hide ParseFixed, PrintFixed, FrameControlInRange;
    if ParseFixed(b).Parsed? {
      FixedPrintParse(b);
    }
    if FrameControlInRange(f.frameControl) {
      FixedParsePrint(f, rest);
    }
  }

  function ParseOptions(c: FrameControl, b: seq<byte>): Parsed<Options> {
    var (destinationIeee, b1) :- ParseOptionalEui64(c.destination, b);
    var (sourceIeee, b2) :- ParseOptionalEui64(c.extendedSource, b1);
    var (multicast, b3) :- ParseMulticast(c.multicast, b2);
    var (route, rest) :- ParseOptionalRoute(c.sourceRoute, b3);
    Parsed(Options(destinationIeee, sourceIeee, multicast, route), rest)
  }

  function PrintOptions(o: Options): seq<byte> {
    PrintOptionalEui64(o.destinationIeee)
    + (PrintOptionalEui64(o.sourceIeee)
       + (PrintMulticast(o.multicastControl)
          + PrintOptionalRoute(o.sourceRoute)))
  }

  /** Optional fields are present exactly when announced, and the relay count is the list length. */
  predicate OptionsAnnounced(c: FrameControl, o: Options) {
    && (o.destinationIeee.Some? <==> c.destination)
    && (o.sourceIeee.Some? <==> c.extendedSource)
    && (o.multicastControl.Some? <==> c.multicast)
    && (o.sourceRoute.Some? <==> c.sourceRoute)
    && (o.sourceRoute.Some? ==> CountMatches(o.sourceRoute.value))
  }

  lemma OptionsExact(c: FrameControl, b: seq<byte>, o: Options, rest: seq<byte>)
    ensures ParseOptions(c, b) == Parsed(o, rest) <==> OptionsAnnounced(c, o) && b == PrintOptions(o) + rest
  {
    hide ParseOptionalEui64, ParseMulticast, ParseOptionalRoute;
    hide PrintOptionalEui64, PrintMulticast, PrintOptionalRoute, CountMatches;
    FourParts(PrintOptionalEui64(o.destinationIeee), PrintOptionalEui64(o.sourceIeee),
              PrintMulticast(o.multicastControl),
              PrintOptionalRoute(o.sourceRoute), rest);
    var b3 := PrintOptionalRoute(o.sourceRoute) + rest;
    var b2 := PrintMulticast(o.multicastControl) + b3;
    var b1 := PrintOptionalEui64(o.sourceIeee) + b2;
    OptionalEui64Exact(c.destination, b, o.destinationIeee, b1);
    OptionalEui64Exact(c.extendedSource, b1, o.sourceIeee, b2);
    MulticastExact(c.multicast, b2, o.multicastControl, b3);
    OptionalRouteExact(c.sourceRoute, b3, o.sourceRoute, rest);
    if ParseOptions(c, b).Parsed? {
      OptionsPrintParse(c, b);
    }
  }

  lemma OptionsPrintParse(c: FrameControl, b: seq<byte>)
    requires ParseOptions(c, b).Parsed?
    ensures OptionsAnnounced(c, ParseOptions(c, b).value)
    ensures b == PrintOptions(ParseOptions(c, b).value) + ParseOptions(c, b).rest
  {
    hide ParseOptionalEui64, ParseMulticast, ParseOptionalRoute;
    hide PrintOptionalEui64, PrintMulticast, PrintOptionalRoute, CountMatches;
    var (destinationIeee, b1) := ParseOptionalEui64(c.destination, b).Extract();
    var (sourceIeee, b2) := ParseOptionalEui64(c.extendedSource, b1).Extract();
    var (multicast, b3) := ParseMulticast(c.multicast, b2).Extract();
    var (route, rest) := ParseOptionalRoute(c.sourceRoute, b3).Extract();
    OptionalEui64Exact(c.destination, b, destinationIeee, b1);
    OptionalEui64Exact(c.extendedSource, b1, sourceIeee, b2);
    MulticastExact(c.multicast, b2, multicast, b3);
    OptionalRouteExact(c.sourceRoute, b3, route, rest);
    FourParts(PrintOptionalEui64(destinationIeee), PrintOptionalEui64(sourceIeee), PrintMulticast(multicast),
              PrintOptionalRoute(route), rest);
  }

  function ParseHeader(b: seq<byte>): Parsed<Header> {
    var (fixedPart, b1) :- ParseFixed(b);
    var (options, rest) :- ParseOptions(fixedPart.frameControl, b1);
    Parsed(HeaderOf(fixedPart, options), rest)
  }

  function PrintHeader(h: Header): seq<byte> {
    PrintFixed(FixedOf(h)) + PrintOptions(OptionsOf(h))
  }

  predicate HeaderWellFormed(h: Header) {
    FrameControlInRange(h.frameControl) && OptionsAnnounced(h.frameControl, OptionsOf(h))
  }

  /** Header codec, both directions at once. */
  lemma HeaderExact(b: seq<byte>, h: Header, rest: seq<byte>)
    ensures ParseHeader(b) == Parsed(h, rest) <==> HeaderWellFormed(h) && b == PrintHeader(h) + rest
  {
    hide ParseFixed, PrintFixed, ParseOptions, PrintOptions, FrameControlInRange, OptionsAnnounced;
    var b1 := PrintOptions(OptionsOf(h)) + rest;
    Associate3(PrintFixed(FixedOf(h)), PrintOptions(OptionsOf(h)), rest);
    FixedExact(b, FixedOf(h), b1);
    OptionsExact(h.frameControl, b1, OptionsOf(h), rest);
    if ParseHeader(b).Parsed? {
      HeaderPrintParse(b);
    }
  }

  lemma HeaderPrintParse(b: seq<byte>)
    requires ParseHeader(b).Parsed?
    ensures HeaderWellFormed(ParseHeader(b).value) && b == PrintHeader(ParseHeader(b).value) + ParseHeader(b).rest
  {
    var (f, b1) := ParseFixed(b).Extract();
    var (o, rest) := ParseOptions(f.frameControl, b1).Extract();
    hide ParseFixed, PrintFixed, ParseOptions, PrintOptions, FrameControlInRange, OptionsAnnounced;
    FixedExact(b, f, b1);
    OptionsExact(f.frameControl, b1, o, rest);
    var h := HeaderOf(f, o);
    assert FixedOf(h) == f && OptionsOf(h) == o;
    Associate3(PrintFixed(f), PrintOptions(o), rest);
  }

  // Auxiliary security header

  function LevelCode(l: SecurityLevel): byte {
    match l
    case NoSecurity => 0
    case Mic32 => 1
    case Mic64 => 2
    case Mic128 => 3
    case Enc => 4
    case EncMic32 => 5
    case EncMic64 => 6
    case EncMic128 => 7
  }

  function LevelOf(code: byte): Option<SecurityLevel> {
    if code == 0 then Some(NoSecurity)
    else if code == 1 then Some(Mic32)
    else if code == 2 then Some(Mic64)
    else if code == 3 then Some(Mic128)
    else if code == 4 then Some(Enc)
    else if code == 5 then Some(EncMic32)
    else if code == 6 then Some(EncMic64)
    else if code == 7 then Some(EncMic128)
    else None
  }

  function KeyCode(k: KeyId): byte {
    match k
    case DataKey => 0
    case NetworkKey => 1
    case KeyTransportKey => 2
    case KeyLoadKey => 3
  }

  function KeyOf(code: byte): Option<KeyId> {
    if code == 0 then Some(DataKey)
    else if code == 1 then Some(NetworkKey)
    else if code == 2 then Some(KeyTransportKey)
    else if code == 3 then Some(KeyLoadKey)
    else None
  }

  function LevelField(b: byte): byte {
    (b >> 0) & 0x07
  }

  function KeyField(b: byte): byte {
    (b >> 3) & 0x03
  }

  function TopField(b: byte): byte {
    (b >> 7) & 0x01
  }

  function PackControl(level: byte, key: byte, extended: bool, verified: bool, reserved: byte): byte {
    (level & 0x07) | ((key & 0x03) << 3) | (Flag(extended) << 5) | (Flag(verified) << 6) | ((reserved & 0x01) << 7)
  }

  function ControlByte(c: SecurityControl): byte {
    PackControl(LevelCode(c.securityLevel), KeyCode(c.keyId), c.extendedSource, c.requireVerifiedFrameCounter,
                c.reserved)
  }

  function ParseControl(b: seq<byte>): Parsed<SecurityControl> {
    if |b| < 1 then Rejected(NotEnoughData)
    else match (LevelOf(LevelField(b[0])), KeyOf(KeyField(b[0])))
      case (Some(level), Some(key)) =>
        Parsed(SecurityControl(level, key, Bit(b[0], 5), Bit(b[0], 6), TopField(b[0])), b[1..])
      case _ => Rejected(InvalidField)
  }

  lemma LevelCodesRoundTrip()
    ensures forall l :: LevelOf(LevelCode(l)) == Some(l) && LevelCode(l) < 8
    ensures forall b :: LevelOf(b).Some? ==> LevelCode(LevelOf(b).value) == b
  {
  }

  lemma KeyCodesRoundTrip()
    ensures forall k :: KeyOf(KeyCode(k)) == Some(k) && KeyCode(k) < 4
    ensures forall b :: KeyOf(b).Some? ==> KeyCode(KeyOf(b).value) == b
  {
  }

  lemma UnpackControl(l: byte, k: byte, e: bool, v: bool, r: byte)
    requires l < 8 && k < 4 && r < 2
    ensures var b := PackControl(l, k, e, v, r);
            LevelField(b) == l && KeyField(b) == k && Bit(b, 5) == e && Bit(b, 6) == v && TopField(b) == r
  {
  }

  lemma RepackControl(b: byte)
    ensures TopField(b) < 2 && PackControl(LevelField(b), KeyField(b), Bit(b, 5), Bit(b, 6), TopField(b)) == b
  {
  }

  lemma ControlExact(b: seq<byte>, c: SecurityControl, rest: seq<byte>)
    ensures ParseControl(b) == Parsed(c, rest) <==> c.reserved < 2 && b == [ControlByte(c)] + rest
  {
    LevelCodesRoundTrip();
    KeyCodesRoundTrip();
    if ParseControl(b) == Parsed(c, rest) {
      RepackControl(b[0]);
      hide PackControl, LevelField, KeyField, TopField, Bit, LevelOf, KeyOf, LevelCode, KeyCode;
      assert b == [b[0]] + b[1..];
    }
    if c.reserved < 2 && b == [ControlByte(c)] + rest {
      UnpackControl(LevelCode(c.securityLevel), KeyCode(c.keyId), c.extendedSource, c.requireVerifiedFrameCounter,
                    c.reserved);
      hide PackControl, LevelField, KeyField, TopField, Bit, LevelOf, KeyOf, LevelCode, KeyCode;
      assert b[1..] == rest;
    }
  }

  function ParseCounter(b: seq<byte>): Parsed<bv32> {
    if |b| < 4 then OutOfBounds  // never: the length check of the auxiliary header covers it
    else Parsed(FromLe32(b[0], b[1], b[2], b[3]), b[4..])
  }

  lemma CounterExact(b: seq<byte>, x: bv32, rest: seq<byte>)
    ensures ParseCounter(b) == Parsed(x, rest) <==> b == Le32(x) + rest
  {
    Le32RoundTrip(x);
    if |b| >= 4 {
      FromLe32RoundTrip(b[0], b[1], b[2], b[3]);
      hide Le32, FromLe32;
      assert b == [b[0], b[1], b[2], b[3]] + b[4..];
      if b == Le32(x) + rest {
        assert b[0] == Le32(x)[0] && b[1] == Le32(x)[1] && b[2] == Le32(x)[2] && b[3] == Le32(x)[3] && b[4..] == rest;
      }
    }
  }

  function ParseKeySequence(b: seq<byte>): Parsed<byte> {
    if b == [] then OutOfBounds  // indexed without a length check
    else Parsed(b[0], b[1..])
  }

  lemma KeySequenceExact(b: seq<byte>, x: byte, rest: seq<byte>)
    ensures ParseKeySequence(b) == Parsed(x, rest) <==> b == [x] + rest
  {
    if b != [] {
      assert b == [b[0]] + b[1..];
    }
    if b == [x] + rest {
      assert b[1..] == rest;
    }
  }

  function ParseAux(b: seq<byte>): Parsed<AuxHeader> {
    if |b| < 6 then Rejected(NotEnoughData)
    else
      var (control, b1) :- ParseControl(b);
      var (counter, b2) :- ParseCounter(b1);
      var (source, b3) :- ParseOptionalEui64(control.extendedSource, b2);
      var (keySequence, rest) :- ParseKeySequence(b3);
      Parsed(AuxHeader(control, counter, source, keySequence), rest)
  }

  function PrintAux(a: AuxHeader): seq<byte> {
    [ControlByte(a.securityControl)] +
    (Le32(a.frameCounter) + (PrintOptionalEui64(a.extendedSource) + [a.keySequenceNumber]))
  }

  predicate AuxWellFormed(a: AuxHeader) {
    a.securityControl.reserved < 2 && (a.extendedSource.Some? <==> a.securityControl.extendedSource)
  }

  lemma AuxPrintParse(b: seq<byte>)
    requires ParseAux(b).Parsed?
    ensures AuxWellFormed(ParseAux(b).value) && b == PrintAux(ParseAux(b).value) + ParseAux(b).rest
  {
    var (control, b1) := ParseControl(b).Extract();
    var (counter, b2) := ParseCounter(b1).Extract();
    var (source, b3) := ParseOptionalEui64(control.extendedSource, b2).Extract();
    var (keySequence, rest) := ParseKeySequence(b3).Extract();
    hide ParseControl, ParseCounter, ParseOptionalEui64, ParseKeySequence, ControlByte, Le32, PrintOptionalEui64;
    ControlExact(b, control, b1);
    CounterExact(b1, counter, b2);
    OptionalEui64Exact(control.extendedSource, b2, source, b3);
    KeySequenceExact(b3, keySequence, rest);
    FourParts([ControlByte(control)], Le32(counter), PrintOptionalEui64(source), [keySequence], rest);
  }

  lemma AuxParsePrint(a: AuxHeader, rest: seq<byte>)
    requires AuxWellFormed(a)
    ensures ParseAux(PrintAux(a) + rest) == Parsed(a, rest)
  {
    hide ParseControl, ParseCounter, ParseOptionalEui64, ParseKeySequence, ControlByte, Le32, PrintOptionalEui64;
    var b3 := [a.keySequenceNumber] + rest;
    var b2 := PrintOptionalEui64(a.extendedSource) + b3;
    var b1 := Le32(a.frameCounter) + b2;
    FourParts([ControlByte(a.securityControl)], Le32(a.frameCounter), PrintOptionalEui64(a.extendedSource),
              [a.keySequenceNumber], rest);
    ControlExact(PrintAux(a) + rest, a.securityControl, b1);
    CounterExact(b1, a.frameCounter, b2);
    OptionalEui64Exact(a.securityControl.extendedSource, b2, a.extendedSource, b3);
    KeySequenceExact(b3, a.keySequenceNumber, rest);
  }

  lemma AuxExact(b: seq<byte>, a: AuxHeader, rest: seq<byte>)
    ensures ParseAux(b) == Parsed(a, rest) <==> AuxWellFormed(a) && b == PrintAux(a) + rest
  {
    hide ParseAux, PrintAux, AuxWellFormed;
    if ParseAux(b).Parsed? {
      AuxPrintParse(b);
    }
    if AuxWellFormed(a) {
      AuxParsePrint(a, rest);
    }
  }

  // The frame

  function ParseOptionalAux(present: bool, b: seq<byte>): Parsed<Option<AuxHeader>> {
    if present then var (aux, rest) :- ParseAux(b); Parsed(Some(aux), rest) else Parsed(None, b)
  }

  function PrintOptionalAux(a: Option<AuxHeader>): seq<byte> {
    match a
    case None => []
    case Some(aux) => PrintAux(aux)
  }

  function FromBytes(b: seq<byte>): Parsed<Frame> {
    var (header, b1) :- ParseHeader(b);
    var (aux, payload) :- ParseOptionalAux(header.frameControl.security, b1);
    Parsed(Frame(header, aux, payload, header.frameControl.security), [])
  }

  function ToBytes(f: Frame): seq<byte> {
    PrintHeader(f.header) + (PrintOptionalAux(f.auxHeader) + f.payload)
  }

  predicate WellFormed(f: Frame) {
    && HeaderWellFormed(f.header)
    && (f.auxHeader.Some? <==> f.header.frameControl.security)
    && (f.auxHeader.Some? ==> AuxWellFormed(f.auxHeader.value))
  }

  lemma OptionalAuxExact(present: bool, b: seq<byte>, a: Option<AuxHeader>, rest: seq<byte>)
    ensures ParseOptionalAux(present, b) == Parsed(a, rest) <==>
            (a.Some? <==> present) && (a.Some? ==> AuxWellFormed(a.value)) && b == PrintOptionalAux(a) + rest
  {
    hide ParseAux, PrintAux, AuxWellFormed;
    assert [] + rest == rest;
    if a.Some? {
      AuxExact(b, a.value, rest);
    }
  }

  /**
   The reader returns a frame exactly when the bytes are the writing of that frame, the frame is well formed, and it
   is marked encrypted as its security bit says (the mark itself is not on the wire).
   */
  lemma CodecExact(b: seq<byte>, f: Frame)
    ensures FromBytes(b) == Parsed(f, []) <==>
            WellFormed(f) && f.encrypted == f.header.frameControl.security && b == ToBytes(f)
  {
    hide ParseHeader, PrintHeader, HeaderWellFormed, ParseOptionalAux, PrintOptionalAux, AuxWellFormed;
    var b1 := PrintOptionalAux(f.auxHeader) + f.payload;
    HeaderExact(b, f.header, b1);
    OptionalAuxExact(f.header.frameControl.security, b1, f.auxHeader, f.payload);
    if FromBytes(b).Parsed? {
      var (h, rest) := ParseHeader(b).Extract();
      var (aux, payload) := ParseOptionalAux(h.frameControl.security, rest).Extract();
      HeaderExact(b, h, rest);
      OptionalAuxExact(h.frameControl.security, rest, aux, payload);
    }
  }

  lemma ReadsLeaveNothing(b: seq<byte>)
    requires FromBytes(b).Parsed?
    ensures FromBytes(b).rest == []
  {
    hide ParseHeader, ParseOptionalAux;
  }

  /** Printing any accepted parse gives the original bytes back; hence reading is injective. */
  lemma PrintParse(b: seq<byte>)
    requires FromBytes(b).Parsed?
    ensures WellFormed(FromBytes(b).value) && ToBytes(FromBytes(b).value) == b
  {
    ReadsLeaveNothing(b);
    hide FromBytes, ToBytes, WellFormed;
    CodecExact(b, FromBytes(b).value);
  }

  /** A well-formed header with up to 255 relays and its auxiliary header stay below 552 bytes. */
  lemma HeaderSize(h: Header, a: AuxHeader)
    requires HeaderWellFormed(h)
    ensures 14 <= |PrintHeader(h) + PrintAux(a)| <= 551
  {
    PrintFixedLength(FixedOf(h));
    hide PrintFixed, ControlByte, Le32, FrameControlInRange, Nat8;
    if h.sourceRoute.Some? {
      var r := h.sourceRoute.value;
      U8OfByte(r.relayCount);
      RelaysLength(r.relays);
    }
    assert |PrintAux(a)| == 6 + |PrintOptionalEui64(a.extendedSource)|;
  }

  /** Without a source route no length needs checking at all. */
  lemma HeaderSizeWithoutRoute(h: Header, a: AuxHeader)
    requires h.sourceRoute.None?
    ensures |PrintHeader(h) + PrintAux(a)| <= 39
  {
    PrintFixedLength(FixedOf(h));
    hide PrintFixed, ControlByte, Le32;
  }

  lemma {:induction false} RelaysLength(relays: seq<Nwk>)
    ensures |PrintRelays(relays)| == 2 * |relays|
    decreases |relays|
  {
    if relays != [] {
      RelaysLength(relays[1..]);
    }
  }
}
