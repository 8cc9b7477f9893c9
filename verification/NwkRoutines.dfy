/**
 The reading and writing routines of the network-layer frame, step by step, and where their unchecked indices fail.
 */
module NwkRoutines {
  import opened Bytes
  import opened Addresses
  import opened NwkCodec

  // Source route

  method ReadSourceRoute(bytes: seq<byte>) returns (r: Parsed<SourceRoute>)
    ensures r == ParseSourceRoute(bytes)
  {
    hide ParseNwk, Nat8;
    if |bytes| < 2 {
      return Rejected(NotEnoughData);
    }
    var relayCount, relayIndex, remaining := bytes[0], bytes[1], bytes[2..];
    var relays: seq<Nwk> := [];
    var n := Nat8(relayCount);
    var i := 0;
    EmptyPrefix(ParseRelays(n, remaining));
    while i < n
      invariant 0 <= i <= n
      invariant ParseRelays(n, bytes[2..]) == PrefixedRelays(relays, ParseRelays(n - i, remaining))
    {
      var next := ParseNwk(remaining);
      if next.IsFailure() {
        return next.PropagateFailure();
      }
      MovePrefix(relays, next.value, ParseRelays(n - i - 1, next.rest));
      relays, remaining := relays + [next.value], next.rest;
      i := i + 1;
    }
    assert relays + [] == relays;
    return Parsed(SourceRoute(relayCount, relayIndex, relays), remaining);
  }

  /** A parse of the rest of a list, seen as a parse of the whole. */
  function PrefixedRelays(relays: seq<Nwk>, p: Parsed<seq<Nwk>>): Parsed<seq<Nwk>> {
    if p.IsFailure() then p else Parsed(relays + p.value, p.rest)
  }

  lemma EmptyPrefix(p: Parsed<seq<Nwk>>)
    ensures PrefixedRelays([], p) == p
  {
    if p.Parsed? {
      assert [] + p.value == p.value;
    }
  }

  lemma MovePrefix(relays: seq<Nwk>, nwk: Nwk, p: Parsed<seq<Nwk>>)
    ensures PrefixedRelays(relays, PrefixedRelays([nwk], p)) == PrefixedRelays(relays + [nwk], p)
  {
    if p.Parsed? {
      Associate3(relays, [nwk], p.value);
    }
  }

  method WriteSourceRoute(r: SourceRoute) returns (bytes: seq<byte>)
    requires Printable(r)  // the source panics otherwise
    ensures bytes == PrintSourceRoute(r)
  {
    hide PrintNwk;
    bytes := [];
    bytes := bytes + [r.relayCount];
    bytes := bytes + [r.relayIndex];
    ghost var start := bytes;
    var i := 0;
    assert r.relays[..0] == [];
    while i < |r.relays|
      invariant 0 <= i <= |r.relays|
      invariant bytes == start + PrintRelays(r.relays[..i])
    {
      PrintRelaysAppend(r.relays[..i], r.relays[i]);
      assert r.relays[..i] + [r.relays[i]] == r.relays[..i + 1];
      Associate3(start, PrintRelays(r.relays[..i]), PrintNwk(r.relays[i]));
      bytes := bytes + PrintNwk(r.relays[i]);
      i := i + 1;
    }
    assert r.relays[..i] == r.relays;
  }

  lemma {:induction false} PrintRelaysAppend(relays: seq<Nwk>, nwk: Nwk)
    ensures PrintRelays(relays + [nwk]) == PrintRelays(relays) + PrintNwk(nwk)
    decreases |relays|
  {
    hide PrintNwk;
    if relays == [] {
      assert (relays + [nwk])[1..] == [];
      assert PrintNwk(nwk) + [] == PrintNwk(nwk) && [] + PrintNwk(nwk) == PrintNwk(nwk);
    } else {
      assert (relays + [nwk])[1..] == relays[1..] + [nwk];
      PrintRelaysAppend(relays[1..], nwk);
    }
  }

  // Header

  method ReadHeader(bytes: seq<byte>) returns (r: Parsed<Header>)
    requires ParseHeader(bytes) != OutOfBounds
    ensures r == ParseHeader(bytes)
  {
    hide ParseFrameControl, ParseNwk, ParseEui64, ParseSourceRoute;
    if |bytes| < 8 {
      return Rejected(NotEnoughData);
    }
    var remaining := bytes;

    var control :- ParseFrameControl(remaining);
    remaining := control.1;
    var destination :- ParseNwk(remaining);
    remaining := destination.1;
    var source :- ParseNwk(remaining);
    remaining := source.1;

    var radius := remaining[0];
    remaining := remaining[1..];
    var sequenceNumber := remaining[0];
    remaining := remaining[1..];
    assert remaining == source.1[2..];

    var destinationIeee: Option<Eui64> := None;
    if control.0.destination {
      var ieee :- ParseEui64(remaining);
      remaining := ieee.1;
      destinationIeee := Some(ieee.0);
    }

    var sourceIeee: Option<Eui64> := None;
    if control.0.extendedSource {
      var ieee :- ParseEui64(remaining);
      remaining := ieee.1;
      sourceIeee := Some(ieee.0);
    }

    var multicastControl: Option<byte> := None;
    if control.0.multicast {
      multicastControl := Some(remaining[0]);
      remaining := remaining[1..];
    }

    var sourceRoute: Option<SourceRoute> := None;
    if control.0.sourceRoute {
      var route := ReadSourceRoute(remaining);
      if route.IsFailure() {
        return route.PropagateFailure();
      }
      remaining := route.rest;
      sourceRoute := Some(route.value);
    }

    return Parsed(Header(control.0, destination.0, source.0, radius, sequenceNumber,
                         destinationIeee, sourceIeee, multicastControl, sourceRoute), remaining);
  }

  method WriteHeader(h: Header) returns (bytes: seq<byte>)
    requires h.sourceRoute.Some? ==> Printable(h.sourceRoute.value)
    ensures bytes == PrintHeader(h)
  {
    hide PrintFrameControl, PrintNwk, PrintEui64, PrintSourceRoute;
    bytes := PrintFrameControl(h.frameControl);
    bytes := bytes + PrintNwk(h.destination);
    bytes := bytes + PrintNwk(h.source);
    bytes := bytes + [h.radius];
    bytes := bytes + [h.sequenceNumber];
    FixedInOrder(FixedOf(h));
    assert bytes == PrintFixed(FixedOf(h));

    ghost var e1, e2, m, s := PrintOptionalEui64(h.destinationIeee), PrintOptionalEui64(h.sourceIeee),
      PrintMulticast(h.multicastControl), PrintOptionalRoute(h.sourceRoute);
    if h.destinationIeee.Some? {
      bytes := bytes + PrintEui64(h.destinationIeee.value);
    }
    assert bytes == PrintFixed(FixedOf(h)) + e1;
    if h.sourceIeee.Some? {
      bytes := bytes + PrintEui64(h.sourceIeee.value);
    }
    assert bytes == PrintFixed(FixedOf(h)) + e1 + e2;
    if h.multicastControl.Some? {
      bytes := bytes + [h.multicastControl.value];
    }
    assert bytes == PrintFixed(FixedOf(h)) + e1 + e2 + m;
    if h.sourceRoute.Some? {
      var route := WriteSourceRoute(h.sourceRoute.value);
      bytes := bytes + route;
    }
    assert bytes == PrintFixed(FixedOf(h)) + e1 + e2 + m + s;
    InOrder(PrintFixed(FixedOf(h)), e1, e2, m, s);
  }

  lemma FixedInOrder(f: Fixed)
    ensures PrintFrameControl(f.frameControl) + PrintNwk(f.destination) + PrintNwk(f.source) + [f.radius] +
            [f.sequenceNumber] == PrintFixed(f)
  {
    hide PrintFrameControl, PrintNwk;
    var c, d, s := PrintFrameControl(f.frameControl), PrintNwk(f.destination), PrintNwk(f.source);
    assert [f.radius] + [f.sequenceNumber] == [f.radius, f.sequenceNumber];
    Associate3(c + d + s, [f.radius], [f.sequenceNumber]);
    Associate3(c + d, s, [f.radius, f.sequenceNumber]);
    Associate3(c, d, s + [f.radius, f.sequenceNumber]);
  }

  lemma InOrder(a: seq<byte>, b: seq<byte>, c: seq<byte>, d: seq<byte>, e: seq<byte>)
    ensures a + b + c + d + e == a + (b + (c + (d + e)))
  {
    Associate3(a, b, c + (d + e));
    Associate3(a + b, c, d + e);
    Associate3(a + b + c, d, e);
  }

  // Auxiliary header

  method ReadAux(bytes: seq<byte>) returns (r: Parsed<AuxHeader>)
    requires ParseAux(bytes) != OutOfBounds
    ensures r == ParseAux(bytes)
  {
    hide ParseControl, ParseEui64, FromLe32;
    if |bytes| < 6 {
      return Rejected(NotEnoughData);
    }
    var remaining := bytes;
    var control :- ParseControl(remaining);
    remaining := control.1;
    var frameCounter := FromLe32(remaining[0], remaining[1], remaining[2], remaining[3]);
    remaining := remaining[4..];
    var extendedSource: Option<Eui64> := None;
    if control.0.extendedSource {
      var ieee :- ParseEui64(remaining);
      remaining := ieee.1;
      extendedSource := Some(ieee.0);
    }
    var keySequenceNumber := remaining[0];
    remaining := remaining[1..];
    return Parsed(AuxHeader(control.0, frameCounter, extendedSource, keySequenceNumber), remaining);
  }

  method WriteAux(a: AuxHeader) returns (bytes: seq<byte>)
    ensures bytes == PrintAux(a)
  {
    hide ControlByte, Le32, PrintEui64;
    bytes := [ControlByte(a.securityControl)];
    bytes := bytes + Le32(a.frameCounter);
    ghost var e := PrintOptionalEui64(a.extendedSource);
    if a.extendedSource.Some? {
      bytes := bytes + PrintEui64(a.extendedSource.value);
    }
    assert bytes == [ControlByte(a.securityControl)] + Le32(a.frameCounter) + e;
    bytes := bytes + [a.keySequenceNumber];
    Associate3([ControlByte(a.securityControl)] + Le32(a.frameCounter), e, [a.keySequenceNumber]);
    Associate3([ControlByte(a.securityControl)], Le32(a.frameCounter), e + [a.keySequenceNumber]);
  }

  // Frame

  method ReadFrame(bytes: seq<byte>) returns (r: Parsed<Frame>)
    requires FromBytes(bytes) != OutOfBounds
    ensures r == FromBytes(bytes)
  {
    hide ParseHeader, ParseAux;
    var header := ReadHeader(bytes);
    if header.IsFailure() {
      return header.PropagateFailure();
    }
    var remaining := header.rest;
    var auxHeader: Option<AuxHeader> := None;
    if header.value.frameControl.security {
      var aux := ReadAux(remaining);
      if aux.IsFailure() {
        return aux.PropagateFailure();
      }
      remaining := aux.rest;
      auxHeader := Some(aux.value);
    }
    var encrypted := header.value.frameControl.security;
    return Parsed(Frame(header.value, auxHeader, remaining, encrypted), []);
  }

  method WriteFrame(f: Frame) returns (bytes: seq<byte>)
    requires f.header.sourceRoute.Some? ==> Printable(f.header.sourceRoute.value)
    ensures bytes == ToBytes(f)
  {
    hide PrintHeader, PrintAux;
    bytes := WriteHeader(f.header);
    ghost var h, a := bytes, PrintOptionalAux(f.auxHeader);
    if f.auxHeader.Some? {
      var aux := WriteAux(f.auxHeader.value);
      bytes := bytes + aux;
    }
    assert bytes == h + a;
    bytes := bytes + f.payload;
    Associate3(h, a, f.payload);
  }

  /** A well-formed frame satisfies the writer's demand on its relay count. */
  lemma WellFormedIsPrintable(f: Frame)
    requires WellFormed(f) && f.header.sourceRoute.Some?
    ensures Printable(f.header.sourceRoute.value)
  {
    hide Nat8, U8;
    U8OfByte(f.header.sourceRoute.value.relayCount);
  }

  // Where the readers index past the end

  /** A multicast control is announced, and the bytes end just before it. */
  predicate LacksMulticast(b: seq<byte>) {
    && ParseFixed(b).Parsed?
    && var c := ParseFixed(b).value.frameControl;
    && c.multicast
    && |ParseFixed(b).rest| == (if c.destination then 8 else 0) + (if c.extendedSource then 8 else 0)
  }

  /** The header reader stops the program exactly then. */
  lemma HeaderOutOfBoundsExactly(b: seq<byte>)
    ensures ParseHeader(b) == OutOfBounds <==> LacksMulticast(b)
  {
    FixedInBounds(b);
    hide ParseFixed;
    if ParseFixed(b).Parsed? {
      OptionsOutOfBoundsExactly(ParseFixed(b).value.frameControl, ParseFixed(b).rest);
      hide ParseOptions;
    }
  }

  lemma FixedInBounds(b: seq<byte>)
    ensures ParseFixed(b) != OutOfBounds
  {
    hide FrameTypeOf, DiscoveryOf, FromLe16;
  }

  lemma OptionsOutOfBoundsExactly(c: FrameControl, b: seq<byte>)
    ensures ParseOptions(c, b) == OutOfBounds <==>
            c.multicast && |b| == (if c.destination then 8 else 0) + (if c.extendedSource then 8 else 0)
  {
    forall n: nat, s: seq<byte>
      ensures ParseRelays(n, s) != OutOfBounds
    {
      RelaysInBounds(n, s);
    }
    hide ParseRelays, Nat8;
  }

  lemma {:induction false} RelaysInBounds(n: nat, b: seq<byte>)
    ensures ParseRelays(n, b) != OutOfBounds
    decreases n
  {
    hide FromLe16;
    if n > 0 && ParseNwk(b).Parsed? {
      RelaysInBounds(n - 1, ParseNwk(b).rest);
    }
  }

  /** An extended source is announced, and the bytes end just after it, without the key sequence number. */
  predicate LacksKeySequence(b: seq<byte>) {
    |b| == 13 && Bit(b[0], 5)
  }

  /** The auxiliary-header reader stops the program exactly then. */
  lemma AuxOutOfBoundsExactly(b: seq<byte>)
    ensures ParseAux(b) == OutOfBounds <==> LacksKeySequence(b)
  {
    if |b| >= 6 {
      EveryControlParses(b);
    }
    hide FromLe32, ParseControl, Bit;
  }

  /** So the frame reader stops the program exactly in these two cases. */
  lemma FrameOutOfBoundsExactly(b: seq<byte>)
    ensures FromBytes(b) == OutOfBounds <==>
            || LacksMulticast(b)
            || (&& ParseHeader(b).Parsed?
                && ParseHeader(b).value.frameControl.security
                && LacksKeySequence(ParseHeader(b).rest))
  {
    hide ParseHeader, ParseAux, LacksMulticast, LacksKeySequence;
    HeaderOutOfBoundsExactly(b);
    if ParseHeader(b).Parsed? {
      AuxOutOfBoundsExactly(ParseHeader(b).rest);
    }
  }

  lemma EveryControlParses(b: seq<byte>)
    requires b != []
    ensures ParseControl(b).Parsed? && ParseControl(b).rest == b[1..]
    ensures ParseControl(b).value.extendedSource == Bit(b[0], 5)
  {
    FieldsAreCodes(b[0]);
    hide LevelField, KeyField, TopField, Bit;
  }

  lemma FieldsAreCodes(b: byte)
    ensures LevelOf(LevelField(b)).Some? && KeyOf(KeyField(b)).Some?
  {
    FieldsInRange(b);
  }

  lemma FieldsInRange(b: byte)
    ensures LevelField(b) < 8 && KeyField(b) < 4
  {
  }
}
