/**
 The controller's outgoing frame counter over whole runs: every task that builds a frame first increments the shared
 counter, closing the connection saves it, loading the network resumes a thousand further on, and a restarted process
 begins with a counter of zero, its file and the frames of the past unchanged.
 */
module FrameCounter {
  import opened Bytes
  import opened Addresses
  import opened NwkCodec
  import opened Ccm
  import opened NwkSecurity
  import PythonSecurity

  datatype Node = Node(nwk: Nwk, ieee: Eui64, keySequence: byte)

  datatype Packet = Packet(destination: Nwk, source: Nwk, radius: Option<byte>, tsn: byte, aps: seq<byte>)

  datatype Event =
    | SendPacket(packet: Packet)
    | ReplyToRouteRequest(request: Header)
    | AcknowledgeAps(inbound: Header, aps: seq<byte>)
    | Disconnect
    | LoadNetworkInfo
    | Restart

  /** Counter in memory, counter in the file, and every frame built so far. */
  datatype State = State(txCounter: nat, savedCounter: nat, built: seq<Frame>)

  const COUNTER_LIMIT := 0x1_0000_0000
  const PAYLOAD_LIMIT := 0x1_0000
  const LOAD_MARGIN := 1000
  const INITIAL_COUNTER := 0

  // Building frames

  function ControlFor(frameType: FrameType, withAddresses: bool): FrameControl {
    FrameControl(frameType, 2, Suppress, false, true, false, withAddresses, withAddresses, false, 0)
  }

  function AuxFor(node: Node, counter: nat): AuxHeader {
    AuxHeader(SecurityControl(NoSecurity, NetworkKey, true, false, 0), U32(counter), Some(node.ieee), node.keySequence)
  }

  function PacketHeader(p: Packet): Header {
    var radius := if p.radius.None? || p.radius.value == 0 then 30 else p.radius.value;
    Header(ControlFor(Data, false), p.destination, p.source, radius, p.tsn, None, None, None, None)
  }

  function ReplyHeader(node: Node, request: Header): Header {
    Header(ControlFor(Command, true), request.source, node.nwk, 30, request.sequenceNumber,
           request.sourceIeee, Some(node.ieee), None, None)
  }

  function ReplyCommand(node: Node): seq<byte> {
    [0x02, 0x00, 0x12] + PrintNwk(node.nwk) + PrintNwk(node.nwk) + [0x01]
  }

  function AckHeader(inbound: Header): Header {
    Header(ControlFor(Data, false), inbound.source, inbound.destination, inbound.radius - 1, inbound.sequenceNumber,
           None, None, None, None)
  }

  predicate Builds(e: Event) {
    e.SendPacket? || e.ReplyToRouteRequest? || e.AcknowledgeAps?
  }

  /**
   The unencrypted frame an event builds with a given counter, if building does not fail: the counter must fit in 32
   bits, the length of the payload in two bytes, and an acknowledgement needs a radius to count down from.
   */
  function Build(node: Node, counter: nat, e: Event): Option<Frame>
    requires Builds(e)
  {
    if counter >= COUNTER_LIMIT then None
    else
      var aux := Some(AuxFor(node, counter));
      match e
      case SendPacket(p) =>
        if |p.aps| >= PAYLOAD_LIMIT then None else Some(Frame(PacketHeader(p), aux, p.aps, false))
      case ReplyToRouteRequest(request) =>
        Some(Frame(ReplyHeader(node, request), aux, ReplyCommand(node), false))
      case AcknowledgeAps(inbound, aps) =>
        if inbound.radius == 0 || |aps| >= PAYLOAD_LIMIT then None else Some(Frame(AckHeader(inbound), aux, aps, false))
  }

  // Runs

  /** The counter is spent even when building the frame then fails. */
  function After(node: Node, s: State, e: Event): State {
    match e
    case Disconnect => s.(savedCounter := s.txCounter)
    case LoadNetworkInfo => s.(txCounter := s.savedCounter + LOAD_MARGIN)
    case Restart => s.(txCounter := INITIAL_COUNTER)
    case _ => State(s.txCounter + 1, s.savedCounter, Logged(s.built, Build(node, s.txCounter + 1, e)))
  }

  function Logged(built: seq<Frame>, frame: Option<Frame>): seq<Frame> {
    if frame.Some? then built + [frame.value] else built
  }

  function Run(node: Node, s: State, events: seq<Event>): State
    decreases |events|
  {
    if events == [] then s else Run(node, After(node, s, events[0]), events[1..])
  }

  /** The application object that the tasks share. */
  class ControllerApplication {
    const node: Node
    const key: Key
    var txCounter: nat
    var savedCounter: nat
    var built: seq<Frame>

    constructor (node: Node, key: Key, savedCounter: nat)
      ensures this.node == node && this.key == key && Now() == State(INITIAL_COUNTER, savedCounter, [])
    {
      this.node, this.key, this.savedCounter := node, key, savedCounter;
      txCounter, built := INITIAL_COUNTER, [];
    }

    /** The object of a new process: the file is still there, and so is what earlier processes put on the air. */
    constructor Restarted(previous: ControllerApplication)
      ensures node == previous.node && key == previous.key && Now() == After(node, previous.Now(), Restart)
    {
      node, key, savedCounter := previous.node, previous.key, previous.savedCounter;
      txCounter, built := INITIAL_COUNTER, previous.built;
    }

    function Now(): State
      reads this
    {
      State(txCounter, savedCounter, built)
    }

    method Transmit(E: Cipher, e: Event) returns (secured: Option<Frame>)
      requires Builds(e)
      modifies this`txCounter, this`built
      ensures Now() == After(node, old(Now()), e)
      ensures IsEncryptionOf(E, key, Build(node, old(txCounter) + 1, e), secured)
    {
      hide Build, CanEncrypt, Encrypt;
      txCounter := txCounter + 1;
      var frame := Build(node, txCounter, e);
      if frame.None? {
        return None;
      }
      BuiltCanEncrypt(E, key, node, txCounter, e);
      secured := PythonSecurity.Encrypt(E, key, frame.value);
      built := built + [frame.value];
    }

    method Close()
      modifies this`savedCounter
      ensures Now() == After(node, old(Now()), Disconnect)
      ensures savedCounter == txCounter
    {
      savedCounter := txCounter;
    }

    method Load()
      modifies this`txCounter
      ensures Now() == After(node, old(Now()), LoadNetworkInfo)
      ensures txCounter == savedCounter + 1000
    {
      txCounter := savedCounter + LOAD_MARGIN;
    }
  }

  // Frames as built

  predicate BuiltBy(node: Node, f: Frame) {
    && !f.encrypted
    && Securable(f)
    && f.auxHeader.value.extendedSource == Some(node.ieee)
    && f.auxHeader.value.securityControl == SecurityControl(NoSecurity, NetworkKey, true, false, 0)
    && |f.payload| < PAYLOAD_LIMIT
  }

  /** The frame counter of a frame; 0 where it has no auxiliary header. */
  function Counter(f: Frame): nat {
    if f.auxHeader.Some? then U32Value(f.auxHeader.value.frameCounter) else 0
  }

  lemma BuiltForm(node: Node, counter: nat, e: Event)
    requires Builds(e) && Build(node, counter, e).Some?
    ensures var f := Build(node, counter, e).value; BuiltBy(node, f) && Counter(f) == counter
  {
    U32RoundTrip(counter);
    hide U32, U32Value, Le16;
  }

  lemma BuiltCanEncrypt(E: Cipher, key: Key, node: Node, counter: nat, e: Event)
    requires Builds(e) && Build(node, counter, e).Some?
    ensures var f := Build(node, counter, e).value;
            && !f.encrypted && Securable(f) && CanEncrypt(f) && Encrypt(E, key, f).Ok?
            && f.auxHeader.value.extendedSource.Some?
            && |AuthData(f)| < 0x1_0000 && |f.payload| < PAYLOAD_LIMIT
  {
    var f := Build(node, counter, e).value;
    assert f.header.sourceRoute.None?;
    hide Build, Securable, Counter;
    BuiltForm(node, counter, e);
    HeaderSizeWithoutRoute(f.header, ModifiedAux(f));
  }

  predicate IsEncryptionOf(E: Cipher, key: Key, frame: Option<Frame>, secured: Option<Frame>) {
    match frame
    case None => secured == None
    case Some(f) => CanEncrypt(f) && secured.Some? && Encrypt(E, key, f) == Ok(secured.value)
  }

  /**
   What is built can be sent secured, except for one kind of frame: a route reply to a request that carried no extended
   source announces a destination address that it does not hold.
   */
  lemma BuiltIsSendable(node: Node, counter: nat, e: Event)
    requires Builds(e) && Build(node, counter, e).Some?
    ensures Sendable(Build(node, counter, e).value) <==> e.ReplyToRouteRequest? ==> e.request.sourceIeee.Some?
  {
    hide U32;
  }

  /**
   From the counter to the receiver: the bytes of a secured frame are read and decrypted to what was built, with that
   same exception and no other.
   */
  lemma BuiltIsReceived(E: Cipher, key: Key, node: Node, counter: nat, e: Event)
    requires Builds(e) && Build(node, counter, e).Some?
    ensures var f := Build(node, counter, e).value;
            && CanEncrypt(f) && Encrypt(E, key, f).Ok?
            && var c := FromBytes(ToBytes(Encrypt(E, key, f).value));
            && (&& c.Parsed? && CanDecrypt(c.value) && Decrypt(E, key, c.value) == Ok(f)
                <==> (e.ReplyToRouteRequest? ==> e.request.sourceIeee.Some?))
  {
    BuiltIsSendable(node, counter, e);
    BuiltCanEncrypt(E, key, node, counter, e);
    hide Build, Sendable, Encrypt, Decrypt, CanDecrypt, CanEncrypt, FromBytes, ToBytes;
    var f := Build(node, counter, e).value;
    var b := ToBytes(Encrypt(E, key, f).value);
    if Sendable(f) {
      SecuredWireRoundTrip(E, key, f);
    }
    if FromBytes(b).Parsed? && CanDecrypt(FromBytes(b).value) {
      SecuredWire(E, key, b, f);
    }
  }

  // What arrives

  /** What the other side ends up with when an event builds a frame: encrypted, written, read and decrypted. */
  function Received(E: Cipher, key: Key, node: Node, counter: nat, e: Event): Option<Frame>
    requires Builds(e)
  {
    match Build(node, counter, e)
    case None => None
    case Some(f) =>
      if !CanEncrypt(f) || Encrypt(E, key, f).Err? then None
      else
        var c := FromBytes(ToBytes(Encrypt(E, key, f).value));
        if c.Parsed? && CanDecrypt(c.value) && Decrypt(E, key, c.value).Ok?
        then Some(Decrypt(E, key, c.value).value)
        else None
  }

  lemma ReceivedAsBuilt(E: Cipher, key: Key, node: Node, counter: nat, e: Event)
    requires Builds(e) && (e.ReplyToRouteRequest? ==> e.request.sourceIeee.Some?)
    ensures Received(E, key, node, counter, e) == Build(node, counter, e)
  {
    hide Build, CanEncrypt, Encrypt, Decrypt, CanDecrypt, FromBytes, ToBytes;
    if Build(node, counter, e).Some? {
      BuiltIsReceived(E, key, node, counter, e);
    }
  }

  /** The auxiliary header of everything that arrives: counter, the node's address, network key, no level on the air. */
  predicate FromNode(node: Node, counter: nat, f: Frame) {
    && f.auxHeader.Some?
    && var a := f.auxHeader.value;
    && U32Value(a.frameCounter) == counter
    && a.extendedSource == Some(node.ieee)
    && a.keySequenceNumber == node.keySequence
    && a.securityControl == SecurityControl(NoSecurity, NetworkKey, true, false, 0)
  }

  /** The payload and header a packet is to arrive with; its radius is 30 when it gives none or zero. */
  predicate AsPacket(p: Packet, f: Frame) {
    && f.payload == p.aps
    && f.header == Header(
         FrameControl(Data, 2, Suppress, false, true, false, false, false, false, 0),
         p.destination, p.source, if p.radius.None? || p.radius == Some(0) then 30 else p.radius.value, p.tsn,
         None, None, None, None)
  }

  /** An acknowledgement: the inbound addresses exchanged, one less radius, the same sequence number. */
  predicate AsAcknowledgement(inbound: Header, aps: seq<byte>, f: Frame) {
    && f.payload == aps
    && f.header == Header(
         FrameControl(Data, 2, Suppress, false, true, false, false, false, false, 0),
         inbound.source, inbound.destination, inbound.radius - 1, inbound.sequenceNumber,
         None, None, None, None)
  }

  /** A route reply: to the requester, from the node, both extended addresses present, and the command. */
  predicate AsReply(node: Node, request: Header, f: Frame) {
    && f.payload == [0x02, 0x00, 0x12] + Le16(node.nwk.value) + Le16(node.nwk.value) + [0x01]
    && f.header == Header(
         FrameControl(Command, 2, Suppress, false, true, false, true, true, false, 0),
         request.source, node.nwk, 30, request.sequenceNumber,
         request.sourceIeee, Some(node.ieee), None, None)
  }

  lemma BuildsPacket(node: Node, counter: nat, p: Packet)
    ensures var f := Build(node, counter, SendPacket(p));
            && (f.Some? <==> counter < 0x1_0000_0000 && |p.aps| < 0x1_0000)
            && (f.Some? ==> FromNode(node, counter, f.value) && AsPacket(p, f.value))
  {
    hide U32, U32Value;
    if counter < 0x1_0000_0000 {
      U32RoundTrip(counter);
    }
  }

  lemma BuildsAcknowledgement(node: Node, counter: nat, inbound: Header, aps: seq<byte>)
    ensures var f := Build(node, counter, AcknowledgeAps(inbound, aps));
            && (f.Some? <==> counter < 0x1_0000_0000 && |aps| < 0x1_0000 && inbound.radius != 0)
            && (f.Some? ==> FromNode(node, counter, f.value) && AsAcknowledgement(inbound, aps, f.value))
  {
    hide U32, U32Value;
    if counter < 0x1_0000_0000 {
      U32RoundTrip(counter);
    }
  }

  lemma BuildsReply(node: Node, counter: nat, request: Header)
    ensures var f := Build(node, counter, ReplyToRouteRequest(request));
            && (f.Some? <==> counter < 0x1_0000_0000)
            && (f.Some? ==> FromNode(node, counter, f.value) && AsReply(node, request, f.value))
  {
    hide U32, U32Value, Le16;
    if counter < 0x1_0000_0000 {
      U32RoundTrip(counter);
    }
  }

  /** A packet arrives as it was to be sent, exactly when counter and length fit. */
  lemma PacketArrives(E: Cipher, key: Key, node: Node, counter: nat, p: Packet)
    ensures var r := Received(E, key, node, counter, SendPacket(p));
            && (r.Some? <==> counter < 0x1_0000_0000 && |p.aps| < 0x1_0000)
            && (r.Some? ==> FromNode(node, counter, r.value) && AsPacket(p, r.value))
  {
    hide Received, Build, FromNode, AsPacket;
    ReceivedAsBuilt(E, key, node, counter, SendPacket(p));
    BuildsPacket(node, counter, p);
  }

  /** So does an acknowledgement, exactly when there is also a radius to count down from. */
  lemma AcknowledgementArrives(E: Cipher, key: Key, node: Node, counter: nat, inbound: Header, aps: seq<byte>)
    ensures var r := Received(E, key, node, counter, AcknowledgeAps(inbound, aps));
            && (r.Some? <==> counter < 0x1_0000_0000 && |aps| < 0x1_0000 && inbound.radius != 0)
            && (r.Some? ==> FromNode(node, counter, r.value) && AsAcknowledgement(inbound, aps, r.value))
  {
    hide Received, Build, FromNode, AsAcknowledgement;
    ReceivedAsBuilt(E, key, node, counter, AcknowledgeAps(inbound, aps));
    BuildsAcknowledgement(node, counter, inbound, aps);
  }

  /** And so does a route reply, exactly when the counter fits and the request carried an extended source. */
  lemma ReplyArrives(E: Cipher, key: Key, node: Node, counter: nat, request: Header)
    ensures var e := ReplyToRouteRequest(request);
            var r := Received(E, key, node, counter, e);
            && (r.Some? && r == Build(node, counter, e) <==> counter < 0x1_0000_0000 && request.sourceIeee.Some?)
            && (r == Build(node, counter, e) && r.Some? ==>
                  FromNode(node, counter, r.value) && AsReply(node, request, r.value))
  {
    var e := ReplyToRouteRequest(request);
    hide Build, FromNode, AsReply;
    BuildsReply(node, counter, request);
    if request.sourceIeee.Some? {
      ReceivedAsBuilt(E, key, node, counter, e);
    } else if Build(node, counter, e).Some? {
      BuiltIsReceived(E, key, node, counter, e);
      hide FromBytes, ToBytes, Encrypt, CanEncrypt, Decrypt, CanDecrypt;
    }
  }

  // Freshness

  predicate AllBuiltBy(node: Node, built: seq<Frame>) {
    forall i :: 0 <= i < |built| ==> BuiltBy(node, built[i])
  }

  predicate Increasing(built: seq<Frame>) {
    forall i, j :: 0 <= i < j < |built| ==> Counter(built[i]) < Counter(built[j])
  }

  predicate AtMost(built: seq<Frame>, n: nat) {
    forall i :: 0 <= i < |built| ==> Counter(built[i]) <= n
  }

  /** Loading now cannot take the counter back behind a frame already built. */
  predicate SafeToLoad(s: State) {
    AtMost(s.built, s.savedCounter + LOAD_MARGIN)
  }

  predicate Ordered(node: Node, s: State) {
    AllBuiltBy(node, s.built) && Increasing(s.built)
  }

  predicate Fresh(node: Node, s: State) {
    Ordered(node, s) && AtMost(s.built, s.txCounter)
  }

  /** An event adds nothing, or one frame that carries the new counter. */
  lemma Step(node: Node, s: State, e: Event)
    requires Builds(e)
    ensures var t := After(node, s, e);
            && t.txCounter == s.txCounter + 1
            && t.savedCounter == s.savedCounter
            && (|| t.built == s.built
                || (|t.built| == |s.built| + 1 && t.built[..|s.built|] == s.built
                    && BuiltBy(node, t.built[|s.built|]) && Counter(t.built[|s.built|]) == s.txCounter + 1))
  {
    hide Build, BuiltBy, Counter;
    var frame := Build(node, s.txCounter + 1, e);
    assert After(node, s, e) == State(s.txCounter + 1, s.savedCounter, Logged(s.built, frame));
    if frame.Some? {
      BuiltForm(node, s.txCounter + 1, e);
      assert Logged(s.built, frame)[..|s.built|] == s.built;
    }
  }

  lemma StepKeepsOrder(node: Node, s: State, e: Event)
    requires Ordered(node, s) && (Builds(e) ==> Fresh(node, s))
    ensures Ordered(node, After(node, s, e))
    ensures Builds(e) ==> Fresh(node, After(node, s, e))
  {
    hide Build, BuiltBy, Counter;
    if Builds(e) {
      Step(node, s, e);
      hide After;
    }
  }

  predicate InSession(events: seq<Event>) {
    forall k :: 0 <= k < |events| ==> Builds(events[k])
  }

  /**
   Over a session of any length the frames built before stay in place, and those added count on from where it began.
   */
  lemma {:induction false} SessionCountsOn(node: Node, s: State, session: seq<Event>)
    requires Fresh(node, s) && InSession(session)
    ensures var t := Run(node, s, session);
            && Fresh(node, t)
            && t.savedCounter == s.savedCounter
            && |s.built| <= |t.built| && t.built[..|s.built|] == s.built
            && forall k :: |s.built| <= k < |t.built| ==> Counter(t.built[k]) > s.txCounter
    decreases |session|
  {
    if session != [] {
      var e := session[0];
      assert Builds(e);
      Step(node, s, e);
      StepKeepsOrder(node, s, e);
      hide Fresh, BuiltBy, Counter, After;
      SessionCountsOn(node, After(node, s, e), session[1..]);
      KeepsFront(s.built, After(node, s, e).built, Run(node, s, session).built);
    }
  }

  lemma KeepsFront(a: seq<Frame>, b: seq<Frame>, c: seq<Frame>)
    requires |a| <= |b| <= |c| && b[..|a|] == a && c[..|b|] == b
    ensures c[..|a|] == a
    ensures forall k :: |a| <= k < |b| ==> c[k] == b[k]
  {
    assert c[..|a|] == c[..|b|][..|a|];
    forall k | |a| <= k < |b|
      ensures c[k] == b[k]
    {
      assert c[..|b|][k] == b[k];
    }
  }

  const PROBE := SendPacket(Packet(Nwk(0), Nwk(0), None, 0, []))

  /**
   Going on from here keeps counters increasing, in any session and any order of its tasks, exactly when no frame was
   built with a counter above the present one.
   */
  lemma SafeToBuildExactly(node: Node, s: State)
    requires Ordered(node, s)
    ensures AtMost(s.built, s.txCounter) <==>
            forall session :: InSession(session) ==> Increasing(Run(node, s, session).built)
  {
    if AtMost(s.built, s.txCounter) {
      forall session | InSession(session)
        ensures Increasing(Run(node, s, session).built)
      {
        SessionCountsOn(node, s, session);
      }
    } else {
      ProbeShows(node, s);
    }
  }

  lemma ProbeShows(node: Node, s: State)
    requires Ordered(node, s) && !AtMost(s.built, s.txCounter)
    ensures InSession([PROBE]) && !Increasing(Run(node, s, [PROBE]).built)
  {
    hide Build, BuiltBy, Securable, Counter;
    var next := After(node, s, PROBE);
    var n := |s.built|;
    var k :| 0 <= k < n && Counter(s.built[k]) > s.txCounter;
    CounterBounded(s.built[k]);
    ProbeBuilds(node, s.txCounter + 1);
    var f := Build(node, s.txCounter + 1, PROBE).value;
    assert next.built == s.built + [f];
    assert next.built[k] == s.built[k] && next.built[n] == f;
    RunOne(node, s, PROBE);
  }

  lemma RunOne(node: Node, s: State, e: Event)
    ensures Run(node, s, [e]) == After(node, s, e)
  {
    hide After;
    assert [e][1..] == [];
  }

  /** So loading is safe exactly when no frame was built with a counter above the saved one and the margin. */
  lemma SafeToLoadExactly(node: Node, s: State)
    requires Ordered(node, s)
    ensures SafeToLoad(s) <==>
            forall session :: InSession(session) ==>
              Increasing(Run(node, After(node, s, LoadNetworkInfo), session).built)
  {
    SafeToBuildExactly(node, After(node, s, LoadNetworkInfo));
    hide Run, Increasing, InSession;
  }

  /** Closing writes the counter in memory, whatever it is: a later load is safe exactly when that was far enough. */
  lemma SafeToCloseExactly(node: Node, s: State)
    requires Ordered(node, s)
    ensures AtMost(s.built, s.txCounter + LOAD_MARGIN) <==>
            forall session :: InSession(session) ==>
              Increasing(Run(node, After(node, After(node, s, Disconnect), LoadNetworkInfo), session).built)
  {
    SafeToLoadExactly(node, After(node, s, Disconnect));
    hide Run, Increasing, InSession;
  }

  /**
   In particular a restarted process that closes without having loaded keeps later sessions fresh exactly when no frame
   was ever built with a counter above the margin.
   */
  lemma ClosingUnloadedExactly(node: Node, s: State)
    requires Ordered(node, s)
    ensures AtMost(s.built, LOAD_MARGIN) <==>
            forall session :: InSession(session) ==>
              Increasing(Run(node, After(node, After(node, After(node, s, Restart), Disconnect), LoadNetworkInfo),
                             session).built)
  {
    SafeToCloseExactly(node, After(node, s, Restart));
    hide Run, Increasing, InSession;
  }

  /**
   A run in which every session is closed and counters repeat or fall all the same: one process loads, sends and closes,
   the next closes without loading, and then the network is loaded again.
   */
  lemma ClosingUnloadedRepeats(node: Node, saved: nat)
    requires saved + LOAD_MARGIN + 1 < COUNTER_LIMIT
    ensures var first := [LoadNetworkInfo, PROBE, Disconnect];
            var second := [Restart, Disconnect, LoadNetworkInfo, PROBE];
            var built := Run(node, State(INITIAL_COUNTER, saved, []), first + second).built;
            && |built| == 2
            && Counter(built[0]) == saved + LOAD_MARGIN + 1
            && Counter(built[1]) == LOAD_MARGIN + 1
  {
    hide Build, Counter;
    ProbeBuilds(node, saved + LOAD_MARGIN + 1);
    ProbeBuilds(node, LOAD_MARGIN + 1);
    var s := State(INITIAL_COUNTER, saved, []);
    var f := Build(node, saved + LOAD_MARGIN + 1, PROBE).value;
    var closed := State(saved + LOAD_MARGIN + 1, saved + LOAD_MARGIN + 1, [f]);
    RunThree(node, s, LoadNetworkInfo, PROBE, Disconnect);
    RunThree(node, closed, Restart, Disconnect, LoadNetworkInfo);
    var reloaded := State(LOAD_MARGIN, INITIAL_COUNTER, [f]);
    RunOne(node, reloaded, PROBE);
    var first, second := [LoadNetworkInfo, PROBE, Disconnect], [Restart, Disconnect, LoadNetworkInfo, PROBE];
    assert Run(node, s, first) == closed;
    var third := [Restart, Disconnect, LoadNetworkInfo];
    assert Run(node, closed, third) == reloaded;
    assert third + [PROBE] == second;
    RunConcat(node, closed, third, [PROBE]);
    RunConcat(node, s, first, second);
  }

  lemma RunThree(node: Node, s: State, a: Event, b: Event, c: Event)
    ensures Run(node, s, [a, b, c]) == After(node, After(node, After(node, s, a), b), c)
  {
    hide After;
    assert [a, b, c][1..] == [b, c] && [b, c][1..] == [c];
    RunOne(node, After(node, After(node, s, a), b), c);
  }

  lemma {:induction false} RunConcat(node: Node, s: State, a: seq<Event>, b: seq<Event>)
    ensures Run(node, s, a + b) == Run(node, Run(node, s, a), b)
    decreases |a|
  {
    hide After;
    if a == [] {
      assert a + b == b;
    } else {
      assert (a + b)[1..] == a[1..] + b;
      RunConcat(node, After(node, s, a[0]), a[1..], b);
    }
  }

  lemma CounterBounded(f: Frame)
    ensures Counter(f) < COUNTER_LIMIT
  {
    if f.auxHeader.Some? {
      U32Bounded(f.auxHeader.value.frameCounter);
    }
    hide U32Value;
  }

  lemma ProbeBuilds(node: Node, counter: nat)
    requires counter < COUNTER_LIMIT
    ensures Build(node, counter, PROBE).Some? && Counter(Build(node, counter, PROBE).value) == counter
  {
    assert Build(node, counter, PROBE).Some? by {
      hide U32, ControlFor;
    }
    BuiltForm(node, counter, PROBE);
    hide Counter, Build;
  }

  /**
   After a safe load, loading again without closing is safe only if nothing was built in between: the margin does not
   help.
   */
  lemma UnclosedSession(node: Node, s: State, session: seq<Event>)
    requires Ordered(node, s) && SafeToLoad(s) && InSession(session)
    ensures var t := Run(node, After(node, s, LoadNetworkInfo), session);
            Fresh(node, t) && (SafeToLoad(t) <==> t.built == s.built)
  {
    var loaded := After(node, s, LoadNetworkInfo);
    hide Counter, Run, BuiltBy, Build;
    SessionCountsOn(node, loaded, session);
    var t := Run(node, loaded, session);
    if t.built != s.built {
      assert t.built[..|s.built|] == s.built;
      assert |t.built| > |s.built|;
      assert Counter(t.built[|s.built|]) > s.savedCounter + LOAD_MARGIN;
    }
  }

  // Clean runs

  /** Whether the running process holds a counter to go on from, and whether the file is up to date. */
  datatype Session = Session(loaded: bool, saved: bool)

  /**
   A process loads before it builds or closes, and the network is loaded only when nothing was built since the last
   save.
   */
  predicate Allowed(p: Session, e: Event) {
    match e
    case Disconnect => p.loaded
    case LoadNetworkInfo => p.saved
    case Restart => true
    case _ => p.loaded
  }

  function Moved(p: Session, e: Event): Session {
    match e
    case Disconnect => Session(p.loaded, true)
    case LoadNetworkInfo => Session(true, p.saved)
    case Restart => Session(false, p.saved)
    case _ => Session(p.loaded, false)
  }

  predicate Clean(p: Session, events: seq<Event>)
    decreases |events|
  {
    events == [] || (Allowed(p, events[0]) && Clean(Moved(p, events[0]), events[1..]))
  }

  /** What each mark of a session stands for. */
  predicate Keeps(node: Node, s: State, p: Session) {
    && Ordered(node, s)
    && (p.loaded ==> AtMost(s.built, s.txCounter))
    && (p.saved ==> SafeToLoad(s))
  }

  lemma AllowedStepKeeps(node: Node, s: State, p: Session, e: Event)
    requires Keeps(node, s, p) && Allowed(p, e)
    ensures Keeps(node, After(node, s, e), Moved(p, e))
  {
    StepKeepsOrder(node, s, e);
    hide Build, BuiltBy, Counter, Increasing, AllBuiltBy;
    if e.Disconnect? {
      AtMostMore(s.built, s.txCounter, s.txCounter + LOAD_MARGIN);
    }
    hide AtMost;
  }

  lemma AtMostMore(built: seq<Frame>, m: nat, n: nat)
    requires AtMost(built, m) && m <= n
    ensures AtMost(built, n)
  {
    hide Counter;
  }

  function Ends(p: Session, events: seq<Event>): Session
    decreases |events|
  {
    if events == [] then p else Ends(Moved(p, events[0]), events[1..])
  }

  lemma {:induction false} CleanRunIsFresh(node: Node, s: State, p: Session, events: seq<Event>)
    requires Keeps(node, s, p) && Clean(p, events)
    ensures Keeps(node, Run(node, s, events), Ends(p, events))
    decreases |events|
  {
    if events != [] {
      AllowedStepKeeps(node, s, p, events[0]);
      hide Keeps, After, Allowed, Moved;
      CleanRunIsFresh(node, After(node, s, events[0]), Moved(p, events[0]), events[1..]);
    }
  }

  // What freshness is for

  lemma NoncesDiffer(node: Node, f: Frame, g: Frame)
    requires BuiltBy(node, f) && BuiltBy(node, g) && Counter(f) != Counter(g)
    ensures FrameNonce(f) != FrameNonce(g)
  {
    hide U32Value, ControlByte, Le32;
    var x, y := f.auxHeader.value.frameCounter, g.auxHeader.value.frameCounter;
    if Le32(x) == Le32(y) {
      Le32Injective(x, y);
    }
    assert FrameNonce(f)[8..12] == Le32(x) && FrameNonce(g)[8..12] == Le32(y);
  }

  /** Whether block number `i` masks part of a frame: block 0 its tag, the others its payload. */
  predicate Masks(f: Frame, i: nat) {
    i <= BlockCount(|f.payload|)
  }

  /**
   In every clean run, through any number of processes and in any order of packets, route replies and acknowledgements,
   two frames never share a nonce, and no block that masks anything is used a second time, by the same frame or another.
   */
  lemma WholeRunFreshness(node: Node, start: nat, saved: nat, events: seq<Event>, i: nat, j: nat, a: nat, b: nat)
    requires Clean(Session(true, true), events)
    requires i < |Run(node, State(start, saved, []), events).built|
    requires j < |Run(node, State(start, saved, []), events).built|
    ensures var built := Run(node, State(start, saved, []), events).built;
            && BuiltBy(node, built[i]) && BuiltBy(node, built[j])
            && (Counter(built[i]) < Counter(built[j]) <==> i < j)
            && (FrameNonce(built[i]) == FrameNonce(built[j]) <==> i == j)
            && ((&& Masks(built[i], a) && Masks(built[j], b)
                 && CounterBlock(FrameNonce(built[i]), a) == CounterBlock(FrameNonce(built[j]), b))
                ==> i == j && a == b)
  {
    var s := State(start, saved, []);
    CleanRunIsFresh(node, s, Session(true, true), events);
    var built := Run(node, s, events).built;
    hide Run, CounterBlock, Counter, Securable;
    assert BuiltBy(node, built[i]) && BuiltBy(node, built[j]);
    if i != j {
      assert Counter(built[i]) != Counter(built[j]);
      NoncesDiffer(node, built[i], built[j]);
    }
    hide FrameNonce;
    var m, n := FrameNonce(built[i]), FrameNonce(built[j]);
    if Masks(built[i], a) && Masks(built[j], b) && CounterBlock(m, a) == CounterBlock(n, b) {
      CounterBlocksDiffer(m, a, n, b);
    }
  }
}
