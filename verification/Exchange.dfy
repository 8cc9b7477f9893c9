/** A request and its response, from one end's table over the wire to the other end and back into the table. */
module Exchange {
  import opened Bytes
  import Hdlc
  import opened SpinelFrame
  import opened SpinelStream
  import opened RequestTable
  import Packed21

  /**
   A request with a payload arrives at the other end with its slot's id, command and payload, however its bytes are
   cut.
   */
  lemma RequestArrives(crc: Hdlc.Crc, t: Table, commandId: byte, payload: seq<byte>, chunks: seq<seq<byte>>)
    requires t.nextTid == TidOf(t.issued) && payload != []
    requires Concat(chunks) == Wire(crc, RequestFrame(t.nextTid, commandId, payload))
    ensures var (receiver, frames) := FeedAll(crc, FRESH, chunks);
            && receiver == Receiver([], false)
            && frames == [Frame(Header(2, 0, t.nextTid.id), commandId, payload)]
  {
    var f := Frame(Header(2, 0, t.nextTid.id), commandId, payload);
    TidsCycle(t.issued);
    ChunkInvariance(crc, FRESH, chunks);
    FeedWire(crc, FRESH, f);
    AtMostOneLeftover(crc, []);
    assert [] + [f] == [f];
  }

  predicate Answers(frame: Frame, tid: Tid) {
    Tid(frame.header.transactionId) == tid
  }

  lemma OtherLeavesPending(t: Table, tid: Tid, frame: Frame)
    requires tid in t.pending && !Answers(frame, tid)
    ensures var u := Inbound(t, frame); tid in u.pending && u.pending[tid] == t.pending[tid]
  {
    hide Packed21.Decode;
  }

  // One end of the line between the preparation of a request and its answer

  /** Bytes are read, or some other caller or the application works on the table. */
  datatype Action = Read(bytes: seq<byte>) | Work(op: Op)

  datatype Host = Host(receiver: Receiver, table: Table)

  function Do(crc: Hdlc.Crc, h: Host, a: Action): Host {
    match a
    case Read(bytes) =>
      var (receiver, frames) := Feed(crc, h.receiver, bytes);
      Host(receiver, InboundAll(h.table, frames))
    case Work(op) => Host(h.receiver, Apply(h.table, op))
  }

  function DoAll(crc: Hdlc.Crc, h: Host, actions: seq<Action>): Host
    decreases |actions|
  {
    if actions == [] then h else DoAll(crc, Do(crc, h, actions[0]), actions[1..])
  }

  function Chunks(actions: seq<Action>): seq<seq<byte>>
    decreases |actions|
  {
    if actions == [] then []
    else (if actions[0].Read? then [actions[0].bytes] else []) + Chunks(actions[1..])
  }

  /** At most `n` requests are prepared, nobody cancels `tid`, and all frames come from the bytes read. */
  predicate Within(actions: seq<Action>, tid: Tid, n: nat)
    decreases |actions|
  {
    if actions == [] then true
    else match actions[0]
      case Read(_) => Within(actions[1..], tid, n)
      case Work(OpPrepare) => n > 0 && Within(actions[1..], tid, n - 1)
      case Work(OpInbound(_)) => false
      case Work(OpCancel(other)) => other != tid && Within(actions[1..], tid, n)
      case Work(OpListen(_, _)) => Within(actions[1..], tid, n)
  }

  /** Request `r` is pending and at most `n` more requests can be prepared before its slot comes round again. */
  ghost predicate Awaits(t: Table, r: Request, n: nat) {
    && t.nextTid == TidOf(t.issued)
    && r < t.issued && t.issued + n <= r + 7
    && TidOf(r) in t.pending && t.pending[TidOf(r)] == r
  }

  lemma WorkKeepsAwaiting(t: Table, r: Request, n: nat, op: Op)
    requires Awaits(t, r, n) && Within([Work(op)], TidOf(r), n)
    ensures Awaits(Apply(t, op), r, if op.OpPrepare? then n - 1 else n)
  {
    assert [Work(op)][1..] == [];
    TidsCycle(t.issued);
    SameTid(r, t.issued);
    hide TidOf, NextTid;
  }

  lemma WithinFirst(actions: seq<Action>, tid: Tid, n: nat)
    requires actions != [] && Within(actions, tid, n)
    ensures Within([actions[0]], tid, n)
    ensures Within(actions[1..], tid, if actions[0] == Work(OpPrepare) then n - 1 else n)
  {
    assert [actions[0]][1..] == [];
  }

  lemma {:induction false} InboundAllConcat(t: Table, a: seq<Frame>, b: seq<Frame>)
    ensures InboundAll(t, a + b) == InboundAll(InboundAll(t, a), b)
    decreases |a|
  {
    hide Inbound;
    if a == [] {
      assert a + b == b;
    } else {
      assert (a + b)[1..] == a[1..] + b;
      InboundAllConcat(Inbound(t, a[0]), a[1..], b);
    }
  }

  lemma {:induction false} OthersKeepAwaiting(t: Table, r: Request, n: nat, frames: seq<Frame>)
    requires Awaits(t, r, n)
    requires forall k :: 0 <= k < |frames| ==> !Answers(frames[k], TidOf(r))
    ensures Awaits(InboundAll(t, frames), r, n)
    decreases |frames|
  {
    hide TidOf;
    if frames != [] {
      OtherLeavesPending(t, TidOf(r), frames[0]);
      InboundKeepsCount(t, frames[0]);
      hide Inbound;
      OthersKeepAwaiting(Inbound(t, frames[0]), r, n, frames[1..]);
    }
  }

  lemma InboundKeepsCount(t: Table, frame: Frame)
    ensures Inbound(t, frame).issued == t.issued && Inbound(t, frame).nextTid == t.nextTid
    ensures t.events <= Inbound(t, frame).events
  {
    hide Packed21.Decode;
  }

  // What has happened stays recorded

  lemma {:induction false} InboundAllKeepsEvents(t: Table, frames: seq<Frame>)
    ensures t.events <= InboundAll(t, frames).events
    decreases |frames|
  {
    if frames != [] {
      InboundKeepsCount(t, frames[0]);
      hide Inbound;
      InboundAllKeepsEvents(Inbound(t, frames[0]), frames[1..]);
    }
  }

  lemma DoKeepsEvents(crc: Hdlc.Crc, h: Host, a: Action)
    ensures h.table.events <= Do(crc, h, a).table.events
  {
    match a {
      case Read(bytes) => InboundAllKeepsEvents(h.table, Feed(crc, h.receiver, bytes).1);
      case Work(OpInbound(frame)) => InboundKeepsCount(h.table, frame);
      case Work(_) =>
    }
  }

  lemma {:induction false} DoAllKeepsEvents(crc: Hdlc.Crc, h: Host, actions: seq<Action>)
    ensures h.table.events <= DoAll(crc, h, actions).table.events
    decreases |actions|
  {
    if actions != [] {
      DoKeepsEvents(crc, h, actions[0]);
      hide Do;
      DoAllKeepsEvents(crc, Do(crc, h, actions[0]), actions[1..]);
    }
  }

  /** One read that holds the answer, after frames for others. */
  lemma AnswerIsTaken(t: Table, r: Request, n: nat, others: seq<Frame>, response: Frame, later: seq<Frame>)
    requires Awaits(t, r, n) && Answers(response, TidOf(r))
    requires forall k :: 0 <= k < |others| ==> !Answers(others[k], TidOf(r))
    ensures Responded(r, response) in InboundAll(t, others + [response] + later).events
  {
    OthersKeepAwaiting(t, r, n, others);
    InboundAllConcat(t, others + [response], later);
    InboundAllAppend(t, others, response);
    TidsCycle(r);
    var before := InboundAll(t, others);
    var taken := Inbound(before, response);
    hide TidOf, InboundAll;
    assert taken.events[|before.events|] == Responded(r, response);
    InboundAllKeepsEvents(taken, later);
  }

  /**
   Of the frames read while a request is pending, the first that carries its id is the response its caller gets,
   whatever else happens in between, as long as fewer than seven further requests are prepared and nobody cancels its
   id.
   */
  lemma {:induction false} AnswerIsFound(
    crc: Hdlc.Crc, h: Host, actions: seq<Action>, r: Request, n: nat,
    others: seq<Frame>, response: Frame, later: seq<Frame>)
    requires Awaits(h.table, r, n) && Within(actions, TidOf(r), n) && Answers(response, TidOf(r))
    requires forall k :: 0 <= k < |others| ==> !Answers(others[k], TidOf(r))
    requires FeedAll(crc, h.receiver, Chunks(actions)).1 == others + [response] + later
    ensures Responded(r, response) in DoAll(crc, h, actions).table.events
    decreases |actions|
  {
    hide Feed, Awaits, InboundAll, Apply, TidOf, Answers;
    assert actions != [];
    WithinFirst(actions, TidOf(r), n);
    var rest := actions[1..];
    var next := Do(crc, h, actions[0]);
    hide Within;
    match actions[0] {
      case Work(op) =>
        assert [] + Chunks(rest) == Chunks(rest);
        WorkKeepsAwaiting(h.table, r, n, op);
        AnswerIsFound(crc, next, rest, r, if op.OpPrepare? then n - 1 else n, others, response, later);
      case Read(bytes) =>
        assert Chunks(actions)[0] == bytes && Chunks(actions)[1..] == Chunks(rest);
        var frames := Feed(crc, h.receiver, bytes).1;
        var more := FeedAll(crc, next.receiver, Chunks(rest)).1;
        if |frames| <= |others| {
          Prefix(frames, more, others, [response] + later);
          Associate3(others[|frames|..], [response], later);
          Associate3(others, [response], later);
          OthersKeepAwaiting(h.table, r, n, frames);
          AnswerIsFound(crc, next, rest, r, n, others[|frames|..], response, later);
        } else {
          Prefix(others + [response], later, frames, more);
          var after := frames[|others| + 1..];
          assert frames == others + [response] + after;
          AnswerIsTaken(h.table, r, n, others, response, after);
          DoAllKeepsEvents(crc, next, rest);
        }
    }
  }

  /** Of two ways to cut one sequence, the shorter front begins the longer. */
  lemma Prefix<T>(a: seq<T>, b: seq<T>, c: seq<T>, d: seq<T>)
    requires a + b == c + d && |a| <= |c|
    ensures a == c[..|a|] && b == c[|a|..] + d
  {
    assert a == (a + b)[..|a|] == (c + d)[..|a|];
    assert b == (a + b)[|a|..] == (c + d)[|a|..];
  }

  /**
   End to end: after a request is prepared, the first frame sent back that carries its id is the answer its caller gets,
   whatever else is sent before and after it, however the bytes are cut, and whatever other callers do in between within
   the window. Bytes left over from before must not happen to hold an answer.
   */
  lemma ResponseReachesCaller(
    crc: Hdlc.Crc, t: Table, st: Receiver, sent: Frame, actions: seq<Action>,
    others: seq<Frame>, response: Frame, later: seq<Frame>)
    requires t.nextTid == TidOf(t.issued) && Settled(st)
    requires sent == RequestFrame(t.nextTid, sent.commandId, sent.payload)
    requires var tid := Tid(sent.header.transactionId);
             && Answers(response, tid)
             && (forall f <- Decoded(crc, [st.buffer]) :: !Answers(f, tid))
             && (forall k :: 0 <= k < |others| ==> !Answers(others[k], tid))
             && Within(actions, tid, 6)
    requires forall f <- others + [response] + later :: WellFormed(f)
    requires Concat(Chunks(actions)) == WireAll(crc, others + [response] + later)
    ensures var after := DoAll(crc, Host(st, Prepare(t)), actions).table;
            && Responded(t.issued, response) in after.events
            && (Valid(t) ==> !IsPending(after, t.issued) && SettledOnce(after.events, t.issued))
  {
    var leftover := Decoded(crc, [st.buffer]);
    PreparedAwaits(t);
    hide Wire, WellFormed, Decoded, Feed, FeedAll, Awaits, TidOf, Answers, Within, Prepare, WireAll, Concat, DoAll;
    ReadAfterLeftover(crc, st, Chunks(actions), others + [response] + later);
    FourInARow(leftover, others, [response], later);
    AnswerIsFound(crc, Host(st, Prepare(t)), actions, t.issued, 6, leftover + others, response, later);
    if Valid(t) {
      PrepareKeepsValid(t);
      DoAllKeepsValid(crc, Host(st, Prepare(t)), actions);
      AnsweredIsSettled(DoAll(crc, Host(st, Prepare(t)), actions).table, t.issued, response);
    }
  }

  lemma {:induction false} DoAllKeepsValid(crc: Hdlc.Crc, h: Host, actions: seq<Action>)
    requires Valid(h.table)
    ensures Valid(DoAll(crc, h, actions).table)
    decreases |actions|
  {
    if actions != [] {
      hide Valid, Feed, Inbound, InboundAll, Apply;
      match actions[0] {
        case Read(bytes) => InboundAllKeepsValid(h.table, Feed(crc, h.receiver, bytes).1);
        case Work(op) => ApplyKeepsValid(h.table, op);
      }
      DoAllKeepsValid(crc, Do(crc, h, actions[0]), actions[1..]);
    }
  }

  lemma {:induction false} InboundAllKeepsValid(t: Table, frames: seq<Frame>)
    requires Valid(t)
    ensures Valid(InboundAll(t, frames))
    decreases |frames|
  {
    if frames != [] {
      InboundKeepsValid(t, frames[0]);
      hide Valid, Inbound;
      InboundAllKeepsValid(Inbound(t, frames[0]), frames[1..]);
    }
  }

  lemma AnsweredIsSettled(t: Table, r: Request, frame: Frame)
    requires Valid(t) && Responded(r, frame) in t.events
    ensures !IsPending(t, r) && SettledOnce(t.events, r)
  {
    assert FateKnown(t, r);
    hide IsPending, SettledOnce;
    assert Settles(Responded(r, frame), r);
  }

  lemma ReadAfterLeftover(crc: Hdlc.Crc, st: Receiver, chunks: seq<seq<byte>>, sent: seq<Frame>)
    requires Settled(st) && sent != []
    requires forall f <- sent :: WellFormed(f)
    requires Concat(chunks) == WireAll(crc, sent)
    ensures FeedAll(crc, st, chunks).1 == Decoded(crc, [st.buffer]) + sent
  {
    hide Wire, WellFormed, Decoded, Feed;
    ChunkInvariance(crc, st, chunks);
    FeedWireAll(crc, st, sent);
  }

  lemma FourInARow<T>(a: seq<T>, b: seq<T>, c: seq<T>, d: seq<T>)
    ensures a + (b + c + d) == a + b + c + d
  {
  }

  lemma PreparedAwaits(t: Table)
    requires t.nextTid == TidOf(t.issued)
    ensures Awaits(Prepare(t), t.issued, 6)
  {
    TidsCycle(t.issued);
    hide TidOf, NextTid;
  }

  /**
   A whole call. The request arrives; the other end answers under the id it read; and of all that is sent back the first
   frame with that id is the answer the caller gets.
   */
  lemma CallIsAnswered(
    crc: Hdlc.Crc, t: Table, st: Receiver, commandId: byte, payload: seq<byte>, chunks: seq<seq<byte>>, received: Frame,
    actions: seq<Action>, others: seq<Frame>, response: Frame, later: seq<Frame>)
    requires t.nextTid == TidOf(t.issued) && payload != [] && Settled(st)
    requires Concat(chunks) == Wire(crc, RequestFrame(t.nextTid, commandId, payload))
    requires FeedAll(crc, FRESH, chunks).1 == [received]
    requires var tid := Tid(received.header.transactionId);
             && Answers(response, tid)
             && (forall f <- Decoded(crc, [st.buffer]) :: !Answers(f, tid))
             && (forall k :: 0 <= k < |others| ==> !Answers(others[k], tid))
             && Within(actions, tid, 6)
    requires forall f <- others + [response] + later :: WellFormed(f)
    requires Concat(Chunks(actions)) == WireAll(crc, others + [response] + later)
    ensures Responded(t.issued, response) in DoAll(crc, Host(st, Prepare(t)), actions).table.events
  {
    hide Wire, WellFormed, Decoded, Feed, FeedAll, TidOf, Within, Prepare, WireAll, Concat, DoAll;
    RequestArrives(crc, t, commandId, payload, chunks);
    var sent := RequestFrame(t.nextTid, commandId, payload);
    ResponseReachesCaller(crc, t, st, sent, actions, others, response, later);
  }

  // Property updates

  /** The unsolicited frame that tells the value of a property: transaction 0, command 6, packed property id, value. */
  predicate IsUpdate(frame: Frame, property: PropertyId, value: seq<byte>) {
    && frame.header.transactionId == 0 && frame.commandId == 6
    && property.value < 0x20_0000
    && frame.payload == Packed21.Encode(property.value) + value
  }

  /** An update goes, once, to the channel registered for its property, and nowhere when there is none. */
  lemma UpdateIsDelivered(t: Table, frame: Frame, property: PropertyId, value: seq<byte>)
    requires IsUpdate(frame, property, value)
    ensures var u := Inbound(t, frame);
            && u.pending == t.pending && u.listeners == t.listeners
            && u.events == if property in t.listeners
                           then t.events + [PropertyUpdate(t.listeners[property], property, value)]
                           else t.events
  {
    Packed21.RoundTrip(property.value, value);
    hide Packed21.Encode, Packed21.Decode;
  }

  /** What a frame announces about a property, if anything. */
  function Announces(frame: Frame, property: PropertyId): seq<seq<byte>> {
    if frame.header.transactionId != 0 || frame.commandId != 6 then []
    else match Packed21.Decode(frame.payload)
      case Some((id, value)) => if id == property.value then [value] else []
      case None => []
  }

  /** An update announces its value about its own property and nothing about any other. */
  lemma UpdateAnnounces(frame: Frame, property: PropertyId, value: seq<byte>, other: PropertyId)
    requires IsUpdate(frame, property, value)
    ensures Announces(frame, other) == if other == property then [value] else []
  {
    Packed21.RoundTrip(property.value, value);
    hide Packed21.Encode, Packed21.Decode;
  }

  function Announced(frames: seq<Frame>, property: PropertyId): seq<seq<byte>>
    decreases |frames|
  {
    if frames == [] then [] else Announces(frames[0], property) + Announced(frames[1..], property)
  }

  /** The updates of a property among events: which channel got which value. */
  function Delivered(events: seq<Event>, property: PropertyId): seq<(Channel, seq<byte>)>
    decreases |events|
  {
    if events == [] then []
    else
      var n := |events| - 1;
      Delivered(events[..n], property) +
      match events[n]
      case PropertyUpdate(channel, p, value) => if p == property then [(channel, value)] else []
      case _ => []
  }

  function To(channel: Channel, values: seq<seq<byte>>): seq<(Channel, seq<byte>)> {
    seq(|values|, k requires 0 <= k < |values| => (channel, values[k]))
  }

  lemma DeliveredMore(events: seq<Event>, e: Event, property: PropertyId)
    ensures Delivered(events + [e], property) ==
            Delivered(events, property) +
            match e
            case PropertyUpdate(channel, p, value) => (if p == property then [(channel, value)] else [])
            case _ => []
  {
    assert (events + [e])[..|events|] == events;
  }

  lemma InboundDelivers(t: Table, frame: Frame, property: PropertyId)
    requires property in t.listeners
    ensures var u := Inbound(t, frame);
            && u.listeners == t.listeners
            && Delivered(u.events, property) ==
               Delivered(t.events, property) + To(t.listeners[property], Announces(frame, property))
  {
    hide Packed21.Decode, Delivered;
    var u := Inbound(t, frame);
    assert Delivered(t.events, property) + [] == Delivered(t.events, property);
    if u.events != t.events {
      var e := u.events[|t.events|];
      assert u.events == t.events + [e];
      DeliveredMore(t.events, e, property);
    }
  }

  lemma ToConcat(channel: Channel, a: seq<seq<byte>>, b: seq<seq<byte>>)
    ensures To(channel, a + b) == To(channel, a) + To(channel, b)
  {
  }

  lemma {:induction false} InboundAllDelivers(t: Table, frames: seq<Frame>, property: PropertyId)
    requires property in t.listeners
    ensures var u := InboundAll(t, frames);
            && u.listeners == t.listeners
            && Delivered(u.events, property) ==
               Delivered(t.events, property) + To(t.listeners[property], Announced(frames, property))
    decreases |frames|
  {
    var c := t.listeners[property];
    if frames == [] {
      assert Delivered(t.events, property) + To(c, []) == Delivered(t.events, property);
    } else {
      InboundDelivers(t, frames[0], property);
      hide Inbound, Delivered, Announces, To;
      InboundAllDelivers(Inbound(t, frames[0]), frames[1..], property);
      ToConcat(c, Announces(frames[0], property), Announced(frames[1..], property));
      Associate3(Delivered(t.events, property), To(c, Announces(frames[0], property)),
                 To(c, Announced(frames[1..], property)));
    }
  }

  lemma {:induction false} AnnouncedConcat(a: seq<Frame>, b: seq<Frame>, property: PropertyId)
    ensures Announced(a + b, property) == Announced(a, property) + Announced(b, property)
    decreases |a|
  {
    hide Announces;
    if a == [] {
      assert a + b == b;
    } else {
      assert (a + b)[1..] == a[1..] + b;
      AnnouncedConcat(a[1..], b, property);
      Associate3(Announces(a[0], property), Announced(a[1..], property), Announced(b, property));
    }
  }

  /** No other channel is registered for the property, and all frames come from the bytes read. */
  predicate LeavesListener(actions: seq<Action>, property: PropertyId) {
    forall k :: 0 <= k < |actions| && actions[k].Work? ==>
      !actions[k].op.OpInbound? && (actions[k].op.OpListen? ==> actions[k].op.property != property)
  }

  lemma WorkDelivers(t: Table, op: Op, property: PropertyId)
    requires property in t.listeners && !op.OpInbound? && (op.OpListen? ==> op.property != property)
    ensures var u := Apply(t, op);
            && property in u.listeners && u.listeners[property] == t.listeners[property]
            && Delivered(u.events, property) == Delivered(t.events, property)
  {
    hide Delivered;
    var u := Apply(t, op);
    if u.events != t.events {
      var e := u.events[|t.events|];
      assert u.events == t.events + [e];
      DeliveredMore(t.events, e, property);
      assert Delivered(t.events, property) + [] == Delivered(t.events, property);
    }
  }

  lemma {:induction false} ActionsDeliver(crc: Hdlc.Crc, h: Host, actions: seq<Action>, property: PropertyId)
    requires property in h.table.listeners && LeavesListener(actions, property)
    ensures Delivered(DoAll(crc, h, actions).table.events, property) ==
            Delivered(h.table.events, property) +
            To(h.table.listeners[property], Announced(FeedAll(crc, h.receiver, Chunks(actions)).1, property))
    decreases |actions|
  {
    var c := h.table.listeners[property];
    if actions == [] {
      assert Delivered(h.table.events, property) + To(c, []) == Delivered(h.table.events, property);
    } else {
      hide Feed, InboundAll, Apply, Delivered, To, Announced;
      var rest := actions[1..];
      var next := Do(crc, h, actions[0]);
      assert LeavesListener(rest, property);
      match actions[0] {
        case Work(op) =>
          assert [] + Chunks(rest) == Chunks(rest);
          WorkDelivers(h.table, op, property);
          ActionsDeliver(crc, next, rest, property);
        case Read(bytes) =>
          assert Chunks(actions)[0] == bytes && Chunks(actions)[1..] == Chunks(rest);
          var frames := Feed(crc, h.receiver, bytes).1;
          var more := FeedAll(crc, next.receiver, Chunks(rest)).1;
          InboundAllDelivers(h.table, frames, property);
          ActionsDeliver(crc, next, rest, property);
          AnnouncedConcat(frames, more, property);
          ToConcat(c, Announced(frames, property), Announced(more, property));
          Associate3(Delivered(h.table.events, property), To(c, Announced(frames, property)),
                     To(c, Announced(more, property)));
      }
    }
  }

  /**
   End to end: from its registration on, until another takes its place, a channel is given the value of every update of
   its property that is sent, each once and in order, whatever else is sent, however the bytes are cut, and whatever
   callers do in between.
   */
  lemma UpdatesReachChannel(
    crc: Hdlc.Crc, t: Table, st: Receiver, property: PropertyId, channel: Channel, actions: seq<Action>,
    sent: seq<Frame>)
    requires Settled(st) && sent != [] && Announced(Decoded(crc, [st.buffer]), property) == []
    requires forall f <- sent :: WellFormed(f)
    requires Concat(Chunks(actions)) == WireAll(crc, sent)
    requires LeavesListener(actions, property)
    ensures var after := DoAll(crc, Host(st, Apply(t, OpListen(property, channel))), actions).table;
            Delivered(after.events, property) ==
            Delivered(t.events, property) + To(channel, Announced(sent, property))
  {
    hide Wire, WellFormed, Decoded, Feed, FeedAll, WireAll, Concat, DoAll, Delivered, Announced, To, LeavesListener;
    ReadAfterLeftover(crc, st, Chunks(actions), sent);
    AnnouncedConcat(Decoded(crc, [st.buffer]), sent, property);
    assert [] + Announced(sent, property) == Announced(sent, property);
    ActionsDeliver(crc, Host(st, Apply(t, OpListen(property, channel))), actions, property);
  }
}
