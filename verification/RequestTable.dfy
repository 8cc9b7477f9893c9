/**
 The seven-slot table of outstanding Spinel requests. A request is named by its number in order of
 preparation; the number also stands for the one-shot channel made for its response. What happens to a
 channel (a response sent into it, or its sender dropped) is recorded in `events`.
 */
module RequestTable {
  import opened Bytes
  import opened SpinelFrame
  import Packed21

  type Request = nat

  /** The name of a channel registered for the updates of a property. */
  type Channel = nat

  datatype PropertyId = PropertyId(value: bv32)

  datatype Event =
    | Responded(request: Request, frame: Frame)
    | Displaced(request: Request)
    | Cancelled(request: Request)
    | PropertyUpdate(channel: Channel, propertyId: PropertyId, value: seq<byte>)

  /** A transaction id, the key of the table. */
  datatype Tid = Tid(id: byte)

  datatype Table = Table(
    issued: nat,
    nextTid: Tid,
    pending: map<Tid, Request>,
    listeners: map<PropertyId, Channel>,
    events: seq<Event>)

  const NEW: Table := Table(0, Tid(1), map[], map[], [])

  const PROP_VALUE_IS: byte := 6

  // The operations

  function NextTid(tid: Tid): Tid {
    Tid(1 + (tid.id % 7))
  }

  function RequestFrame(tid: Tid, commandId: byte, payload: seq<byte>): Frame {
    Frame(Header(2, 0, tid.id), commandId, payload)
  }

  function Prepare(t: Table): Table {
    t.(issued := t.issued + 1,
       nextTid := NextTid(t.nextTid),
       pending := t.pending[t.nextTid := t.issued],
       events := if t.nextTid in t.pending then t.events + [Displaced(t.pending[t.nextTid])] else t.events)
  }

  function Inbound(t: Table, frame: Frame): Table {
    var tid := Tid(frame.header.transactionId);
    if tid.id == 0 then
      if frame.commandId == PROP_VALUE_IS then
        match Packed21.Decode(frame.payload)
        case Some((id, value)) =>
          var property := PropertyId(id);
          if property in t.listeners
          then t.(events := t.events + [PropertyUpdate(t.listeners[property], property, value)])
          else t
        case None => t
      else t
    else if tid in t.pending then
      t.(pending := t.pending - {tid}, events := t.events + [Responded(t.pending[tid], frame)])
    else t
  }

  function Cancel(t: Table, tid: Tid): Table {
    if tid in t.pending then
      t.(pending := t.pending - {tid}, events := t.events + [Cancelled(t.pending[tid])])
    else t
  }

  function InboundAll(t: Table, frames: seq<Frame>): Table
    decreases |frames|
  {
    if frames == [] then t else InboundAll(Inbound(t, frames[0]), frames[1..])
  }

  lemma {:induction false} InboundAllAppend(t: Table, frames: seq<Frame>, frame: Frame)
    ensures InboundAll(t, frames + [frame]) == Inbound(InboundAll(t, frames), frame)
    decreases |frames|
  {
    hide Inbound;
    if frames == [] {
      assert (frames + [frame])[1..] == [];
    } else {
      assert (frames + [frame])[1..] == frames[1..] + [frame];
      InboundAllAppend(Inbound(t, frames[0]), frames[1..], frame);
    }
  }

  // Transaction ids

  /** The transaction id of the n-th request: 1 to 7 in turn. */
  function TidOf(n: nat): Tid {
    match n % 7
    case 0 => Tid(1)
    case 1 => Tid(2)
    case 2 => Tid(3)
    case 3 => Tid(4)
    case 4 => Tid(5)
    case 5 => Tid(6)
    case _ => Tid(7)
  }

  lemma TidsCycle(n: nat)
    ensures NextTid(TidOf(n)) == TidOf(n + 1)
    ensures 1 <= TidOf(n).id <= 7
  {
    TidSteps();
    hide NextTid;
    var m := n % 7;
    assert (n + 1) % 7 == if m == 6 then 0 else m + 1;
  }

  lemma TidSteps()
    ensures NextTid(Tid(1)) == Tid(2) && NextTid(Tid(2)) == Tid(3) && NextTid(Tid(3)) == Tid(4)
    ensures NextTid(Tid(4)) == Tid(5) && NextTid(Tid(5)) == Tid(6) && NextTid(Tid(6)) == Tid(7)
    ensures NextTid(Tid(7)) == Tid(1)
  {
  }

  lemma SameTid(m: nat, n: nat)
    ensures TidOf(m) == TidOf(n) <==> m % 7 == n % 7
  {
  }

  /** Within any seven consecutive numbers a transaction id names one request. */
  lemma TidUniqueInWindow(m: nat, n: nat, low: nat)
    requires low <= m < low + 7 && low <= n < low + 7 && TidOf(m) == TidOf(n)
    ensures m == n
  {
    SameTid(m, n);
  }

  // Conservation

  predicate Settles(e: Event, r: Request) {
    match e
    case Responded(q, _) => q == r
    case Displaced(q) => q == r
    case Cancelled(q) => q == r
    case PropertyUpdate(_, _, _) => false
  }

  predicate IsPending(t: Table, r: Request) {
    TidOf(r) in t.pending && t.pending[TidOf(r)] == r
  }

  /** No event settles `r`. */
  ghost predicate Unsettled(events: seq<Event>, r: Request) {
    forall i :: 0 <= i < |events| ==> !Settles(events[i], r)
  }

  /** Exactly one event settles `r`. */
  ghost predicate SettledOnce(events: seq<Event>, r: Request) {
    exists i :: 0 <= i < |events| && Settles(events[i], r) && Unsettled(events[..i], r) && Unsettled(events[i + 1..], r)
  }

  /** Slot `tid` may hold request `r`: it was sent with that id and fewer than seven have been prepared since. */
  predicate SlotHolds(issued: nat, tid: Tid, r: Request) {
    r < issued <= r + 7 && TidOf(r) == tid
  }

  ghost predicate SlotsInvariant(t: Table) {
    && t.nextTid == TidOf(t.issued)
    && forall tid :: tid in t.pending ==> SlotHolds(t.issued, tid, t.pending[tid])
  }

  ghost predicate FateKnown(t: Table, r: Request) {
    if r < t.issued && !IsPending(t, r) then SettledOnce(t.events, r) else Unsettled(t.events, r)
  }

  ghost predicate FatesInvariant(t: Table) {
    forall r: Request :: FateKnown(t, r)
  }

  ghost predicate ResponsesMatch(events: seq<Event>) {
    forall i :: 0 <= i < |events| && events[i].Responded? ==>
      Tid(events[i].frame.header.transactionId) == TidOf(events[i].request)
  }

  ghost predicate Valid(t: Table) {
    SlotsInvariant(t) && FatesInvariant(t) && ResponsesMatch(t.events)
  }

  lemma UnsettledAppend(events: seq<Event>, e: Event, r: Request)
    ensures Unsettled(events + [e], r) <==> Unsettled(events, r) && !Settles(e, r)
  {
    var more := events + [e];
    assert forall i :: 0 <= i < |events| ==> more[i] == events[i];
    assert more[|events|] == e;
  }

  lemma SettledOnceAppendOther(events: seq<Event>, e: Event, r: Request)
    requires SettledOnce(events, r) && !Settles(e, r)
    ensures SettledOnce(events + [e], r)
  {
    var i :| 0 <= i < |events| && Settles(events[i], r) && Unsettled(events[..i], r) && Unsettled(events[i + 1..], r);
    var more := events + [e];
    assert more[..i] == events[..i] && more[i + 1..] == events[i + 1..] + [e] && more[i] == events[i];
    UnsettledAppend(events[i + 1..], e, r);
  }

  lemma SettledOnceAppendFirst(events: seq<Event>, e: Event, r: Request)
    requires Unsettled(events, r) && Settles(e, r)
    ensures SettledOnce(events + [e], r)
  {
    var more := events + [e];
    assert more[..|events|] == events && more[|events| + 1..] == [] && more[|events|] == e;
  }

  /** Removing the pending request in slot `tid` and recording one event about it keeps the books. */
  lemma SettleKeepsFates(t: Table, tid: Tid, e: Event)
    requires Valid(t) && tid in t.pending
    requires Settles(e, t.pending[tid]) && forall r: nat :: r != t.pending[tid] ==> !Settles(e, r)
    requires e.Responded? ==> Tid(e.frame.header.transactionId) == tid
    ensures Valid(t.(pending := t.pending - {tid}, events := t.events + [e]))
  {
    var t' := t.(pending := t.pending - {tid}, events := t.events + [e]);
    forall r: Request
      ensures FateKnown(t', r)
    {
      SettleFate(t, tid, e, r);
    }
    ResponsesAppend(t.events, e);
  }

  lemma SettleFate(t: Table, tid: Tid, e: Event, r: Request)
    requires tid in t.pending && SlotHolds(t.issued, tid, t.pending[tid]) && FateKnown(t, r)
    requires Settles(e, t.pending[tid]) && (r != t.pending[tid] ==> !Settles(e, r))
    ensures FateKnown(t.(pending := t.pending - {tid}, events := t.events + [e]), r)
  {
    hide TidOf, Settles, Unsettled, SettledOnce;
    UnsettledAppend(t.events, e, r);
    if r == t.pending[tid] {
      SettledOnceAppendFirst(t.events, e, r);
    } else if r < t.issued && !IsPending(t, r) {
      SettledOnceAppendOther(t.events, e, r);
    }
  }

  lemma ResponsesAppend(events: seq<Event>, e: Event)
    requires ResponsesMatch(events)
    requires e.Responded? ==> Tid(e.frame.header.transactionId) == TidOf(e.request)
    ensures ResponsesMatch(events + [e])
  {
    hide TidOf;
    var more := events + [e];
    assert forall i :: 0 <= i < |events| ==> more[i] == events[i];
  }

  lemma PrepareKeepsValid(t: Table)
    requires Valid(t)
    ensures Valid(Prepare(t))
  {
    TidsCycle(t.issued);
    var tid := t.nextTid;
    if tid in t.pending {
      var q := t.pending[tid];
      SettleKeepsFates(t, tid, Displaced(q));
      var emptied := t.(pending := t.pending - {tid}, events := t.events + [Displaced(q)]);
      assert Prepare(t).pending == emptied.pending[tid := t.issued];
      IssueKeepsValid(emptied);
      assert Prepare(t) == Issue(emptied);
    } else {
      IssueKeepsValid(t);
      assert Prepare(t) == Issue(t);
    }
  }

  /** Preparing into a free slot. */
  function Issue(t: Table): Table {
    t.(issued := t.issued + 1, nextTid := NextTid(t.nextTid), pending := t.pending[t.nextTid := t.issued])
  }

  lemma IssueKeepsValid(t: Table)
    requires Valid(t) && t.nextTid !in t.pending
    ensures Valid(Issue(t))
  {
    TidsCycle(t.issued);
    var t' := Issue(t);
    hide TidOf, NextTid;
    forall tid | tid in t'.pending
      ensures SlotHolds(t'.issued, tid, t'.pending[tid])
    {
      if tid != t.nextTid && t.pending[tid] + 7 == t.issued {
        SameTid(t.pending[tid], t.issued);
      }
    }
    forall r: Request
      ensures FateKnown(t', r)
    {
      IssueFate(t, r);
    }
  }

  lemma IssueFate(t: Table, r: Request)
    requires t.nextTid == TidOf(t.issued) && t.nextTid !in t.pending
    requires FateKnown(t, r)
    ensures FateKnown(Issue(t), r)
  {
    hide TidOf, NextTid, Unsettled, SettledOnce;
    assert r < t.issued ==> (IsPending(Issue(t), r) <==> IsPending(t, r));
  }

  lemma InboundKeepsValid(t: Table, frame: Frame)
    requires Valid(t)
    ensures Valid(Inbound(t, frame))
  {
    var tid := Tid(frame.header.transactionId);
    if tid.id != 0 {
      if tid in t.pending {
        SettleKeepsFates(t, tid, Responded(t.pending[tid], frame));
      }
    } else if Inbound(t, frame) != t {
      NoteKeepsValid(t, Inbound(t, frame).events[|t.events|]);
    }
  }

  lemma NoteKeepsValid(t: Table, e: Event)
    requires Valid(t) && e.PropertyUpdate?
    ensures Valid(t.(events := t.events + [e]))
  {
    var t' := t.(events := t.events + [e]);
    forall r: Request
      ensures FateKnown(t', r)
    {
      NoteFate(t, e, r);
    }
    ResponsesAppend(t.events, e);
  }

  lemma NoteFate(t: Table, e: Event, r: Request)
    requires FateKnown(t, r) && e.PropertyUpdate?
    ensures FateKnown(t.(events := t.events + [e]), r)
  {
    hide TidOf, Unsettled, SettledOnce;
    UnsettledAppend(t.events, e, r);
    if r < t.issued && !IsPending(t, r) {
      SettledOnceAppendOther(t.events, e, r);
    }
  }

  lemma ListenKeepsValid(t: Table, listeners: map<PropertyId, Channel>)
    requires Valid(t)
    ensures Valid(t.(listeners := listeners))
  {
    var t' := t.(listeners := listeners);
    forall r: Request
      ensures FateKnown(t', r)
    {
      assert FateKnown(t, r);
    }
  }

  lemma CancelKeepsValid(t: Table, tid: Tid)
    requires Valid(t)
    ensures Valid(Cancel(t, tid))
  {
    if tid in t.pending {
      SettleKeepsFates(t, tid, Cancelled(t.pending[tid]));
    }
  }

  // Whole runs

  datatype Op =
    | OpPrepare
    | OpInbound(frame: Frame)
    | OpCancel(tid: Tid)
    | OpListen(property: PropertyId, channel: Channel)

  function Apply(t: Table, op: Op): Table {
    match op
    case OpPrepare => Prepare(t)
    case OpInbound(frame) => Inbound(t, frame)
    case OpCancel(tid) => Cancel(t, tid)
    case OpListen(property, channel) => t.(listeners := t.listeners[property := channel])
  }

  function Run(t: Table, ops: seq<Op>): Table
    decreases |ops|
  {
    if ops == [] then t else Run(Apply(t, ops[0]), ops[1..])
  }

  lemma ApplyKeepsValid(t: Table, op: Op)
    requires Valid(t)
    ensures Valid(Apply(t, op))
  {
    match op {
      case OpPrepare => PrepareKeepsValid(t);
      case OpInbound(frame) => InboundKeepsValid(t, frame);
      case OpCancel(tid) => CancelKeepsValid(t, tid);
      case OpListen(property, channel) => ListenKeepsValid(t, t.listeners[property := channel]);
    }
  }

  lemma {:induction false} RunKeepsValid(t: Table, ops: seq<Op>)
    requires Valid(t)
    ensures Valid(Run(t, ops))
    decreases |ops|
  {
    if ops != [] {
      ApplyKeepsValid(t, ops[0]);
      hide Valid, Apply;
      RunKeepsValid(Apply(t, ops[0]), ops[1..]);
    }
  }

  /**
   Conservation, for every interleaving of preparations, inbound frames and cancellations: each request ever
   prepared is either pending and untouched, or has been answered, displaced or cancelled exactly once; an
   answer carries the transaction id the request was sent with; slots stay within 1 to 7 and each holds the
   newest request sent with its id.
   */
  lemma Conservation(ops: seq<Op>)
    ensures var t := Run(NEW, ops);
            && 1 <= t.nextTid.id <= 7
            && (forall tid :: tid in t.pending ==>
                  1 <= tid.id <= 7 && IsPending(t, t.pending[tid]) && t.pending[tid] < t.issued)
            && (forall tid, r: Request :: tid in t.pending && r < t.issued && TidOf(r) == tid ==> r <= t.pending[tid])
            && (forall r: Request :: r < t.issued && IsPending(t, r) ==> Unsettled(t.events, r))
            && (forall r: Request :: r < t.issued && !IsPending(t, r) ==> SettledOnce(t.events, r))
            && (forall i :: 0 <= i < |t.events| && t.events[i].Responded? ==>
                  Tid(t.events[i].frame.header.transactionId) == TidOf(t.events[i].request))
  {
    NewIsValid();
    RunKeepsValid(NEW, ops);
    ValidMeans(Run(NEW, ops));
  }

  lemma NewIsValid()
    ensures Valid(NEW)
  {
  }

  lemma ValidMeans(t: Table)
    requires Valid(t)
    ensures 1 <= t.nextTid.id <= 7
    ensures forall tid :: tid in t.pending ==>
              1 <= tid.id <= 7 && IsPending(t, t.pending[tid]) && t.pending[tid] < t.issued
    ensures forall tid, r: Request :: tid in t.pending && r < t.issued && TidOf(r) == tid ==> r <= t.pending[tid]
    ensures forall r: Request :: r < t.issued && IsPending(t, r) ==> Unsettled(t.events, r)
    ensures forall r: Request :: r < t.issued && !IsPending(t, r) ==> SettledOnce(t.events, r)
  {
    TidsCycle(t.issued);
    hide TidOf, NextTid;
    forall tid, r: Request | tid in t.pending && r < t.issued && TidOf(r) == tid
      ensures r <= t.pending[tid]
    {
      assert SlotHolds(t.issued, tid, t.pending[tid]);
      SameTid(r, t.pending[tid]);
    }
    forall tid | tid in t.pending
      ensures 1 <= tid.id <= 7 && IsPending(t, t.pending[tid]) && t.pending[tid] < t.issued
    {
      assert SlotHolds(t.issued, tid, t.pending[tid]);
      TidsCycle(t.pending[tid]);
    }
    forall r: Request | r < t.issued
      ensures IsPending(t, r) ==> Unsettled(t.events, r)
      ensures !IsPending(t, r) ==> SettledOnce(t.events, r)
    {
      assert FateKnown(t, r);
    }
  }
}
