/**
 Concurrent callers of `send_command` around the shared table. Each caller prepares a request, writes it,
 then waits for its channel or the timeout; waking empty-handed it takes the lock again and cancels by
 transaction id. The steps below are the stretches between two points where another task may run.
 */
module SendCommand {
  import opened Bytes
  import opened SpinelFrame
  import opened RequestTable
  import Packed21

  datatype Wake = ChannelClosed | TimedOut

  datatype Outcome = Response(frame: Frame) | IoError | Failed(wake: Wake)

  datatype Phase = Writing | Waiting | Cancelling(wake: Wake) | Finished(outcome: Outcome)

  /** `callers[r]` is the caller of request `r`. */
  datatype System = System(table: Table, callers: seq<Phase>)

  const IDLE: System := System(NEW, [])

  datatype Step =
    | Start
    | Written(r: Request)
    | WriteFailed(r: Request)
    | Receive(frame: Frame)
    | TakeResponse(r: Request)
    | SeeClosed(r: Request)
    | TimeOut(r: Request)
    | CancelById(r: Request)

  /** The response in the channel of `r`, if one was sent. */
  function ResponseIn(events: seq<Event>, r: Request): Option<Frame> {
    if events == [] then None
    else if events[0].Responded? && events[0].request == r then Some(events[0].frame)
    else ResponseIn(events[1..], r)
  }

  predicate Settled(events: seq<Event>, r: Request) {
    exists i :: 0 <= i < |events| && Settles(events[i], r)
  }

  predicate Enabled(s: System, step: Step) {
    match step
    case Start => true
    case Receive(_) => true
    case Written(r) => r < |s.callers| && s.callers[r].Writing?
    case WriteFailed(r) => r < |s.callers| && s.callers[r].Writing?
    case TakeResponse(r) => r < |s.callers| && s.callers[r].Waiting? && ResponseIn(s.table.events, r).Some?
    case SeeClosed(r) =>
      r < |s.callers| && s.callers[r].Waiting? && Settled(s.table.events, r) && ResponseIn(s.table.events, r).None?
    case TimeOut(r) => r < |s.callers| && s.callers[r].Waiting? && !Settled(s.table.events, r)
    case CancelById(r) => r < |s.callers| && s.callers[r].Cancelling?
  }

  function Take(s: System, step: Step): System
    requires Enabled(s, step)
  {
    match step
    case Start => System(Prepare(s.table), s.callers + [Writing])
    case Receive(frame) => s.(table := Inbound(s.table, frame))
    case Written(r) => s.(callers := s.callers[r := Waiting])
    case WriteFailed(r) => s.(callers := s.callers[r := Finished(IoError)])
    case TakeResponse(r) => s.(callers := s.callers[r := Finished(Response(ResponseIn(s.table.events, r).value))])
    case SeeClosed(r) => s.(callers := s.callers[r := Cancelling(ChannelClosed)])
    case TimeOut(r) => s.(callers := s.callers[r := Cancelling(TimedOut)])
    case CancelById(r) => System(Cancel(s.table, TidOf(r)), s.callers[r := Finished(Failed(s.callers[r].wake))])
  }

  /** A run: the states passed through, one step between neighbours. */
  ghost predicate IsRun(run: seq<System>, steps: seq<Step>) {
    && |run| == |steps| + 1 && run[0] == IDLE
    && forall i :: 0 <= i < |steps| ==> Enabled(run[i], steps[i]) && run[i + 1] == Take(run[i], steps[i])
  }

  // Every run

  ghost predicate Consistent(s: System) {
    Valid(s.table) && |s.callers| == s.table.issued
  }

  lemma StepKeepsConsistent(s: System, step: Step)
    requires Consistent(s) && Enabled(s, step)
    ensures Consistent(Take(s, step))
  {
    hide Valid, Prepare, Inbound, Cancel, TidOf, ResponseIn, Settled;
    match step {
      case Start =>
        PrepareKeepsValid(s.table);
        PrepareIssues(s.table);
      case Receive(frame) =>
        InboundKeepsValid(s.table, frame);
        OthersDoNotIssue(s.table, frame, Tid(0));
      case CancelById(r) =>
        CancelKeepsValid(s.table, TidOf(r));
        OthersDoNotIssue(s.table, Frame(Header(0, 0, 0), 0, []), TidOf(r));
      case _ =>
    }
  }

  lemma PrepareIssues(t: Table)
    ensures Prepare(t).issued == t.issued + 1
  {
  }

  lemma OthersDoNotIssue(t: Table, frame: Frame, tid: Tid)
    ensures Inbound(t, frame).issued == t.issued && Cancel(t, tid).issued == t.issued
  {
  }

  lemma {:induction false} RunKeepsConsistent(run: seq<System>, steps: seq<Step>, i: nat)
    requires IsRun(run, steps) && i < |run|
    ensures Consistent(run[i])
    decreases i
  {
    if i == 0 {
      NewIsValid();
    } else {
      RunKeepsConsistent(run, steps, i - 1);
      StepKeepsConsistent(run[i - 1], steps[i - 1]);
    }
  }

  // What a caller gets

  /** How the caller of `r` may go on from one state to the next. */
  ghost predicate MovesOn(s: System, next: System, r: Request)
    requires r < |s.callers| && r < |next.callers|
  {
    match s.callers[r]
    case Writing => next.callers[r] == Waiting || next.callers[r] == Finished(IoError)
    case Waiting =>
      || (exists f: Frame :: Responded(r, f) in s.table.events && next.callers[r] == Finished(Response(f)))
      || (next.callers[r] == Cancelling(TimedOut) && !Settled(s.table.events, r))
      || (next.callers[r] == Cancelling(ChannelClosed)
          && (Displaced(r) in s.table.events || Cancelled(r) in s.table.events)
          && forall f: Frame :: Responded(r, f) !in s.table.events)
    case Cancelling(wake) => next.callers[r] == Finished(Failed(wake)) && TidOf(r) !in next.table.pending
    case Finished(_) => false
  }

  lemma {:induction false} ResponseInEvents(events: seq<Event>, r: Request)
    ensures ResponseIn(events, r).Some? ==> Responded(r, ResponseIn(events, r).value) in events
    ensures ResponseIn(events, r).None? ==> forall f: Frame :: Responded(r, f) !in events
    decreases |events|
  {
    if events != [] {
      ResponseInEvents(events[1..], r);
      assert events == [events[0]] + events[1..];
    }
  }

  lemma CancelRemoves(t: Table, tid: Tid)
    ensures tid !in Cancel(t, tid).pending
  {
  }

  lemma StepMovesOn(s: System, step: Step, r: Request)
    requires Enabled(s, step) && r < |s.callers|
    ensures |Take(s, step).callers| >= |s.callers|
    ensures Take(s, step).callers[r] == s.callers[r] || MovesOn(s, Take(s, step), r)
  {
    hide ResponseIn, TidOf, Prepare, Inbound, Cancel;
    ResponseInEvents(s.table.events, r);
    match step {
      case CancelById(q) => CancelRemoves(s.table, TidOf(q));
      case SeeClosed(q) =>
        if q == r {
          var k :| 0 <= k < |s.table.events| && Settles(s.table.events[k], r);
          ClosedBy(s.table.events, k, r);
        }
      case _ =>
    }
  }

  lemma ClosedBy(events: seq<Event>, k: nat, r: Request)
    requires k < |events| && Settles(events[k], r) && forall f: Frame :: Responded(r, f) !in events
    ensures Displaced(r) in events || Cancelled(r) in events
  {
    assert events[k] in events;
  }

  /**
   In every run a caller that has written and is waiting either returns a response that was taken for its own request,
   or gives up: on a timeout when nothing has settled the request, on a closed channel when it was displaced or
   cancelled. One that gave up removes the entry under its id and returns the reason. None ever changes its mind.
   */
  lemma CallersMoveOn(run: seq<System>, steps: seq<Step>, i: nat, r: Request)
    requires IsRun(run, steps) && i < |steps| && r < |run[i].callers|
    ensures r < |run[i + 1].callers|
    ensures run[i + 1].callers[r] == run[i].callers[r] || MovesOn(run[i], run[i + 1], r)
  {
    StepMovesOn(run[i], steps[i], r);
  }

  /** Once a response was taken for a waiting caller, returning that response is all it can do. */
  lemma AnsweredCallerReturns(s: System, r: Request, f: Frame)
    requires Consistent(s) && r < |s.callers| && s.callers[r].Waiting? && Responded(r, f) in s.table.events
    ensures Enabled(s, TakeResponse(r)) && Take(s, TakeResponse(r)).callers[r] == Finished(Response(f))
    ensures !Enabled(s, TimeOut(r)) && !Enabled(s, SeeClosed(r))
  {
    var events := s.table.events;
    ResponseInEvents(events, r);
    assert FateKnown(s.table, r);
    hide ResponseIn, TidOf, Prepare, Inbound, Cancel, FateKnown, Valid;
    var m :| 0 <= m < |events| && events[m] == Responded(r, f);
    assert Settles(events[m], r);
    SettledSomewhere(s.table, r, m);
    assert ResponseIn(events, r).Some?;
    var g := ResponseIn(events, r).value;
    var k :| 0 <= k < |events| && events[k] == Responded(r, g);
    assert Settles(events[k], r);
    SettledOnlyOnce(events, r, k, m);
  }

  lemma SettledSomewhere(t: Table, r: Request, k: nat)
    requires FateKnown(t, r) && k < |t.events| && Settles(t.events[k], r)
    ensures SettledOnce(t.events, r)
  {
    hide IsPending;
  }

  /** What a finished caller's outcome says about the past of its request. */
  ghost predicate OutcomeHolds(run: seq<System>, i: nat, r: Request)
    requires i < |run| && r < |run[i].callers|
  {
    match run[i].callers[r]
    case Finished(Response(f)) => Responded(r, f) in run[i].table.events
    case Finished(Failed(wake)) =>
      exists j :: 0 <= j < i && r < |run[j].callers| && run[j].callers[r] == Cancelling(wake)
    case Finished(IoError) => exists j :: 0 <= j < i && r < |run[j].callers| && run[j].callers[r] == Writing
    case _ => true
  }

  lemma StepKeepsEvents(s: System, step: Step)
    requires Enabled(s, step)
    ensures s.table.events <= Take(s, step).table.events
  {
    hide ResponseIn, TidOf, NextTid, Settled, Packed21.Decode;
  }

  lemma NewCallerWrites(s: System, step: Step, r: Request)
    requires Enabled(s, step) && |s.callers| <= r < |Take(s, step).callers|
    ensures Take(s, step).callers[r] == Writing
  {
    hide ResponseIn, TidOf, Prepare, Inbound, Cancel;
  }

  /**
   In every run: a returned response was taken for that very request; a returned failure was decided before; a write
   error follows writing.
   */
  lemma {:induction false} OutcomesHold(run: seq<System>, steps: seq<Step>, i: nat, r: Request)
    requires IsRun(run, steps) && i < |run| && r < |run[i].callers|
    ensures OutcomeHolds(run, i, r)
    decreases i
  {
    if i > 0 {
      hide Take, Enabled, Settled, TidOf;
      assert run[i] == Take(run[i - 1], steps[i - 1]);
      StepKeepsEvents(run[i - 1], steps[i - 1]);
      if r < |run[i - 1].callers| {
        OutcomesHold(run, steps, i - 1, r);
        CallersMoveOn(run, steps, i - 1, r);
      } else {
        NewCallerWrites(run[i - 1], steps[i - 1], r);
      }
    }
  }

  // Runs that keep the window

  /** When a request is prepared, the caller of the request seven before it has finished. */
  predicate InWindow(s: System) {
    |s.callers| >= 7 ==> s.callers[|s.callers| - 7].Finished?
  }

  ghost predicate KeepsWindow(run: seq<System>, steps: seq<Step>)
    requires IsRun(run, steps)
  {
    forall i :: 0 <= i < |steps| && steps[i].Start? ==> InWindow(run[i])
  }

  /** What the window guarantees about one caller. */
  ghost predicate CallerSafe(s: System, r: Request)
    requires r < |s.callers|
  {
    var phase, events := s.callers[r], s.table.events;
    && (r + 8 <= |s.callers| ==> phase.Finished?)
    // its channel is closed on it by nobody but itself
    && phase != Cancelling(ChannelClosed) && phase != Finished(Failed(ChannelClosed))
    && (!phase.Finished? ==> IsPending(s.table, r) || ResponseIn(events, r).Some?)
    && (phase.Finished? && !phase.outcome.IoError? ==> !IsPending(s.table, r))
    && (Displaced(r) in events ==> phase == Finished(IoError))
    && (Cancelled(r) in events ==> phase == Finished(Failed(TimedOut)))
  }

  ghost predicate WindowInvariant(s: System) {
    Consistent(s) && forall r: Request :: r < |s.callers| ==> CallerSafe(s, r)
  }

  lemma {:induction false} ResponseInAppend(events: seq<Event>, e: Event, r: Request)
    ensures ResponseIn(events + [e], r) ==
            if ResponseIn(events, r).Some? then ResponseIn(events, r)
            else if e.Responded? && e.request == r then Some(e.frame) else None
    decreases |events|
  {
    if events == [] {
      assert (events + [e])[1..] == [];
    } else {
      assert (events + [e])[1..] == events[1..] + [e];
      ResponseInAppend(events[1..], e, r);
    }
  }

  lemma {:induction false} ResponseSettles(events: seq<Event>, r: Request)
    requires ResponseIn(events, r).Some?
    ensures Settled(events, r)
    decreases |events|
  {
    if events[0].Responded? && events[0].request == r {
      assert Settles(events[0], r);
    } else {
      ResponseSettles(events[1..], r);
      var i :| 0 <= i < |events[1..]| && Settles(events[1..][i], r);
      assert Settles(events[i + 1], r);
    }
  }

  lemma PendingIsOpen(t: Table, r: Request)
    requires Valid(t) && (IsPending(t, r) || t.issued <= r)
    ensures !Settled(t.events, r) && ResponseIn(t.events, r).None?
    ensures Displaced(r) !in t.events && Cancelled(r) !in t.events
  {
    assert FateKnown(t, r);
    hide TidOf, ResponseIn;
    UnsettledOf(t, r);
    if ResponseIn(t.events, r).Some? {
      ResponseSettles(t.events, r);
    }
    if Displaced(r) in t.events {
      MentionSettles(t.events, Displaced(r), r);
    }
    if Cancelled(r) in t.events {
      MentionSettles(t.events, Cancelled(r), r);
    }
  }

  lemma MentionSettles(events: seq<Event>, e: Event, r: Request)
    requires e in events && Settles(e, r)
    ensures Settled(events, r)
  {
  }

  lemma UnsettledOf(t: Table, r: Request)
    requires FateKnown(t, r) && (IsPending(t, r) || t.issued <= r)
    ensures Unsettled(t.events, r)
  {
    hide TidOf;
  }

  lemma PendingIsIssued(t: Table, r: Request)
    requires Valid(t) && IsPending(t, r)
    ensures r < t.issued <= r + 7
  {
    hide TidOf;
    assert SlotHolds(t.issued, TidOf(r), t.pending[TidOf(r)]);
  }

  // One step, seen by one caller

  /** The only request a preparation can displace is the one seven before. */
  lemma DisplacedIsSevenBefore(t: Table)
    requires Valid(t) && t.nextTid in t.pending
    ensures t.pending[t.nextTid] + 7 == t.issued && IsPending(t, t.pending[t.nextTid])
  {
    hide TidOf, FatesInvariant, ResponsesMatch;
    var q := t.pending[t.nextTid];
    assert SlotHolds(t.issued, t.nextTid, q);
    SameTid(q, t.issued);
  }

  lemma StartIsSafe(s: System, r: Request)
    requires WindowInvariant(s) && InWindow(s) && r <= |s.callers|
    ensures CallerSafe(Take(s, Start), r)
  {
    var t := s.table;
    var t' := Prepare(t);
    hide TidOf, ResponseIn, Valid, NextTid;
    if r == t.issued {
      PendingIsOpen(t, r);
      StartedIsPending(t);
      if t.nextTid in t.pending {
        DisplacedIsSevenBefore(t);
        ResponseInAppend(t.events, Displaced(t.pending[t.nextTid]), r);
      }
    } else {
      assert CallerSafe(s, r);
      StartKeepsPending(t, r);
      if t.nextTid in t.pending {
        DisplacedIsSevenBefore(t);
        ResponseInAppend(t.events, Displaced(t.pending[t.nextTid]), r);
      }
    }
  }

  lemma StartedIsPending(t: Table)
    requires Valid(t)
    ensures IsPending(Prepare(t), t.issued)
  {
    hide TidOf, NextTid;
  }

  lemma StartKeepsPending(t: Table, r: Request)
    requires Valid(t) && r < t.issued
    ensures IsPending(Prepare(t), r) ==> IsPending(t, r)
    ensures IsPending(t, r) && !(t.nextTid in t.pending && t.pending[t.nextTid] == r) ==> IsPending(Prepare(t), r)
  {
    hide TidOf, NextTid;
  }

  /** Taking one entry out of the table and recording why. */
  function Without(t: Table, tid: Tid, e: Event): Table {
    t.(pending := t.pending - {tid}, events := t.events + [e])
  }

  lemma WithoutKeepsPending(t: Table, tid: Tid, e: Event, r: Request)
    requires Valid(t) && tid in t.pending
    ensures IsPending(Without(t, tid, e), r) <==> IsPending(t, r) && t.pending[tid] != r
  {
    hide TidOf;
    assert SlotHolds(t.issued, tid, t.pending[tid]);
  }

  lemma ReceiveIsSafe(s: System, frame: Frame, r: Request)
    requires WindowInvariant(s) && r < |s.callers|
    ensures CallerSafe(Take(s, Receive(frame)), r)
  {
    var t, tid := s.table, Tid(frame.header.transactionId);
    assert CallerSafe(s, r);
    if tid.id != 0 && tid in t.pending {
      var e := Responded(t.pending[tid], frame);
      assert Inbound(t, frame) == Without(t, tid, e);
      hide TidOf, ResponseIn, Valid, Inbound;
      WithoutKeepsPending(t, tid, e, r);
      ResponseInAppend(t.events, e, r);
    } else if Inbound(t, frame) != t {
      var e := Inbound(t, frame).events[|t.events|];
      assert Inbound(t, frame) == t.(events := t.events + [e]) && e.PropertyUpdate?;
      hide TidOf, ResponseIn, Valid, Inbound;
      ResponseInAppend(t.events, e, r);
    }
  }

  /** Under the window a cancel by id finds the caller's own entry or none. */
  lemma CancelFindsOwn(s: System, r: Request)
    requires WindowInvariant(s) && Enabled(s, CancelById(r))
    ensures TidOf(r) in s.table.pending ==> s.table.pending[TidOf(r)] == r
  {
    assert CallerSafe(s, r);
    if TidOf(r) in s.table.pending {
      var q := s.table.pending[TidOf(r)];
      assert SlotHolds(s.table.issued, TidOf(r), q);
      TidUniqueInWindow(q, r, if s.table.issued >= 7 then s.table.issued - 7 else 0);
    }
  }

  lemma CancelIsSafe(s: System, r: Request, q: Request)
    requires WindowInvariant(s) && Enabled(s, CancelById(r)) && q < |s.callers|
    ensures CallerSafe(Take(s, CancelById(r)), q)
  {
    var t, tid := s.table, TidOf(r);
    assert CallerSafe(s, q) && CallerSafe(s, r);
    CancelFindsOwn(s, r);
    match s.callers[r].wake {
      case ChannelClosed =>
      case TimedOut =>
    }
    if tid in t.pending {
      var e := Cancelled(r);
      assert Cancel(t, tid) == Without(t, tid, e);
      hide TidOf, ResponseIn, Valid, Cancel;
      WithoutKeepsPending(t, tid, e, q);
      ResponseInAppend(t.events, e, q);
    } else {
      assert Cancel(t, tid) == t && !IsPending(t, r);
    }
  }

  /** Under the window no caller ever finds its channel closed. */
  lemma NeverClosed(s: System, r: Request)
    requires WindowInvariant(s)
    ensures !Enabled(s, SeeClosed(r))
  {
    if Enabled(s, SeeClosed(r)) {
      assert CallerSafe(s, r);
      PendingIsOpen(s.table, r);
    }
  }

  lemma AnsweredIsNotPending(t: Table, r: Request)
    requires Valid(t) && ResponseIn(t.events, r).Some?
    ensures !IsPending(t, r)
  {
    if IsPending(t, r) {
      PendingIsOpen(t, r);
    }
  }

  lemma StepKeepsWindow(s: System, step: Step)
    requires WindowInvariant(s) && Enabled(s, step) && (step.Start? ==> InWindow(s))
    ensures WindowInvariant(Take(s, step))
  {
    StepKeepsConsistent(s, step);
    var s' := Take(s, step);
    hide TidOf, ResponseIn, Valid, Prepare, Inbound, Cancel;
    forall q: Request | q < |s'.callers|
      ensures CallerSafe(s', q)
    {
      match step {
        case Start => StartIsSafe(s, q);
        case Receive(frame) => ReceiveIsSafe(s, frame, q);
        case CancelById(r) => CancelIsSafe(s, r, q);
        case SeeClosed(r) => NeverClosed(s, r);
        case TakeResponse(r) =>
          assert CallerSafe(s, q);
          AnsweredIsNotPending(s.table, r);
        case _ =>
          assert CallerSafe(s, q);
      }
    }
  }

  lemma {:induction false} RunKeepsWindow(run: seq<System>, steps: seq<Step>, i: nat)
    requires IsRun(run, steps) && KeepsWindow(run, steps) && i < |run|
    ensures WindowInvariant(run[i])
    decreases i
  {
    if i == 0 {
      NewIsValid();
    } else {
      RunKeepsWindow(run, steps, i - 1);
      StepKeepsWindow(run[i - 1], steps[i - 1]);
    }
  }

  /**
   The window theorem. If every caller has finished before the seventh later request is prepared, then in every
   state of the run: no caller finds its channel closed, a cancel by id can only remove the caller's own entry,
   a request is cancelled only after its own caller timed out, and displaced only after its caller's write failed.
   When displacement happens is said exactly by `DisplacesExactly` and `DisplacedExactly` below.
   */
  lemma WindowTheorem(run: seq<System>, steps: seq<Step>, i: nat)
    requires IsRun(run, steps) && KeepsWindow(run, steps) && i < |run|
    ensures forall r: Request :: !Enabled(run[i], SeeClosed(r))
    ensures forall r: Request :: r < |run[i].callers| ==>
              run[i].callers[r] != Cancelling(ChannelClosed) && run[i].callers[r] != Finished(Failed(ChannelClosed))
    ensures forall r: Request :: Enabled(run[i], CancelById(r)) && TidOf(r) in run[i].table.pending ==>
              run[i].table.pending[TidOf(r)] == r
    ensures forall r: Request :: r < |run[i].callers| && Cancelled(r) in run[i].table.events ==>
              run[i].callers[r] == Finished(Failed(TimedOut))
    ensures forall r: Request :: r < |run[i].callers| && Displaced(r) in run[i].table.events ==>
              run[i].callers[r] == Finished(IoError)
  {
    RunKeepsWindow(run, steps, i);
    var s := run[i];
    forall r: Request
      ensures !Enabled(s, SeeClosed(r))
    {
      NeverClosed(s, r);
    }
    forall r: Request | Enabled(s, CancelById(r)) && TidOf(r) in s.table.pending
      ensures s.table.pending[TidOf(r)] == r
    {
      CancelFindsOwn(s, r);
    }
    forall r: Request | r < |s.callers|
      ensures s.callers[r] != Cancelling(ChannelClosed) && s.callers[r] != Finished(Failed(ChannelClosed))
      ensures Cancelled(r) in s.table.events ==> s.callers[r] == Finished(Failed(TimedOut))
      ensures Displaced(r) in s.table.events ==> s.callers[r] == Finished(IoError)
    {
      assert CallerSafe(s, r);
    }
  }

  // When an entry is displaced

  ghost predicate DisplacedAreOld(t: Table) {
    forall r: Request :: Displaced(r) in t.events ==> r + 7 < t.issued
  }

  lemma StepKeepsDisplacedOld(s: System, step: Step)
    requires Consistent(s) && Enabled(s, step) && DisplacedAreOld(s.table)
    ensures DisplacedAreOld(Take(s, step).table)
  {
    var t := s.table;
    hide TidOf, NextTid, Valid, ResponseIn, Settled;
    if step.Start? && t.nextTid in t.pending {
      DisplacedIsSevenBefore(t);
    }
    hide Packed21.Decode;
  }

  lemma {:induction false} RunKeepsDisplacedOld(run: seq<System>, steps: seq<Step>, i: nat)
    requires IsRun(run, steps) && i < |run|
    ensures DisplacedAreOld(run[i].table)
    decreases i
  {
    if i > 0 {
      RunKeepsConsistent(run, steps, i - 1);
      RunKeepsDisplacedOld(run, steps, i - 1);
      StepKeepsDisplacedOld(run[i - 1], steps[i - 1]);
    }
  }

  lemma {:induction false} RespondedIsIn(events: seq<Event>, i: nat, r: Request)
    requires i < |events| && events[i].Responded? && events[i].request == r
    ensures ResponseIn(events, r).Some?
    decreases i
  {
    if i > 0 {
      RespondedIsIn(events[1..], i - 1, r);
    }
  }

  lemma {:induction false} ResponseIsThere(events: seq<Event>, r: Request) returns (i: nat)
    requires ResponseIn(events, r).Some?
    ensures i < |events| && events[i].Responded? && events[i].request == r
    decreases |events|
  {
    if events[0].Responded? && events[0].request == r {
      i := 0;
    } else {
      i := ResponseIsThere(events[1..], r);
      i := i + 1;
    }
  }

  lemma SettledOnlyOnce(events: seq<Event>, r: Request, i: nat, j: nat)
    requires SettledOnce(events, r) && i < |events| && j < |events|
    requires Settles(events[i], r) && Settles(events[j], r)
    ensures i == j
  {
    var k :| 0 <= k < |events| && Settles(events[k], r)
             && Unsettled(events[..k], r) && Unsettled(events[k + 1..], r);
    NoneBefore(events, r, k);
    NoneAfter(events, r, k);
  }

  lemma NoneBefore(events: seq<Event>, r: Request, k: nat)
    requires k < |events| && Unsettled(events[..k], r)
    ensures forall m :: 0 <= m < k ==> !Settles(events[m], r)
  {
    assert forall m :: 0 <= m < k ==> events[m] == events[..k][m];
  }

  lemma NoneAfter(events: seq<Event>, r: Request, k: nat)
    requires k < |events| && Unsettled(events[k + 1..], r)
    ensures forall m :: k < m < |events| ==> !Settles(events[m], r)
  {
    assert forall m :: k < m < |events| ==> events[m] == events[k + 1..][m - k - 1];
  }

  /** A request whose write failed and that is no longer pending was either answered or displaced. */
  lemma AbandonedFate(s: System, r: Request)
    requires WindowInvariant(s) && r < |s.callers| && s.callers[r] == Finished(IoError) && !IsPending(s.table, r)
    ensures ResponseIn(s.table.events, r).None? <==> Displaced(r) in s.table.events
  {
    var events := s.table.events;
    assert CallerSafe(s, r) && FateKnown(s.table, r);
    hide Valid, ResponseIn, TidOf, Settled;
    assert SettledOnce(events, r);
    var k :| 0 <= k < |events| && Settles(events[k], r);
    if events[k].Responded? {
      RespondedIsIn(events, k, r);
      if Displaced(r) in events {
        var m :| 0 <= m < |events| && events[m] == Displaced(r);
        SettledOnlyOnce(events, r, k, m);
      }
    } else {
      assert events[k] in events;
      if ResponseIn(events, r).Some? {
        var m := ResponseIsThere(events, r);
        SettledOnlyOnce(events, r, k, m);
      }
    }
  }

  /**
   Within the window, preparing a request displaces an entry exactly when the request seven before it was abandoned
   by a failed write and nobody has answered it.
   */
  lemma DisplacesExactly(run: seq<System>, steps: seq<Step>, i: nat)
    requires IsRun(run, steps) && KeepsWindow(run, steps) && i < |steps| && steps[i].Start?
    ensures var s, q := run[i], |run[i].callers| - 7;
            s.table.nextTid in s.table.pending <==>
            q >= 0 && s.callers[q] == Finished(IoError) && ResponseIn(s.table.events, q).None?
  {
    RunKeepsWindow(run, steps, i);
    RunKeepsDisplacedOld(run, steps, i);
    var s, q := run[i], |run[i].callers| - 7;
    var t := s.table;
    assert InWindow(s);
    hide IsRun, KeepsWindow, TidOf, ResponseIn, Settled;
    if t.nextTid in t.pending {
      DisplacedIsSevenBefore(t);
      PendingIsOpen(t, q);
      assert CallerSafe(s, q);
    }
    if q >= 0 && s.callers[q] == Finished(IoError) && ResponseIn(t.events, q).None? {
      assert Displaced(q) !in t.events;
      SameTid(q, t.issued);
      if !IsPending(t, q) {
        AbandonedFate(s, q);
      }
    }
  }

  predicate AbandonedUnanswered(s: System, r: Request) {
    r + 7 < |s.callers| && s.callers[r] == Finished(IoError) && ResponseIn(s.table.events, r).None?
  }

  /** Within the window, exactly these have been displaced: abandoned, never answered, seven or more prepared since. */
  lemma DisplacedExactly(run: seq<System>, steps: seq<Step>, i: nat, r: Request)
    requires IsRun(run, steps) && KeepsWindow(run, steps) && i < |run|
    ensures Displaced(r) in run[i].table.events <==> AbandonedUnanswered(run[i], r)
  {
    RunKeepsWindow(run, steps, i);
    RunKeepsDisplacedOld(run, steps, i);
    var s := run[i];
    hide IsRun, KeepsWindow, TidOf, ResponseIn, Settled;
    if r + 7 < |s.callers| {
      if IsPending(s.table, r) {
        PendingIsIssued(s.table, r);
      }
      assert CallerSafe(s, r);
      if s.callers[r] == Finished(IoError) {
        AbandonedFate(s, r);
      }
    }
  }

  lemma {:induction false} WithoutWriteErrors(run: seq<System>, steps: seq<Step>, i: nat)
    requires IsRun(run, steps) && i < |run|
    requires forall j :: 0 <= j < |steps| ==> !steps[j].WriteFailed?
    ensures forall r: Request :: r < |run[i].callers| ==> run[i].callers[r] != Finished(IoError)
    decreases i
  {
    if i > 0 {
      WithoutWriteErrors(run, steps, i - 1);
      hide Prepare, Inbound, Cancel, ResponseIn;
      assert run[i] == Take(run[i - 1], steps[i - 1]);
    }
  }

  /** So nothing is displaced exactly when no such request exists; in particular when no write fails. */
  lemma NothingDisplaced(run: seq<System>, steps: seq<Step>, i: nat)
    requires IsRun(run, steps) && KeepsWindow(run, steps) && i < |run|
    ensures (forall r: Request :: Displaced(r) !in run[i].table.events) <==>
            (forall r: Request :: !AbandonedUnanswered(run[i], r))
    ensures (forall j :: 0 <= j < |steps| ==> !steps[j].WriteFailed?) ==>
              forall r: Request :: Displaced(r) !in run[i].table.events
  {
    var s := run[i];
    forall r: Request
      ensures Displaced(r) in s.table.events <==> AbandonedUnanswered(s, r)
    {
      DisplacedExactly(run, steps, i, r);
    }
    if forall j :: 0 <= j < |steps| ==> !steps[j].WriteFailed? {
      WithoutWriteErrors(run, steps, i);
      assert forall r: Request :: !AbandonedUnanswered(s, r);
    }
  }

  // Two runs from the beginning

  lemma StartBelowSeven(s: System)
    requires Consistent(s) && |s.callers| < 7
    ensures var s' := Take(s, Start);
            && Consistent(s') && s'.table.events == s.table.events && s'.callers == s.callers + [Writing]
            && forall r: Request :: r < |s.callers| && IsPending(s.table, r) ==> IsPending(s'.table, r)
  {
    var t := s.table;
    StepKeepsConsistent(s, Start);
    hide TidOf, NextTid;
    if t.nextTid in t.pending {
      DisplacedIsSevenBefore(t);
    }
    forall r: Request | r < |s.callers| && IsPending(t, r)
      ensures IsPending(Prepare(t), r)
    {
      StartKeepsPending(t, r);
    }
  }

  lemma FirstTwoSteps(first: Step)
    requires first == Written(0) || first == WriteFailed(0)
    ensures Enabled(IDLE, Start) && |IDLE.callers| == 0
    ensures var s1 := Take(IDLE, Start);
            && Enabled(s1, first) && |s1.callers| == 1
            && var s2 := Take(s1, first);
            && Consistent(s2) && |s2.callers| == 1 && s2.table.events == [] && IsPending(s2.table, 0)
            && s2.callers[0] == if first.Written? then Waiting else Finished(IoError)
  {
    NewIsValid();
    StartBelowSeven(IDLE);
    StartedIsPending(NEW);
    StepKeepsConsistent(Take(IDLE, Start), first);
    hide IsPending, Valid, Prepare;
  }

  /** A run that keeps the window and has prepared `n` requests, the oldest still pending and its caller in `phase`. */
  ghost predicate OldestIs(run: seq<System>, steps: seq<Step>, n: nat, phase: Phase) {
    && IsRun(run, steps) && KeepsWindow(run, steps) && Last(run, n, phase)
  }

  ghost predicate Last(run: seq<System>, n: nat, phase: Phase)
    requires run != []
  {
    var s := run[|run| - 1];
    && n > 0 && Consistent(s) && |s.callers| == n && s.table.events == []
    && IsPending(s.table, 0) && s.callers[0] == phase
  }

  lemma ExtendRun(run: seq<System>, steps: seq<Step>, step: Step)
    requires IsRun(run, steps) && KeepsWindow(run, steps)
    requires var s := run[|run| - 1]; Enabled(s, step) && (step.Start? ==> InWindow(s))
    ensures var longer, more := run + [Take(run[|run| - 1], step)], steps + [step];
            IsRun(longer, more) && KeepsWindow(longer, more)
  {
    hide Take, Enabled, InWindow;
    var longer, more := run + [Take(run[|run| - 1], step)], steps + [step];
    assert forall i :: 0 <= i < |run| ==> longer[i] == run[i];
    assert forall i :: 0 <= i < |steps| ==> more[i] == steps[i];
    assert IsRun(longer, more);
  }

  lemma StartRun(first: Step) returns (run: seq<System>, steps: seq<Step>)
    requires first == Written(0) || first == WriteFailed(0)
    ensures OldestIs(run, steps, 1, if first.Written? then Waiting else Finished(IoError))
  {
    FirstTwoSteps(first);
    hide Consistent, IsPending, Take, Enabled;
    run, steps := [IDLE], [];
    ExtendRun(run, steps, Start);
    run, steps := run + [Take(IDLE, Start)], steps + [Start];
    ExtendRun(run, steps, first);
    run, steps := run + [Take(run[|run| - 1], first)], steps + [first];
  }

  lemma {:induction false} OldestStays(first: Step, n: nat) returns (run: seq<System>, steps: seq<Step>)
    requires first == Written(0) || first == WriteFailed(0)
    requires 1 <= n <= 7
    ensures OldestIs(run, steps, n, if first.Written? then Waiting else Finished(IoError))
    decreases n
  {
    if n == 1 {
      run, steps := StartRun(first);
    } else {
      hide Consistent, IsPending, Take, IsRun, KeepsWindow;
      run, steps := OldestStays(first, n - 1);
      var s := run[|run| - 1];
      StartBelowSeven(s);
      ExtendRun(run, steps, Start);
      run, steps := run + [Take(s, Start)], steps + [Start];
    }
  }

  /**
   A run that keeps the window and displaces an entry all the same: the first request's write fails, and seven more
   are prepared.
   */
  lemma FailedWriteIsDisplaced() returns (run: seq<System>, steps: seq<Step>)
    ensures IsRun(run, steps) && KeepsWindow(run, steps) && Displaced(0) in run[|run| - 1].table.events
  {
    run, steps := OldestStays(WriteFailed(0), 7);
    var s := run[|run| - 1];
    hide Consistent, Take, IsRun, KeepsWindow;
    DisplacingStart(s);
    ExtendRun(run, steps, Start);
    run, steps := run + [Take(s, Start)], steps + [Start];
  }

  lemma DisplacingStart(s: System)
    requires Consistent(s) && |s.callers| == 7 && IsPending(s.table, 0)
    ensures Displaced(0) in Take(s, Start).table.events
  {
    SameTid(0, 7);
    assert s.table.nextTid == TidOf(0);
    hide TidOf, NextTid, Valid;
    assert Take(s, Start).table.events[|s.table.events|] == Displaced(0);
  }

  /**
   Outside the window the protection is gone: when the request seven back is still waiting, the next preparation
   displaces it, its caller then sees a closed channel, and its cancel removes the newer request from the table
   although nobody answered it and its own caller has not given up.
   */
  lemma OutsideWindow(s: System)
    requires Consistent(s) && |s.callers| >= 7
    requires var q := |s.callers| - 7; s.callers[q].Waiting? && IsPending(s.table, q)
    ensures var q := |s.callers| - 7;
            var s1 := Take(s, Start);
            && Displaced(q) in s1.table.events && Enabled(s1, SeeClosed(q))
            && var s2 := Take(s1, SeeClosed(q));
            && Enabled(s2, CancelById(q))
            && var s3 := Take(s2, CancelById(q));
            && Cancelled(q + 7) in s3.table.events && s3.callers[q + 7].Writing? && !IsPending(s3.table, q + 7)
  {
    var t := s.table;
    var q := |s.callers| - 7;
    assert t.nextTid == TidOf(q) by {
      SameTid(q, t.issued);
    }
    PendingIsOpen(t, q);
    var s1 := Take(s, Start);
    var e := Displaced(q);
    assert s1.table.events == t.events + [e];
    ResponseInAppend(t.events, e, q);
    hide ResponseIn;
    assert Settles(s1.table.events[|t.events|], q);
    var s2 := Take(s1, SeeClosed(q));
    assert s2.table.pending[TidOf(q)] == q + 7;
    var s3 := Take(s2, CancelById(q));
    assert s3.table.events == s1.table.events + [Cancelled(q + 7)];
    assert s3.table.events[|s1.table.events|] == Cancelled(q + 7);
    SameTid(q, q + 7);
  }

  /** And such a state is reached: the first caller waits while six more requests are prepared. */
  lemma OutsideWindowIsReached() returns (run: seq<System>, steps: seq<Step>)
    ensures IsRun(run, steps) && KeepsWindow(run, steps)
    ensures var s := run[|run| - 1];
            Consistent(s) && |s.callers| == 7 && s.callers[0].Waiting? && IsPending(s.table, 0) && !InWindow(s)
  {
    hide Consistent, IsPending, IsRun, KeepsWindow, Take;
    run, steps := OldestStays(Written(0), 7);
  }
}
