/**
 The inbound Spinel byte stream as a value: flag-terminated segments, the flag-free tail, the frames they
 decode to, and what a receiver sees however the bytes are cut into reads.
 */
module SpinelStream {
  import opened Bytes
  import Hdlc
  import opened SpinelFrame

  // Segmentation

  /** The position of the first flag, or the length when there is none. */
  function FirstFlag(s: seq<byte>): (i: nat)
    ensures i <= |s|
    ensures forall k :: 0 <= k < i ==> s[k] != Hdlc.FLAG
    ensures i < |s| ==> s[i] == Hdlc.FLAG
  {
    if s == [] || s[0] == Hdlc.FLAG then 0 else 1 + FirstFlag(s[1..])
  }

  predicate HasFlag(s: seq<byte>) {
    FirstFlag(s) < |s|
  }

  function Segments(s: seq<byte>): seq<seq<byte>>
    decreases |s|
  {
    if HasFlag(s) then [s[..FirstFlag(s)]] + Segments(s[FirstFlag(s) + 1..]) else []
  }

  function Tail(s: seq<byte>): seq<byte>
    decreases |s|
  {
    if HasFlag(s) then Tail(s[FirstFlag(s) + 1..]) else s
  }

  lemma SegmentsStep(s: seq<byte>, i: nat)
    requires i < |s| && s[i] == Hdlc.FLAG && FlagFree(s[..i])
    ensures HasFlag(s) && FirstFlag(s) == i
    ensures Segments(s) == [s[..i]] + Segments(s[i + 1..]) && Tail(s) == Tail(s[i + 1..])
  {
    assert FirstFlag(s) == i by {
      assert forall k :: 0 <= k < i ==> s[..i][k] == s[k];
    }
  }

  lemma FirstFlagSplits(s: seq<byte>)
    requires HasFlag(s)
    ensures var i := FirstFlag(s); s[i] == Hdlc.FLAG && FlagFree(s[..i])
  {
  }

  ghost predicate FlagFree(s: seq<byte>) {
    forall k :: 0 <= k < |s| ==> s[k] != Hdlc.FLAG
  }

  ghost predicate AllFlagFree(segments: seq<seq<byte>>) {
    forall k :: 0 <= k < |segments| ==> FlagFree(segments[k])
  }

  function Join(segments: seq<seq<byte>>): seq<byte> {
    if segments == [] then [] else segments[0] + [Hdlc.FLAG] + Join(segments[1..])
  }

  lemma {:induction false} SegmentsOfJoin(segments: seq<seq<byte>>, tail: seq<byte>)
    requires AllFlagFree(segments) && FlagFree(tail)
    ensures Segments(Join(segments) + tail) == segments && Tail(Join(segments) + tail) == tail
    decreases |segments|
  {
    if segments == [] {
      assert Join(segments) + tail == tail;
    } else {
      var first, rest := segments[0], Join(segments[1..]) + tail;
      assert Join(segments) == first + [Hdlc.FLAG] + Join(segments[1..]);
      hide Segments, Tail, FirstFlag, HasFlag, Join;
      Associate3(first + [Hdlc.FLAG], Join(segments[1..]), tail);
      SegmentsOfJoin(segments[1..], tail);
      FirstSegment(first, rest);
      assert segments == [first] + segments[1..];
    }
  }

  lemma FirstSegment(first: seq<byte>, rest: seq<byte>)
    requires FlagFree(first)
    ensures Segments(first + [Hdlc.FLAG] + rest) == [first] + Segments(rest)
    ensures Tail(first + [Hdlc.FLAG] + rest) == Tail(rest)
  {
    hide Segments, Tail, FirstFlag, HasFlag;
    var s := first + [Hdlc.FLAG] + rest;
    assert s[..|first|] == first && s[|first| + 1..] == rest;
    SegmentsStep(s, |first|);
  }

  lemma JoinStep(first: seq<byte>, rest: seq<seq<byte>>)
    ensures Join([first] + rest) == first + [Hdlc.FLAG] + Join(rest)
  {
    assert ([first] + rest)[1..] == rest;
  }

  lemma {:induction false} JoinOfSegments(s: seq<byte>)
    ensures Join(Segments(s)) + Tail(s) == s
    ensures AllFlagFree(Segments(s)) && FlagFree(Tail(s))
    decreases |s|
  {
    if HasFlag(s) {
      var i := FirstFlag(s);
      FirstFlagSplits(s);
      SegmentsStep(s, i);
      JoinOfSegments(s[i + 1..]);
      hide *;
      JoinMore(s, i, Segments(s[i + 1..]), Tail(s));
    } else {
      assert [] + s == s;
    }
  }

  lemma JoinMore(s: seq<byte>, i: nat, rest: seq<seq<byte>>, tail: seq<byte>)
    requires i < |s| && s[i] == Hdlc.FLAG && FlagFree(s[..i])
    requires Join(rest) + tail == s[i + 1..] && AllFlagFree(rest)
    ensures Join([s[..i]] + rest) + tail == s && AllFlagFree([s[..i]] + rest)
  {
    JoinStep(s[..i], rest);
    hide Join;
    Associate3(s[..i] + [Hdlc.FLAG], Join(rest), tail);
    assert s == s[..i] + [Hdlc.FLAG] + s[i + 1..];
  }

  /**
   Segments and tail are the one way to read a stream as flag-free pieces, each closed by a flag, and a flag-free rest.
   */
  lemma SegmentationIsUnique(s: seq<byte>, segments: seq<seq<byte>>, tail: seq<byte>)
    ensures (Segments(s) == segments && Tail(s) == tail) <==>
            (s == Join(segments) + tail && FlagFree(tail) && AllFlagFree(segments))
  {
    JoinOfSegments(s);
    if s == Join(segments) + tail && FlagFree(tail) && AllFlagFree(segments) {
      SegmentsOfJoin(segments, tail);
    }
  }

  lemma {:induction false} SegmentsConcat(a: seq<byte>, b: seq<byte>)
    ensures Segments(a + b) == Segments(a) + Segments(Tail(a) + b)
    ensures Tail(a + b) == Tail(Tail(a) + b)
    decreases |a|
  {
    if HasFlag(a) {
      var i := FirstFlag(a);
      FirstFlagSplits(a);
      SegmentsStep(a, i);
      SegmentsConcat(a[i + 1..], b);
      hide *;
      assert (a + b)[..i] == a[..i] && (a + b)[i + 1..] == a[i + 1..] + b;
      SegmentsStep(a + b, i);
      Associate3([a[..i]], Segments(a[i + 1..]), Segments(Tail(a) + b));
    } else {
      assert [] + Segments(a + b) == Segments(a + b);
    }
  }

  // Decoding

  /** The HDLC payloads of the segments that decode, in order. Empty segments come from repeated flags. */
  function Payloads(crc: Hdlc.Crc, segments: seq<seq<byte>>): seq<seq<byte>> {
    if segments == [] then [] else PayloadOf(crc, segments[0]) + Payloads(crc, segments[1..])
  }

  function PayloadOf(crc: Hdlc.Crc, segment: seq<byte>): seq<seq<byte>> {
    match Hdlc.Decode(crc, segment)
    case Ok(data) => [data]
    case Err(_) => []
  }

  function Frames(payloads: seq<seq<byte>>): seq<Frame> {
    if payloads == [] then [] else FrameOf(payloads[0]) + Frames(payloads[1..])
  }

  function FrameOf(payload: seq<byte>): seq<Frame> {
    match FromBytes(payload)
    case Ok(frame) => [frame]
    case Err(_) => []
  }

  lemma {:induction false} PayloadsConcat(crc: Hdlc.Crc, a: seq<seq<byte>>, b: seq<seq<byte>>)
    ensures Payloads(crc, a + b) == Payloads(crc, a) + Payloads(crc, b)
    decreases |a|
  {
    hide PayloadOf;
    if a == [] {
      assert a + b == b;
    } else {
      assert (a + b)[1..] == a[1..] + b;
      PayloadsConcat(crc, a[1..], b);
    }
  }

  lemma {:induction false} FramesConcat(a: seq<seq<byte>>, b: seq<seq<byte>>)
    ensures Frames(a + b) == Frames(a) + Frames(b)
    decreases |a|
  {
    hide FrameOf;
    if a == [] {
      assert a + b == b;
    } else {
      assert (a + b)[1..] == a[1..] + b;
      FramesConcat(a[1..], b);
    }
  }

  function Decoded(crc: Hdlc.Crc, segments: seq<seq<byte>>): seq<Frame> {
    Frames(Payloads(crc, segments))
  }

  lemma DecodedConcat(crc: Hdlc.Crc, a: seq<seq<byte>>, b: seq<seq<byte>>)
    ensures Decoded(crc, a + b) == Decoded(crc, a) + Decoded(crc, b)
  {
    PayloadsConcat(crc, a, b);
    FramesConcat(Payloads(crc, a), Payloads(crc, b));
  }

  /** What draining the first segment of a buffer leaves to decode. */
  lemma PayloadsStep(crc: Hdlc.Crc, s: seq<byte>)
    requires HasFlag(s)
    ensures var i := FirstFlag(s);
            && Payloads(crc, Segments(s)) == PayloadOf(crc, s[..i]) + Payloads(crc, Segments(s[i + 1..]))
            && Tail(s) == Tail(s[i + 1..])
            && (i == 0 ==> PayloadOf(crc, s[..i]) == [])
  {
    var i := FirstFlag(s);
    FirstFlagSplits(s);
    SegmentsStep(s, i);
    hide Segments, Tail, FirstFlag;
    assert ([s[..i]] + Segments(s[i + 1..]))[1..] == Segments(s[i + 1..]);
  }

  lemma NoFlagNoPayloads(crc: Hdlc.Crc, s: seq<byte>)
    requires !HasFlag(s)
    ensures Payloads(crc, Segments(s)) == [] && Tail(s) == s
  {
  }

  function DecodedOne(crc: Hdlc.Crc, segment: seq<byte>): seq<Frame> {
    match Hdlc.Decode(crc, segment)
    case Ok(data) => FrameOf(data)
    case Err(_) => []
  }

  lemma DecodedSingle(crc: Hdlc.Crc, segment: seq<byte>)
    ensures Decoded(crc, [segment]) == DecodedOne(crc, segment)
  {
    OnePayload(crc, segment);
    if Hdlc.Decode(crc, segment).Ok? {
      OneFrame(Hdlc.Decode(crc, segment).value);
    }
  }

  // The receiver

  datatype Receiver = Receiver(buffer: seq<byte>, ignoring: bool)

  const FRESH: Receiver := Receiver([], true)

  /**
   One read: everything up to the last flag is decoded, the rest waits. The ignoring mark is spent on the first flag
   seen.
   */
  function Feed(crc: Hdlc.Crc, st: Receiver, bytes: seq<byte>): (Receiver, seq<Frame>) {
    var s := st.buffer + bytes;
    (Receiver(Tail(s), st.ignoring && !HasFlag(s)), Decoded(crc, Segments(s)))
  }

  function FeedAll(crc: Hdlc.Crc, st: Receiver, chunks: seq<seq<byte>>): (Receiver, seq<Frame>)
    decreases |chunks|
  {
    if chunks == [] then (st, [])
    else
      var (st1, frames) := Feed(crc, st, chunks[0]);
      var (st2, more) := FeedAll(crc, st1, chunks[1..]);
      (st2, frames + more)
  }

  function Concat(chunks: seq<seq<byte>>): seq<byte> {
    if chunks == [] then [] else chunks[0] + Concat(chunks[1..])
  }

  lemma FeedTwice(crc: Hdlc.Crc, st: Receiver, a: seq<byte>, b: seq<byte>)
    ensures var (st1, f1) := Feed(crc, st, a);
            var (st2, f2) := Feed(crc, st1, b);
            Feed(crc, st, a + b) == (st2, f1 + f2)
  {
    var s := st.buffer + a;
    assert st.buffer + (a + b) == s + b;
    SegmentsConcat(s, b);
    DecodedConcat(crc, Segments(s), Segments(Tail(s) + b));
    HasFlagConcat(s, b);
    hide Decoded, Segments, Tail, HasFlag;
  }

  lemma HasFlagConcat(a: seq<byte>, b: seq<byte>)
    ensures HasFlag(a + b) <==> HasFlag(a) || HasFlag(Tail(a) + b)
  {
    if HasFlag(a) {
      var i := FirstFlag(a);
      assert (a + b)[i] == Hdlc.FLAG;
    }
  }

  /** A receiver between reads: what is buffered holds no flag. */
  ghost predicate Settled(st: Receiver) {
    FlagFree(st.buffer)
  }

  lemma FeedSettles(crc: Hdlc.Crc, st: Receiver, bytes: seq<byte>)
    ensures Settled(Feed(crc, st, bytes).0)
  {
    JoinOfSegments(st.buffer + bytes);
  }

  lemma FeedNothing(crc: Hdlc.Crc, st: Receiver)
    requires Settled(st)
    ensures Feed(crc, st, []) == (st, [])
  {
    assert st.buffer + [] == st.buffer;
  }

  /**
   However a byte stream is cut into reads, the frames, their order and the state left behind are those of a single
   read.
   */
  lemma {:induction false} ChunkInvariance(crc: Hdlc.Crc, st: Receiver, chunks: seq<seq<byte>>)
    requires Settled(st) || chunks != []
    ensures FeedAll(crc, st, chunks) == Feed(crc, st, Concat(chunks))
    decreases |chunks|
  {
    if chunks == [] {
      FeedNothing(crc, st);
    } else {
      var st1 := Feed(crc, st, chunks[0]).0;
      FeedSettles(crc, st, chunks[0]);
      ChunkInvariance(crc, st1, chunks[1..]);
      FeedTwice(crc, st, chunks[0], Concat(chunks[1..]));
    }
  }

  /** The payloads handed to the frame parser over successive reads. */
  function PayloadsAll(crc: Hdlc.Crc, st: Receiver, chunks: seq<seq<byte>>): seq<seq<byte>>
    decreases |chunks|
  {
    if chunks == [] then []
    else Payloads(crc, Segments(st.buffer + chunks[0])) + PayloadsAll(crc, Feed(crc, st, chunks[0]).0, chunks[1..])
  }

  /** They too do not depend on how the stream is cut. */
  lemma {:induction false} PayloadInvariance(crc: Hdlc.Crc, st: Receiver, chunks: seq<seq<byte>>)
    requires Settled(st) || chunks != []
    ensures PayloadsAll(crc, st, chunks) == Payloads(crc, Segments(st.buffer + Concat(chunks)))
    decreases |chunks|
  {
    if chunks == [] {
      assert st.buffer + [] == st.buffer;
    } else {
      var s, rest := st.buffer + chunks[0], Concat(chunks[1..]);
      FeedSettles(crc, st, chunks[0]);
      PayloadInvariance(crc, Feed(crc, st, chunks[0]).0, chunks[1..]);
      hide Segments, Payloads, Tail, HasFlag, Decoded, Settled;
      Associate3(st.buffer, chunks[0], rest);
      SegmentsConcat(s, rest);
      PayloadsConcat(crc, Segments(s), Segments(Tail(s) + rest));
    }
  }

  // Delivery

  function WireAll(crc: Hdlc.Crc, frames: seq<Frame>): seq<byte> {
    if frames == [] then [] else Wire(crc, frames[0]) + WireAll(crc, frames[1..])
  }

  /** A framed message read after flag-free bytes: the bytes before its opening flag, then its body. */
  lemma SegmentsOfWire(crc: Hdlc.Crc, before: seq<byte>, f: Frame)
    requires FlagFree(before)
    ensures Segments(before + Wire(crc, f)) == [before, Hdlc.Encode(crc, ToBytes(f))]
    ensures Tail(before + Wire(crc, f)) == []
  {
    var body := Hdlc.Encode(crc, ToBytes(f));
    Hdlc.EncodedBody(crc, ToBytes(f));
    hide Hdlc.Encode, ToBytes;
    var pieces := [before, body];
    assert FlagFree(body) by {
      assert forall k :: 0 <= k < |body| ==> body[k] in body;
    }
    assert pieces == [before] + [body] && [body] == [body] + [];
    JoinStep(body, []);
    JoinStep(before, [body]);
    assert Join(pieces) + [] == before + Wire(crc, f);
    SegmentsOfJoin(pieces, []);
  }

  lemma DecodedWire(crc: Hdlc.Crc, before: seq<byte>, f: Frame)
    requires WellFormed(f)
    ensures Decoded(crc, [before, Hdlc.Encode(crc, ToBytes(f))]) == Decoded(crc, [before]) + [f]
  {
    var body := Hdlc.Encode(crc, ToBytes(f));
    assert [before, body] == [before] + [body];
    DecodedConcat(crc, [before], [body]);
    Hdlc.DecodeEncode(crc, ToBytes(f));
    RoundTrip(f);
    OnePayload(crc, body);
    OneFrame(ToBytes(f));
  }

  lemma AtMostOneLeftover(crc: Hdlc.Crc, before: seq<byte>)
    ensures |Decoded(crc, [before])| <= 1
    ensures before == [] ==> Decoded(crc, [before]) == []
  {
    DecodedSingle(crc, before);
  }

  lemma OnePayload(crc: Hdlc.Crc, segment: seq<byte>)
    ensures Payloads(crc, [segment]) == PayloadOf(crc, segment)
  {
    hide PayloadOf;
    assert [segment][1..] == [];
    assert Payloads(crc, [segment]) == PayloadOf(crc, segment) + [];
  }

  lemma NoFrames()
    ensures Frames([]) == []
  {
  }

  lemma FramesMore(payloads: seq<seq<byte>>, payload: seq<byte>)
    ensures Frames(payloads + [payload]) == Frames(payloads) + FrameOf(payload)
  {
    FramesConcat(payloads, [payload]);
    OneFrame(payload);
  }

  lemma OneFrame(payload: seq<byte>)
    ensures Frames([payload]) == FrameOf(payload)
  {
    hide FrameOf;
    assert [payload][1..] == [];
    assert Frames([payload]) == FrameOf(payload) + [];
  }

  lemma FeedWire(crc: Hdlc.Crc, st: Receiver, f: Frame)
    requires Settled(st) && WellFormed(f)
    ensures Feed(crc, st, Wire(crc, f)) == (Receiver([], false), Decoded(crc, [st.buffer]) + [f])
  {
    SegmentsOfWire(crc, st.buffer, f);
    DecodedWire(crc, st.buffer, f);
    assert HasFlag(st.buffer + Wire(crc, f)) by {
      assert Segments(st.buffer + Wire(crc, f)) != [];
    }
  }

  lemma {:induction false} FeedWireAll(crc: Hdlc.Crc, st: Receiver, frames: seq<Frame>)
    requires Settled(st) && frames != []
    requires forall k :: 0 <= k < |frames| ==> WellFormed(frames[k])
    ensures Feed(crc, st, WireAll(crc, frames)) == (Receiver([], false), Decoded(crc, [st.buffer]) + frames)
    decreases |frames|
  {
    hide Wire, Feed, Decoded, WellFormed;
    FeedWire(crc, st, frames[0]);
    if |frames| == 1 {
      assert WireAll(crc, frames) == Wire(crc, frames[0]) by {
        assert frames[1..] == [];
      }
      assert frames == [frames[0]];
    } else {
      FeedWireAll(crc, Receiver([], false), frames[1..]);
      AtMostOneLeftover(crc, []);
      FeedTwice(crc, st, Wire(crc, frames[0]), WireAll(crc, frames[1..]));
      assert [] + frames[1..] == frames[1..];
      assert Decoded(crc, [st.buffer]) + [frames[0]] + frames[1..] == Decoded(crc, [st.buffer]) + frames;
    }
  }

  /**
   End to end: whatever a receiver has been through, the framed messages sent to it next come out in order
   and complete, in any chunking, after at most one frame made of bytes left from before.
   */
  lemma {:induction false} Delivery(crc: Hdlc.Crc, past: seq<seq<byte>>, frames: seq<Frame>, chunks: seq<seq<byte>>)
    requires forall k :: 0 <= k < |frames| ==> WellFormed(frames[k])
    requires frames != [] && Concat(chunks) == WireAll(crc, frames)
    ensures var st := FeedAll(crc, FRESH, past).0;
            var (end, out) := FeedAll(crc, st, chunks);
            && end == Receiver([], false)
            && exists leftover: seq<Frame> ::
                 |leftover| <= 1 && out == leftover + frames && (st.buffer == [] ==> leftover == [])
  {
    var st := FeedAll(crc, FRESH, past).0;
    ChunkInvariance(crc, FRESH, past);
    FeedSettles(crc, FRESH, Concat(past));
    ChunkInvariance(crc, st, chunks);
    FeedWireAll(crc, st, frames);
    AtMostOneLeftover(crc, st.buffer);
    var leftover := Decoded(crc, [st.buffer]);
    assert FeedAll(crc, st, chunks).1 == leftover + frames;
  }
}
