/** The second implementation of HDLC-Lite framing and of the receive loop, and its agreement with the first. */
module PythonSpinel {
  import opened Bytes
  import Hdlc
  import opened SpinelStream

  function Accepted(r: Result<seq<byte>, Hdlc.HdlcError>): Option<seq<byte>> {
    match r
    case Ok(data) => Some(data)
    case Err(_) => None
  }

  /** The last two elements, or all there is; and what comes before them. */
  function LastTwo(s: seq<byte>): seq<byte> {
    if |s| < 2 then s else s[|s| - 2..]
  }

  function ButLastTwo(s: seq<byte>): seq<byte> {
    if |s| < 2 then [] else s[..|s| - 2]
  }

  /** It accepts the same chunks as the first implementation, with the same data, though it never checks a length. */
  method FromBytes(crc: Hdlc.Crc, data: seq<byte>) returns (r: Option<seq<byte>>)
    ensures r == Accepted(Hdlc.Decode(crc, data))
  {
    var unescaped: seq<byte> := [];
    var unescaping := false;
    assert data[0..] == data;
    Hdlc.PrependedNothing(Hdlc.Unstuff(data, false));
    hide Hdlc.Toggle, Hdlc.Decode;
    for i := 0 to |data|
      invariant Hdlc.Unstuff(data, false) == Hdlc.Prepended(unescaped, Hdlc.Unstuff(data[i..], unescaping))
    {
      var b := data[i];
      assert data[i..][1..] == data[i + 1..];
      if unescaping {
        b := Hdlc.Toggle(b);
        if !Hdlc.IsSpecial(b) {
          NothingUnstuffed(crc, data);
          return None;
        }
        unescaping := false;
      } else if b == Hdlc.ESCAPE {
        unescaping := true;
        continue;
      } else if b == Hdlc.FLAG {
        continue;
      }
      Hdlc.PrependedConsed(unescaped, b, Hdlc.Unstuff(data[i + 1..], false));
      unescaped := unescaped + [b];
    }
    assert Hdlc.Unstuff(data, false) == Some(unescaped) by {
      assert unescaped + [] == unescaped;
    }

    var body := ButLastTwo(unescaped);
    var check := LastTwo(unescaped);
    var computed := Le16(crc(body));
    ChecksAgree(crc, data, unescaped);
    if computed != check {
      return None;
    }
    return Some(body);
  }

  lemma NothingUnstuffed(crc: Hdlc.Crc, data: seq<byte>)
    requires Hdlc.Unstuff(data, false) == None
    ensures Hdlc.Decode(crc, data).Err?
  {
  }

  /** Comparing check bytes accepts exactly what comparing lengths and then check values does. */
  lemma ChecksAgree(crc: Hdlc.Crc, data: seq<byte>, u: seq<byte>)
    requires Hdlc.Unstuff(data, false) == Some(u)
    ensures Accepted(Hdlc.Decode(crc, data)) ==
            if Le16(crc(ButLastTwo(u))) == LastTwo(u) then Some(ButLastTwo(u)) else None
  {
    Hdlc.UnstuffShrinks(data, false);
    hide Hdlc.Unstuff, Le16, FromLe16;
    if |u| >= 2 {
      var n := |u| - 2;
      Le16RoundTrip(crc(u[..n]));
      FromLe16RoundTrip(u[n], u[n + 1]);
      assert u[n..] == [u[n], u[n + 1]];
    }
  }

  method Serialize(crc: Hdlc.Crc, data: seq<byte>) returns (wire: seq<byte>)
    ensures wire == Hdlc.WithFlags(crc, data)
  {
    var payload := data + Le16(crc(data));
    var encoded: seq<byte> := [];
    assert payload[0..] == payload;
    hide Hdlc.Toggle, Hdlc.Stuff;
    for i := 0 to |payload|
      invariant encoded + Hdlc.Stuff(payload[i..]) == Hdlc.Stuff(payload)
    {
      var b := payload[i];
      Hdlc.StuffStep(encoded, payload, i);
      ghost var before := encoded;
      if Hdlc.IsSpecial(b) {
        encoded := encoded + [Hdlc.ESCAPE];
        b := Hdlc.Toggle(b);
      }
      encoded := encoded + [b];
      assert encoded == before + Hdlc.StuffByte(payload[i]);
    }
    Hdlc.StuffNothing();
    assert payload[|payload|..] == [];
    wire := [Hdlc.FLAG] + encoded + [Hdlc.FLAG];
  }

  /** One read, as a function: the payloads decoded and the bytes kept. */
  function Receive(crc: Hdlc.Crc, buffer: seq<byte>, data: seq<byte>): (seq<byte>, seq<seq<byte>>) {
    (Tail(buffer + data), Payloads(crc, Segments(buffer + data)))
  }

  class SpinelReceiver {
    const crc: Hdlc.Crc
    var buffer: seq<byte>
    /** The decoded payloads, in the order they were handed on. */
    var received: seq<seq<byte>>

    constructor (crc: Hdlc.Crc)
      ensures this.crc == crc && buffer == [] && received == []
    {
      this.crc, buffer, received := crc, [], [];
    }

    /** `raises(n, payload)`: handling the payload raises, when `n` payloads were handed on before it. */
    method DataReceived(raises: (nat, seq<byte>) -> bool, data: seq<byte>) returns (raised: bool)
      modifies this
      ensures |old(received)| <= |received| && received[..|old(received)|] == old(received)
      ensures Accounted(crc, old(buffer) + data, received[|old(received)|..], buffer)
      ensures RaisesFirstAt(raises, received, |old(received)|, raised)
      ensures !raised ==>
                var (rest, payloads) := Receive(crc, old(buffer), data);
                buffer == rest && received == old(received) + payloads
    {
      hide Segments, Tail, Payloads, PayloadOf, FirstFlag, HasFlag, Accounted, RaisesFirstAt, Accepted, Hdlc.Decode;
      buffer := buffer + data;
      ghost var stream, before := buffer, received;
      ghost var decoded: seq<seq<byte>> := [];
      NothingYet(crc, stream, raises, received);
      while buffer != []
        invariant Accounted(crc, stream, decoded, buffer)
        invariant received == before + decoded
        invariant RaisesFirstAt(raises, received, |before|, false)
        decreases |buffer|
      {
        var index := FirstFlag(buffer);
        if index == |buffer| {
          break;
        }
        var chunk := buffer[..index];
        AccountedStep(crc, stream, decoded, buffer);
        ghost var earlier := decoded;
        buffer := buffer[index + 1..];
        if chunk != [] {
          var frame := FromBytes(crc, chunk);
          if frame.Some? {
            RaisesMore(raises, received, |before|, frame.value);
            raised := raises(|received|, frame.value);
            received := received + [frame.value];
            decoded := decoded + [frame.value];
            if raised {
              PayloadsOfChunk(crc, chunk);
              assert received[|before|..] == decoded;
              return;
            }
          }
        }
        PayloadsOfChunk(crc, chunk);
        assert decoded == earlier + PayloadOf(crc, chunk);
      }
      AllReceived(crc, stream, decoded, buffer);
      assert received[|before|..] == decoded;
      raised := false;
    }
  }

  lemma NothingYet(crc: Hdlc.Crc, stream: seq<byte>, raises: (nat, seq<byte>) -> bool, received: seq<seq<byte>>)
    ensures Accounted(crc, stream, [], stream)
    ensures RaisesFirstAt(raises, received, |received|, false)
  {
    hide Segments, Payloads;
    assert [] + Payloads(crc, Segments(stream)) == Payloads(crc, Segments(stream));
  }

  lemma AccountedStep(crc: Hdlc.Crc, stream: seq<byte>, payloads: seq<seq<byte>>, buffer: seq<byte>)
    requires Accounted(crc, stream, payloads, buffer) && FirstFlag(buffer) < |buffer|
    ensures var i := FirstFlag(buffer);
            Accounted(crc, stream, payloads + PayloadOf(crc, buffer[..i]), buffer[i + 1..])
  {
    PayloadsStep(crc, buffer);
    hide Segments, Tail, Payloads, PayloadOf, FirstFlag;
    var i := FirstFlag(buffer);
    Associate3(payloads, PayloadOf(crc, buffer[..i]), Payloads(crc, Segments(buffer[i + 1..])));
  }

  lemma PayloadsOfChunk(crc: Hdlc.Crc, chunk: seq<byte>)
    ensures PayloadOf(crc, chunk) == match Accepted(Hdlc.Decode(crc, chunk)) case Some(data) => [data] case None => []
    ensures chunk == [] ==> PayloadOf(crc, chunk) == []
  {
  }

  lemma RaisesMore(raises: (nat, seq<byte>) -> bool, received: seq<seq<byte>>, start: nat, payload: seq<byte>)
    requires RaisesFirstAt(raises, received, start, false) && start <= |received|
    ensures RaisesFirstAt(raises, received + [payload], start, raises(|received|, payload))
  {
  }

  lemma AllReceived(crc: Hdlc.Crc, stream: seq<byte>, payloads: seq<seq<byte>>, buffer: seq<byte>)
    requires Accounted(crc, stream, payloads, buffer) && FirstFlag(buffer) == |buffer|
    ensures buffer == Tail(stream) && payloads == Payloads(crc, Segments(stream))
  {
    NoFlagNoPayloads(crc, buffer);
    hide Segments, Payloads, FirstFlag;
    assert payloads + [] == payloads;
  }

  /** What was handed on and what the buffer still holds are, in order, the payloads of the stream. */
  ghost predicate Accounted(crc: Hdlc.Crc, stream: seq<byte>, payloads: seq<seq<byte>>, buffer: seq<byte>) {
    && Payloads(crc, Segments(stream)) == payloads + Payloads(crc, Segments(buffer))
    && Tail(stream) == Tail(buffer)
  }

  /** Of the payloads from number `start` on, the last raises if `raised` says so, and no other does. */
  ghost predicate RaisesFirstAt(
    raises: (nat, seq<byte>) -> bool, received: seq<seq<byte>>, start: nat, raised: bool)
  {
    && (raised ==> |received| > start)
    && forall n: nat :: start <= n < |received| ==> (raises(n, received[n]) <==> raised && n == |received| - 1)
  }

  /** So an exception only delays: the next read takes up exactly where it struck. */
  lemma ExceptionsOnlyDelay(
    crc: Hdlc.Crc, stream: seq<byte>, payloads: seq<seq<byte>>, buffer: seq<byte>,
    data: seq<byte>, more: seq<seq<byte>>, rest: seq<byte>)
    requires Accounted(crc, stream, payloads, buffer)
    requires Accounted(crc, buffer + data, more, rest)
    ensures Accounted(crc, stream + data, payloads + more, rest)
  {
    hide Segments, Tail, Payloads;
    SegmentsConcat(stream, data);
    SegmentsConcat(buffer, data);
    PayloadsConcat(crc, Segments(stream), Segments(Tail(stream) + data));
    PayloadsConcat(crc, Segments(buffer), Segments(Tail(buffer) + data));
    Associate3(payloads, Payloads(crc, Segments(buffer)), Payloads(crc, Segments(Tail(buffer) + data)));
    Associate3(payloads, more, Payloads(crc, Segments(rest)));
  }

  function ReceiveAll(crc: Hdlc.Crc, buffer: seq<byte>, cuts: seq<seq<byte>>): (seq<byte>, seq<seq<byte>>)
    decreases |cuts|
  {
    if cuts == [] then (buffer, [])
    else
      var (buffer1, payloads) := Receive(crc, buffer, cuts[0]);
      var (buffer2, more) := ReceiveAll(crc, buffer1, cuts[1..]);
      (buffer2, payloads + more)
  }

  lemma {:induction false} SameReadsAgree(crc: Hdlc.Crc, st: Receiver, cuts: seq<seq<byte>>)
    ensures var (rust, frames) := FeedAll(crc, st, cuts);
            var (buffer, payloads) := ReceiveAll(crc, st.buffer, cuts);
            rust.buffer == buffer && frames == Frames(payloads)
    decreases |cuts|
  {
    if cuts != [] {
      var st1 := Feed(crc, st, cuts[0]).0;
      var payloads := Receive(crc, st.buffer, cuts[0]).1;
      SameReadsAgree(crc, st1, cuts[1..]);
      hide Segments, Tail, Payloads, Frames, HasFlag;
      FramesConcat(payloads, ReceiveAll(crc, st1.buffer, cuts[1..]).1);
    }
  }

  lemma {:induction false} SamePayloads(crc: Hdlc.Crc, st: Receiver, cuts: seq<seq<byte>>)
    ensures PayloadsAll(crc, st, cuts) == ReceiveAll(crc, st.buffer, cuts).1
    decreases |cuts|
  {
    if cuts != [] {
      SamePayloads(crc, Feed(crc, st, cuts[0]).0, cuts[1..]);
      hide Segments, Tail, Payloads, Frames, HasFlag, Decoded;
    }
  }

  /**
   Two receivers that start fresh and get the same bytes, in whatever reads each of them happens to get, hand the same
   payloads to their frame parsers in the same order and end with the same bytes buffered.
   */
  lemma {:induction false} ReceiversAgree(crc: Hdlc.Crc, cuts: seq<seq<byte>>, otherCuts: seq<seq<byte>>)
    requires Concat(cuts) == Concat(otherCuts)
    ensures var (buffer, payloads) := ReceiveAll(crc, [], otherCuts);
            && PayloadsAll(crc, FRESH, cuts) == payloads
            && FeedAll(crc, FRESH, cuts) == (Receiver(buffer, FeedAll(crc, FRESH, cuts).0.ignoring), Frames(payloads))
  {
    ChunkInvariance(crc, FRESH, cuts);
    ChunkInvariance(crc, FRESH, otherCuts);
    PayloadInvariance(crc, FRESH, cuts);
    PayloadInvariance(crc, FRESH, otherCuts);
    SameReadsAgree(crc, FRESH, otherCuts);
    SamePayloads(crc, FRESH, otherCuts);
    hide Feed, Payloads, Segments, Tail;
  }
}
