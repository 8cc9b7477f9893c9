/** The shared protocol object: the receive buffer and the request table, updated in place. */
module SpinelProtocol {
  import opened Bytes
  import Hdlc
  import SpinelStream
  import Packed21
  import RequestTable
  import opened SpinelFrame

  class SpinelProtocol {
    const crc: Hdlc.Crc

    var buffer: seq<byte>
    var ignoringUntilNextFlag: bool
    var nextTid: RequestTable.Tid
    var pendingFrames: map<RequestTable.Tid, RequestTable.Request>
    var propertyUpdateReceivers: map<RequestTable.PropertyId, RequestTable.Channel>

    /** How many response channels have been made; a channel is named by its number. */
    var issued: nat
    /** What has been done to channels so far. */
    var events: seq<RequestTable.Event>

    function Receiver(): SpinelStream.Receiver
      reads this
    {
      SpinelStream.Receiver(buffer, ignoringUntilNextFlag)
    }

    function Table(): RequestTable.Table
      reads this
    {
      RequestTable.Table(issued, nextTid, pendingFrames, propertyUpdateReceivers, events)
    }

    constructor (crc: Hdlc.Crc)
      ensures this.crc == crc
      ensures Receiver() == SpinelStream.FRESH && Table() == RequestTable.NEW
    {
      this.crc := crc;
      buffer, ignoringUntilNextFlag := [], true;
      nextTid, pendingFrames, propertyUpdateReceivers := RequestTable.Tid(1), map[], map[];
      issued, events := 0, [];
    }

    method SetPropertyUpdateReceiver(property: RequestTable.PropertyId, tx: RequestTable.Channel)
      modifies this`propertyUpdateReceivers
      ensures Table() == RequestTable.Apply(old(Table()), RequestTable.OpListen(property, tx))
    {
      propertyUpdateReceivers := propertyUpdateReceivers[property := tx];
    }

    /** Besides what it returns, `payloads` names the decoded chunks it hands to the frame parser. */
    method ParseFramesFromBytesInto(bytes: seq<byte>, into: seq<Frame>)
      returns (frames: seq<Frame>, numParsedFrames: nat, ghost payloads: seq<seq<byte>>)
      modifies this`buffer, this`ignoringUntilNextFlag
      ensures var (receiver, parsed) := SpinelStream.Feed(crc, old(Receiver()), bytes);
              Receiver() == receiver && frames == into + parsed && numParsedFrames == |parsed|
      ensures payloads == SpinelStream.Payloads(crc, SpinelStream.Segments(old(buffer) + bytes))
    {
      hide SpinelStream.Segments, SpinelStream.Tail, SpinelStream.Payloads, SpinelStream.Frames;
      hide SpinelStream.FirstFlag, Hdlc.Decode, SpinelFrame.FromBytes;
      buffer := buffer + bytes;
      frames, numParsedFrames, payloads := into, 0, [];
      ghost var stream := buffer;
      SpinelStream.NoFrames();
      while true
        invariant SpinelStream.Tail(stream) == SpinelStream.Tail(buffer)
        invariant SpinelStream.Payloads(crc, SpinelStream.Segments(stream)) ==
                  payloads + SpinelStream.Payloads(crc, SpinelStream.Segments(buffer))
        invariant frames == into + SpinelStream.Frames(payloads)
        invariant numParsedFrames == |SpinelStream.Frames(payloads)|
        invariant ignoringUntilNextFlag ==> old(ignoringUntilNextFlag) && buffer == stream
        invariant !ignoringUntilNextFlag ==> !old(ignoringUntilNextFlag) || SpinelStream.HasFlag(stream)
        decreases |buffer|, ignoringUntilNextFlag
      {
        var index := SpinelStream.FirstFlag(buffer);
        if index == |buffer| {
          break;
        }
        if ignoringUntilNextFlag {
          ignoringUntilNextFlag := false;
          continue;
        }
        SpinelStream.PayloadsStep(crc, buffer);
        ghost var before := payloads;
        // Ignore consecutive flags
        if index > 0 {
          match Hdlc.Decode(crc, buffer[..index]) {
            case Err(_) =>
            case Ok(data) =>
              SpinelStream.FramesMore(payloads, data);
              payloads := payloads + [data];
              match SpinelFrame.FromBytes(data) {
                case Err(_) =>
                case Ok(frame) =>
                  frames := frames + [frame];
                  numParsedFrames := numParsedFrames + 1;
              }
          }
        }
        assert payloads == before + SpinelStream.PayloadOf(crc, buffer[..index]);
        Associate3(before, SpinelStream.PayloadOf(crc, buffer[..index]),
                   SpinelStream.Payloads(crc, SpinelStream.Segments(buffer[index + 1..])));
        buffer := buffer[index + 1..];
      }
      SpinelStream.NoFlagNoPayloads(crc, buffer);
      assert payloads + [] == payloads;
    }

    method ParseFramesFromBytes(bytes: seq<byte>) returns (frames: seq<Frame>)
      modifies this`buffer, this`ignoringUntilNextFlag
      ensures (Receiver(), frames) == SpinelStream.Feed(crc, old(Receiver()), bytes)
    {
      ghost var (_, parsed) := SpinelStream.Feed(crc, Receiver(), bytes);
      var n;
      ghost var payloads;
      frames, n, payloads := ParseFramesFromBytesInto(bytes, []);
      assert [] + parsed == parsed;
    }

    method HandleInboundBytes(bytes: seq<byte>)
      modifies this
      ensures var (receiver, frames) := SpinelStream.Feed(crc, old(Receiver()), bytes);
              Receiver() == receiver && Table() == RequestTable.InboundAll(old(Table()), frames)
    {
      hide RequestTable.Inbound, SpinelStream.Feed;
      var frames := ParseFramesFromBytes(bytes);
      ghost var before, received := Table(), Receiver();
      var i := 0;
      while i < |frames|
        invariant 0 <= i <= |frames|
        invariant Receiver() == received
        invariant Table() == RequestTable.InboundAll(before, frames[..i])
      {
        RequestTable.InboundAllAppend(before, frames[..i], frames[i]);
        assert frames[..i] + [frames[i]] == frames[..i + 1];
        HandleInboundFrame(frames[i]);
        i := i + 1;
      }
      assert frames[..i] == frames;
    }

    method HandleInboundFrame(frame: Frame)
      modifies this`pendingFrames, this`events
      ensures Table() == RequestTable.Inbound(old(Table()), frame)
      ensures var tid := RequestTable.Tid(frame.header.transactionId);
              && (tid.id == 0 ==> pendingFrames == old(pendingFrames))
              && (tid.id != 0 ==> pendingFrames == old(pendingFrames) - {tid})
              && (tid.id != 0 && tid in old(pendingFrames) ==>
                    events == old(events) + [RequestTable.Responded(old(pendingFrames)[tid], frame)])
    {
      var tid := RequestTable.Tid(frame.header.transactionId);
      if tid.id == 0 {
        if frame.commandId == RequestTable.PROP_VALUE_IS {
          var decoded := Packed21.Deserialize(frame.payload);
          match decoded {
            case Some((id, value)) =>
              var property := RequestTable.PropertyId(id);
              if property in propertyUpdateReceivers {
                var sender := propertyUpdateReceivers[property];
                events := events + [RequestTable.PropertyUpdate(sender, property, value)];
              }
            case None =>
          }
        }
      } else if tid in pendingFrames {
        var sender := pendingFrames[tid];
        pendingFrames := pendingFrames - {tid};
        events := events + [RequestTable.Responded(sender, frame)];
      }
    }

    method PrepareRequest(commandId: byte, payload: seq<byte>) returns (frame: Frame, rx: RequestTable.Request)
      modifies this`nextTid, this`pendingFrames, this`issued, this`events
      ensures Table() == RequestTable.Prepare(old(Table()))
      ensures rx == old(issued) && frame == RequestTable.RequestFrame(old(nextTid), commandId, payload)
      // the frame carries the id of the slot that now waits for its answer
      ensures var tid := RequestTable.Tid(frame.header.transactionId);
              pendingFrames == old(pendingFrames)[tid := rx] && tid == old(nextTid)
      ensures frame.header.flag == 2 && frame.header.networkLinkId == 0
      ensures frame.commandId == commandId && frame.payload == payload
    {
      // Cycle TIDs from 1..7
      var tid := nextTid;
      nextTid := RequestTable.NextTid(tid);
      frame := Frame(Header(2, 0, tid.id), commandId, payload);
      rx := issued;
      issued := issued + 1;
      if tid in pendingFrames {
        // Inserting over an entry drops its sender
        events := events + [RequestTable.Displaced(pendingFrames[tid])];
      }
      pendingFrames := pendingFrames[tid := rx];
    }

    method CancelRequest(tid: RequestTable.Tid)
      modifies this`pendingFrames, this`events
      ensures Table() == RequestTable.Cancel(old(Table()), tid)
      ensures pendingFrames == old(pendingFrames) - {tid}
    {
      if tid in pendingFrames {
        events := events + [RequestTable.Cancelled(pendingFrames[tid])];
        pendingFrames := pendingFrames - {tid};
      }
    }
  }
}
