/**
 HDLC-Lite framing: byte stuffing as in section 4.2 of RFC 1662, with a 16-bit check sequence.
 The check function itself comes from a library; every statement here holds for any function `crc`.
 */
module Hdlc {
  import opened Bytes

  const FLAG: byte := 0x7E
  const ESCAPE: byte := 0x7D
  const XON: byte := 0x11
  const XOFF: byte := 0x13
  const VENDOR: byte := 0xF8

  type Crc = seq<byte> -> bv16

  datatype HdlcError = BadEscapeByte | InvalidCrc | BadLength

  predicate IsSpecial(b: byte) {
    b == FLAG || b == ESCAPE || b == XON || b == XOFF || b == VENDOR
  }

  function Toggle(b: byte): byte {
    b ^ 0x20
  }

  // The format

  function StuffByte(b: byte): seq<byte> {
    if IsSpecial(b) then [ESCAPE, Toggle(b)] else [b]
  }

  function Stuff(data: seq<byte>): seq<byte> {
    if data == [] then [] else StuffByte(data[0]) + Stuff(data[1..])
  }

  /**
   The bytes a chunk stands for; a raw flag stands for nothing, and an escape must be followed by a toggled special
   byte.
   */
  function Unstuff(chunk: seq<byte>, unescaping: bool): Option<seq<byte>>
    decreases |chunk|
  {
    if chunk == [] then
      Some([])
    else if unescaping then
      if IsSpecial(Toggle(chunk[0])) then Consed(Toggle(chunk[0]), Unstuff(chunk[1..], false)) else None
    else if chunk[0] == ESCAPE then
      Unstuff(chunk[1..], true)
    else if chunk[0] == FLAG then
      Unstuff(chunk[1..], false)
    else
      Consed(chunk[0], Unstuff(chunk[1..], false))
  }

  function Consed(b: byte, rest: Option<seq<byte>>): Option<seq<byte>> {
    match rest
    case None => None
    case Some(s) => Some([b] + s)
  }

  function Encode(crc: Crc, data: seq<byte>): seq<byte> {
    Stuff(data + Le16(crc(data)))
  }

  function WithFlags(crc: Crc, data: seq<byte>): seq<byte> {
    [FLAG] + Encode(crc, data) + [FLAG]
  }

  function Checked(crc: Crc, data: seq<byte>): Result<seq<byte>, HdlcError> {
    if |data| < 2 then Err(BadLength)
    else if crc(data[..|data| - 2]) != FromLe16(data[|data| - 2], data[|data| - 1]) then Err(InvalidCrc)
    else Ok(data[..|data| - 2])
  }

  function Decode(crc: Crc, bytes: seq<byte>): Result<seq<byte>, HdlcError> {
    if |bytes| < 2 then Err(BadLength)
    else match Unstuff(bytes, false)
      case None => Err(BadEscapeByte)
      case Some(data) => Checked(crc, data)
  }

  // The routines

  method FromBytes(crc: Crc, bytes: seq<byte>) returns (r: Result<seq<byte>, HdlcError>)
    ensures r == Decode(crc, bytes)
  {
    if |bytes| < 2 {
      return Err(BadLength);
    }
    var data: seq<byte> := [];
    var unescaping := false;
    var i := 0;
    assert bytes[0..] == bytes;
    PrependedNothing(Unstuff(bytes, false));
    hide Toggle;
    while i < |bytes|
      invariant 0 <= i <= |bytes|
      invariant Unstuff(bytes, false) == Prepended(data, Unstuff(bytes[i..], unescaping))
    {
      var resultByte := bytes[i];
      var keep := true;
      assert bytes[i..][1..] == bytes[i + 1..];
      if unescaping {
        resultByte := Toggle(resultByte);
        unescaping := false;
        if !IsSpecial(resultByte) {
          return Err(BadEscapeByte);
        }
      } else if resultByte == ESCAPE {
        unescaping := true;
        keep := false;
      } else if resultByte == FLAG {
        keep := false;
      }
      if keep {
        PrependedConsed(data, resultByte, Unstuff(bytes[i + 1..], false));
        data := data + [resultByte];
      }
      i := i + 1;
    }
    assert Unstuff(bytes, false) == Some(data) by {
      assert data + [] == data;
    }
    if |data| < 2 {
      return Err(BadLength);
    }
    if crc(data[..|data| - 2]) != FromLe16(data[|data| - 2], data[|data| - 1]) {
      return Err(InvalidCrc);
    }
    return Ok(data[..|data| - 2]);
  }

  function Prepended(data: seq<byte>, rest: Option<seq<byte>>): Option<seq<byte>> {
    match rest
    case None => None
    case Some(s) => Some(data + s)
  }

  lemma PrependedNothing(rest: Option<seq<byte>>)
    ensures Prepended([], rest) == rest
  {
    if rest.Some? {
      assert [] + rest.value == rest.value;
    }
  }

  lemma PrependedConsed(data: seq<byte>, b: byte, rest: Option<seq<byte>>)
    ensures Prepended(data, Consed(b, rest)) == Prepended(data + [b], rest)
  {
    if rest.Some? {
      assert data + ([b] + rest.value) == data + [b] + rest.value;
    }
  }

  method ToBytes(crc: Crc, data: seq<byte>) returns (result: seq<byte>)
    ensures result == Encode(crc, data)
  {
    var payload := data + Le16(crc(data));
    result := [];
    var i := 0;
    assert payload[0..] == payload;
    hide Toggle, Stuff;
    while i < |payload|
      invariant 0 <= i <= |payload|
      invariant result + Stuff(payload[i..]) == Stuff(payload)
    {
      var b := payload[i];
      StuffStep(result, payload, i);
      if IsSpecial(b) {
        ghost var before := result;
        result := result + [ESCAPE];
        result := result + [Toggle(b)];
        assert result == before + StuffByte(b);
      } else {
        result := result + [b];
      }
      i := i + 1;
    }
    assert Stuff(payload[i..]) == [] by {
      StuffNothing();
      assert payload[i..] == [];
    }
  }

  lemma StuffNothing()
    ensures Stuff([]) == []
  {
  }

  lemma StuffStep(result: seq<byte>, payload: seq<byte>, i: nat)
    requires i < |payload|
    ensures result + Stuff(payload[i..]) == result + StuffByte(payload[i]) + Stuff(payload[i + 1..])
  {
    hide Toggle;
    assert payload[i..][1..] == payload[i + 1..];
    assert Stuff(payload[i..]) == StuffByte(payload[i]) + Stuff(payload[i + 1..]);
  }

  method ToBytesWithFlags(crc: Crc, data: seq<byte>) returns (result: seq<byte>)
    ensures result == WithFlags(crc, data)
  {
    result := [FLAG];
    var body := ToBytes(crc, data);
    result := result + body;
    result := result + [FLAG];
  }

  // What stuffing promises

  lemma ToggleFacts(b: byte)
    ensures Toggle(Toggle(b)) == b
    ensures IsSpecial(b) ==> !IsSpecial(Toggle(b))
    ensures !IsSpecial(ESCAPE ^ 0x20)
  {
  }

  lemma {:induction false} UnstuffStuff(data: seq<byte>, suffix: seq<byte>)
    ensures Unstuff(Stuff(data) + suffix, false) == Prepended(data, Unstuff(suffix, false))
    decreases |data|
  {
    if data == [] {
      assert Stuff(data) + suffix == suffix;
      PrependedNothing(Unstuff(suffix, false));
    } else {
      var rest := Stuff(data[1..]) + suffix;
      StuffUnfolds(data);
      hide StuffByte, Unstuff, Stuff;
      Associate3(StuffByte(data[0]), Stuff(data[1..]), suffix);
      UnstuffStuff(data[1..], suffix);
      UnstuffStuffedByte(data[0], rest);
      ConsedPrepended(data, Unstuff(suffix, false));
    }
  }

  lemma StuffUnfolds(data: seq<byte>)
    requires data != []
    ensures Stuff(data) == StuffByte(data[0]) + Stuff(data[1..])
  {
    hide StuffByte;
  }

  lemma ConsedPrepended(data: seq<byte>, rest: Option<seq<byte>>)
    requires data != []
    ensures Consed(data[0], Prepended(data[1..], rest)) == Prepended(data, rest)
  {
    if rest.Some? {
      assert data + rest.value == [data[0]] + (data[1..] + rest.value);
    }
  }

  lemma UnstuffStuffedByte(b: byte, rest: seq<byte>)
    ensures Unstuff(StuffByte(b) + rest, false) == Consed(b, Unstuff(rest, false))
  {
    ToggleFacts(b);
    hide Toggle;
    var chunk := StuffByte(b) + rest;
    if IsSpecial(b) {
      assert chunk[1..] == [Toggle(b)] + rest;
      assert chunk[1..][1..] == rest;
    } else {
      assert chunk[1..] == rest;
    }
  }

  lemma {:induction false} StuffLength(data: seq<byte>)
    ensures |data| <= |Stuff(data)| <= 2 * |data|
    decreases |data|
  {
    if data != [] {
      StuffLength(data[1..]);
    }
  }

  lemma {:induction false} StuffIsClean(data: seq<byte>)
    ensures forall b :: b in Stuff(data) ==> b != FLAG && b != XON && b != XOFF && b != VENDOR
    decreases |data|
  {
    if data != [] {
      ToggleFacts(data[0]);
      hide Toggle;
      StuffIsClean(data[1..]);
    }
  }

  /** What is stuffed, and how: each of the five special bytes as the escape and a toggled byte, any other as itself. */
  lemma StuffedBytes(b: byte)
    ensures Stuff([b]) ==
            if b == 0x7E then [0x7D, 0x5E]
            else if b == 0x7D then [0x7D, 0x5D]
            else if b == 0x11 then [0x7D, 0x31]
            else if b == 0x13 then [0x7D, 0x33]
            else if b == 0xF8 then [0x7D, 0xD8]
            else [b]
  {
    assert [b][1..] == [];
    assert Stuff([b]) == StuffByte(b) + [];
  }

  /** Without special bytes there is nothing to stuff. */
  lemma {:induction false} PlainBytesStay(data: seq<byte>)
    requires forall k :: 0 <= k < |data| ==> !IsSpecial(data[k])
    ensures Stuff(data) == data
    decreases |data|
  {
    hide IsSpecial, StuffByte;
    if data != [] {
      PlainByte(data[0]);
      PlainBytesStay(data[1..]);
    }
  }

  lemma PlainByte(b: byte)
    requires !IsSpecial(b)
    ensures StuffByte(b) == [b]
  {
    hide IsSpecial, Toggle;
  }

  /** Decoding an encoding is the identity, for any data and any check function. */
  lemma DecodeEncode(crc: Crc, data: seq<byte>)
    ensures Decode(crc, Encode(crc, data)) == Ok(data)
  {
    var payload := data + Le16(crc(data));
    UnstuffStuff(payload, []);
    assert Stuff(payload) + [] == Stuff(payload) && payload + [] == payload;
    StuffLength(payload);
    Le16RoundTrip(crc(data));
    assert payload[..|payload| - 2] == data;
  }

  /** The encoded body never contains a flag or flow-control byte, and at most doubles. */
  lemma EncodedBody(crc: Crc, data: seq<byte>)
    ensures forall b :: b in Encode(crc, data) ==> b != FLAG && b != XON && b != XOFF && b != VENDOR
    ensures |data| + 2 <= |Encode(crc, data)| <= 2 * (|data| + 2)
  {
    StuffIsClean(data + Le16(crc(data)));
    StuffLength(data + Le16(crc(data)));
  }

  /** Exactly which chunks are accepted, and as what. */
  lemma DecodeExactly(crc: Crc, chunk: seq<byte>, data: seq<byte>)
    ensures Decode(crc, chunk) == Ok(data) <==> Unstuff(chunk, false) == Some(data + Le16(crc(data)))
  {
    UnstuffShrinks(chunk, false);
    Le16RoundTrip(crc(data));
    hide Le16, FromLe16;
    var payload := data + Le16(crc(data));
    assert payload[..|payload| - 2] == data;
    if Decode(crc, chunk) == Ok(data) {
      var u := Unstuff(chunk, false).value;
      FromLe16RoundTrip(u[|u| - 2], u[|u| - 1]);
      assert u == data + [u[|u| - 2], u[|u| - 1]];
    }
  }

  /** A wrong check value, whatever the data, is reported as such. */
  lemma WrongCheckIsRejected(crc: Crc, data: seq<byte>, check: bv16)
    ensures Decode(crc, Stuff(data + Le16(check))) == if check == crc(data) then Ok(data) else Err(InvalidCrc)
  {
    var payload := data + Le16(check);
    UnstuffStuff(payload, []);
    assert Stuff(payload) + [] == Stuff(payload) && payload + [] == payload;
    StuffLength(payload);
    Le16RoundTrip(check);
    hide Le16, FromLe16, Stuff;
    assert payload[..|payload| - 2] == data;
  }

  /** So is an escape before a byte that stands for no special one, wherever it is. */
  lemma BadEscapeIsRejected(crc: Crc, data: seq<byte>, b: byte, rest: seq<byte>)
    requires !IsSpecial(b ^ 0x20)
    ensures Decode(crc, Stuff(data) + ([0x7D, b] + rest)) == Err(BadEscapeByte)
  {
    var tail := [0x7D, b] + rest;
    UnstuffStuff(data, tail);
    assert tail[1..] == [b] + rest;
    assert Unstuff(tail, false) == None;
    StuffLength(data);
    hide Stuff, Unstuff;
  }

  /** And so is a chunk that cannot hold a check value. */
  lemma ShortIsRejected(crc: Crc, data: seq<byte>)
    requires |data| < 2
    ensures Decode(crc, Stuff(data)) == Err(BadLength)
  {
    UnstuffStuff(data, []);
    assert Stuff(data) + [] == Stuff(data) && data + [] == data;
    hide Stuff;
  }

  lemma {:induction false} UnstuffShrinks(chunk: seq<byte>, unescaping: bool)
    ensures Unstuff(chunk, unescaping).Some? ==> |Unstuff(chunk, unescaping).value| <= |chunk|
    decreases |chunk|
  {
    if chunk != [] {
      UnstuffShrinks(chunk[1..], false);
      UnstuffShrinks(chunk[1..], true);
    }
  }

  /** A chunk as a conforming sender writes it: no raw control byte, no escape left dangling at the end. */
  ghost predicate Conforming(chunk: seq<byte>) {
    && (forall k :: 0 <= k < |chunk| ==> !IsSpecial(chunk[k]) || chunk[k] == ESCAPE)
    && (chunk != [] ==> chunk[|chunk| - 1] != ESCAPE)
  }

  /** A conforming chunk is the stuffing of the bytes it stands for. */
  lemma {:induction false} StuffUnstuff(chunk: seq<byte>)
    requires Conforming(chunk) && Unstuff(chunk, false).Some?
    ensures Stuff(Unstuff(chunk, false).value) == chunk
    decreases |chunk|
  {
    if chunk == [] {
    } else if chunk[0] == ESCAPE {
      ToggleFacts(chunk[1]);
      hide Toggle;
      var b, rest := Toggle(chunk[1]), chunk[2..];
      assert chunk[1..][1..] == rest;
      assert Conforming(rest);
      StuffUnstuff(rest);
      StuffCons(b, Unstuff(rest, false).value);
      assert chunk == [ESCAPE, chunk[1]] + rest;
    } else {
      assert Conforming(chunk[1..]);
      StuffUnstuff(chunk[1..]);
      StuffCons(chunk[0], Unstuff(chunk[1..], false).value);
      assert chunk == [chunk[0]] + chunk[1..];
    }
  }

  lemma StuffCons(b: byte, rest: seq<byte>)
    ensures Stuff([b] + rest) == StuffByte(b) + Stuff(rest)
  {
    hide Toggle;
    assert ([b] + rest)[1..] == rest;
  }

  /** Among conforming chunks the encoding is the only one that decodes to given data. */
  lemma ConformingChunksAreEncodings(crc: Crc, chunk: seq<byte>, data: seq<byte>)
    requires Conforming(chunk)
    ensures Decode(crc, chunk) == Ok(data) <==> chunk == Encode(crc, data)
  {
    DecodeExactly(crc, chunk, data);
    DecodeEncode(crc, data);
    if Decode(crc, chunk) == Ok(data) {
      StuffUnstuff(chunk);
    }
  }
}
