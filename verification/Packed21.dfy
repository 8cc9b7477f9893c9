/** Spinel's packed 21-bit integers: seven bits a byte, least significant first, high bit set on all but the last. */
module Packed21 {
  import opened Bytes

  const U21_MAX: bv32 := 0x20_0000

  function Low7(value: bv32): byte {
    (value & 0x7F) as bv8
  }

  function Shift7(value: bv32): bv32 {
    value >> 7
  }

  function More(b: byte): byte {
    b | 0x80
  }

  function Payload(b: byte): bv32 {
    (b & 0x7F) as bv32
  }

  predicate Last(b: byte) {
    b & 0x80 == 0
  }

  function ClearMore(b: byte): byte {
    b & 0x7F
  }

  lemma ShiftShrinks(value: bv32)
    requires value > 0
    ensures Shift7(value) < value
  {
  }

  function Encode(value: bv32): (bytes: seq<byte>)
    ensures bytes != []
    decreases value
  {
    if value < 0x80 then [Low7(value)] else ShiftShrinks(value); [More(Low7(value))] + Encode(Shift7(value))
  }

  function Decode(bytes: seq<byte>): Option<(bv32, seq<byte>)> {
    if |bytes| >= 1 && Last(bytes[0]) then Some((Payload(bytes[0]), bytes[1..]))
    else if |bytes| >= 2 && Last(bytes[1]) then
      Some((Join2(bytes[0], bytes[1]), bytes[2..]))
    else if |bytes| >= 3 && Last(bytes[2]) then
      Some((Join3(bytes[0], bytes[1], bytes[2]), bytes[3..]))
    else None
  }

  function Join2(a: byte, b: byte): bv32 {
    Payload(a) | (Payload(b) << 7)
  }

  function Join3(a: byte, b: byte, c: byte): bv32 {
    Join2(a, b) | (Payload(c) << 14)
  }

  // The routines

  method Deserialize(bytes: seq<byte>) returns (r: Option<(bv32, seq<byte>)>)
    ensures r == Decode(bytes)
  {
    var result: bv32 := 0;
    var index := 0;
    while index < |bytes|
      invariant 0 <= index <= |bytes| && index <= 2
      invariant forall k :: 0 <= k < index ==> !Last(bytes[k])
      invariant index == 0 ==> result == 0
      invariant index == 1 ==> result == Payload(bytes[0])
      invariant index == 2 ==> result == Join2(bytes[0], bytes[1])
    {
      var shift := if index == 0 then 0 else if index == 1 then 7 else 14;
      result := result | (Payload(bytes[index]) << shift);
      FirstGroup(bytes[index]);
      if Last(bytes[index]) {
        return Some((result, bytes[index + 1..]));
      }
      if index >= 2 {
        break;
      }
      index := index + 1;
    }
    return None;
  }

  lemma FirstGroup(b: byte)
    ensures 0 | (Payload(b) << 0) == Payload(b)
  {
  }

  method ToBytes(value: bv32) returns (chunks: seq<byte>)
    requires value <= U21_MAX  // the source panics above this
    ensures chunks == Encode(value)
  {
    if value == 0 {
      return [0];
    }
    hide ClearMore, More, Low7, Shift7, Encode;
    chunks := [];
    var temp := value;
    while temp > 0
      invariant chunks + Continued(temp) == Continued(value)
      decreases temp
    {
      ShiftShrinks(temp);
      ContinuedStep(chunks, temp);
      chunks := chunks + [More(Low7(temp))];
      temp := Shift7(temp);
    }
    ContinuedIsEncode(value);
    assert Continued(0) == [] && chunks == Continued(value);
    var len := |chunks|;
    chunks := chunks[len - 1 := ClearMore(chunks[len - 1])];
  }

  /** The groups of a value before the last one loses its continuation bit. */
  function Continued(value: bv32): seq<byte>
    decreases value
  {
    if value == 0 then [] else ShiftShrinks(value); [More(Low7(value))] + Continued(Shift7(value))
  }

  lemma ContinuedStep(chunks: seq<byte>, temp: bv32)
    requires temp > 0
    ensures chunks + Continued(temp) == chunks + [More(Low7(temp))] + Continued(Shift7(temp))
  {
    hide More, Low7, Shift7;
    assert Continued(temp) == [More(Low7(temp))] + Continued(Shift7(temp));
  }

  lemma {:induction false} ContinuedIsEncode(value: bv32)
    requires value > 0
    ensures var c := Continued(value); c != [] && c[|c| - 1 := ClearMore(c[|c| - 1])] == Encode(value)
    decreases value
  {
    hide ClearMore, More, Low7, Shift7;
    if value < 0x80 {
      SmallValue(value);
    } else {
      ShiftPositive(value);
      ContinuedIsEncode(Shift7(value));
    }
  }

  lemma SmallValue(value: bv32)
    requires value < 0x80
    ensures Shift7(value) == 0
    ensures ClearMore(More(Low7(value))) == Low7(value)
  {
  }

  lemma ShiftPositive(value: bv32)
    requires value >= 0x80
    ensures 0 < Shift7(value) < value
  {
  }

  // What the format promises

  lemma EncodeForms(value: bv32)
    requires value <= U21_MAX
    ensures value < 0x80 ==> Encode(value) == [Low7(value)]
    ensures 0x80 <= value < 0x4000 ==> Encode(value) == [More(Low7(value)), Low7(Shift7(value))]
    ensures 0x4000 <= value < 0x20_0000 ==>
      Encode(value) == [More(Low7(value)), More(Low7(Shift7(value))), Low7(Shift7(Shift7(value)))]
  {
    hide More, Low7, Shift7;
    Ranges(value);
    if value >= 0x80 {
      var v1 := Shift7(value);
      assert Encode(value) == [More(Low7(value))] + Encode(v1);
      if v1 >= 0x80 {
        assert Encode(v1) == [More(Low7(v1))] + Encode(Shift7(v1));
      }
    }
  }

  lemma EncodeTop()
    ensures Encode(0x20_0000) == [0x80, 0x80, 0x80, 0x01]
  {
    assert Shift7(0x20_0000) == 0x4000 && Shift7(0x4000) == 0x80 && Shift7(0x80) == 1;
    assert Encode(1) == [0x01];
    assert Encode(0x80) == [0x80, 0x01];
    assert Encode(0x4000) == [0x80, 0x80, 0x01];
  }

  lemma Ranges(value: bv32)
    ensures value < 0x4000 ==> Shift7(value) < 0x80
    ensures 0x4000 <= value ==> Shift7(value) >= 0x80
    ensures value < 0x20_0000 ==> Shift7(Shift7(value)) < 0x80
  {
  }

  lemma GroupsJoin(value: bv32)
    ensures value < 0x80 ==> Payload(Low7(value)) == value
    ensures value < 0x4000 ==> Join2(More(Low7(value)), Low7(Shift7(value))) == value
    ensures value < 0x20_0000 ==>
      Join3(More(Low7(value)), More(Low7(Shift7(value))), Low7(Shift7(Shift7(value)))) == value
  {
  }

  lemma ContinuationBits(value: bv32)
    ensures Last(Low7(value)) && !Last(More(Low7(value)))
  {
  }

  lemma DecodeTwo(a: byte, b: byte, suffix: seq<byte>)
    requires !Last(a) && Last(b)
    ensures Decode([a, b] + suffix) == Some((Join2(a, b), suffix))
  {
    hide Join2;
    assert ([a, b] + suffix)[2..] == suffix;
  }

  lemma DecodeThree(a: byte, b: byte, c: byte, suffix: seq<byte>)
    requires !Last(a) && !Last(b) && Last(c)
    ensures Decode([a, b, c] + suffix) == Some((Join3(a, b, c), suffix))
  {
    hide Join3;
    assert ([a, b, c] + suffix)[3..] == suffix;
  }

  lemma DecodeOne(a: byte, suffix: seq<byte>)
    requires Last(a)
    ensures Decode([a] + suffix) == Some((Payload(a), suffix))
  {
    assert ([a] + suffix)[1..] == suffix;
  }

  /** For every value the encoder accepts, decoding returns value and suffix exactly when the value is below 2^21. */
  lemma RoundTrip(value: bv32, suffix: seq<byte>)
    requires value <= U21_MAX
    ensures Decode(Encode(value) + suffix) == Some((value, suffix)) <==> value < 0x20_0000
    ensures value < 0x20_0000 ==> 1 <= |Encode(value)| <= 3
  {
    assert value <= 0x20_0000;
    hide *;
    EncodeForms(value);
    GroupsJoin(value);
    ContinuationBits(value);
    ContinuationBits(Shift7(value));
    ContinuationBits(Shift7(Shift7(value)));
    if value < 0x80 {
      DecodeOne(Low7(value), suffix);
    } else if value < 0x4000 {
      DecodeTwo(More(Low7(value)), Low7(Shift7(value)), suffix);
    } else if value < 0x20_0000 {
      DecodeThree(More(Low7(value)), More(Low7(Shift7(value))), Low7(Shift7(Shift7(value))), suffix);
    } else {
      EncodeTop();
      TopValueUndecodable(suffix);
    }
  }

  /** The boundary the encoder's own check lets through: 2^21 is written as four bytes that no decoder accepts. */
  lemma TopValueUndecodable(suffix: seq<byte>)
    ensures Encode(U21_MAX) == [0x80, 0x80, 0x80, 0x01]
    ensures Decode(Encode(U21_MAX) + suffix) == None
  {
    hide Decode, Encode;
    EncodeTop();
    FourGroupsUndecodable(suffix);
  }

  lemma FourGroupsUndecodable(suffix: seq<byte>)
    ensures Decode([0x80, 0x80, 0x80, 0x01] + suffix) == None
  {
    var bytes := [0x80, 0x80, 0x80, 0x01] + suffix;
    assert bytes[0] == 0x80 && bytes[1] == 0x80 && bytes[2] == 0x80;
  }

  /** No shorter string decodes to the same value. */
  lemma EncodeIsShortest(value: bv32, bytes: seq<byte>)
    requires Decode(bytes) == Some((value, []))
    ensures value < 0x20_0000 && |bytes| >= |Encode(value)|
  {
    hide Payload, Join2, Join3, Last, Encode;
    if Last(bytes[0]) {
      OneGroup(bytes[0]);
    } else if Last(bytes[1]) {
      TwoGroups(bytes[0], bytes[1]);
    } else {
      ThreeGroups(bytes[0], bytes[1], bytes[2]);
    }
    EncodeForms(value);
  }

  lemma OneGroup(a: byte)
    ensures Payload(a) < 0x80
  {
  }

  lemma TwoGroups(a: byte, b: byte)
    ensures Join2(a, b) < 0x4000
  {
  }

  lemma ThreeGroups(a: byte, b: byte, c: byte)
    ensures Join3(a, b, c) < 0x20_0000
  {
  }
}
