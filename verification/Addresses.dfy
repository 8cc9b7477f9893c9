/** Network addresses, PAN identifiers and extended addresses, and how they lie in a frame. */
module Addresses {
  import opened Bytes

  datatype Nwk = Nwk(value: bv16)

  datatype PanId = PanId(value: bv16)

  type EightBytes = s: seq<byte> | |s| == 8 witness [0, 0, 0, 0, 0, 0, 0, 0]

  datatype Eui64 = Eui64(bytes: EightBytes)

  function ParseNwk(b: seq<byte>): Parsed<Nwk> {
    if |b| < 2 then Rejected(NotEnoughData) else Parsed(Nwk(FromLe16(b[0], b[1])), b[2..])
  }

  function PrintNwk(a: Nwk): seq<byte> {
    Le16(a.value)
  }

  function ParsePanId(b: seq<byte>): Parsed<PanId> {
    if |b| < 2 then Rejected(NotEnoughData) else Parsed(PanId(FromLe16(b[0], b[1])), b[2..])
  }

  function PrintPanId(a: PanId): seq<byte> {
    Le16(a.value)
  }

  function ParseEui64(b: seq<byte>): Parsed<Eui64> {
    if |b| < 8 then Rejected(NotEnoughData) else Parsed(Eui64(b[..8]), b[8..])
  }

  function PrintEui64(a: Eui64): seq<byte> {
    a.bytes
  }

  lemma Word16Exact(b: seq<byte>, x: bv16, rest: seq<byte>)
    ensures |b| >= 2 && FromLe16(b[0], b[1]) == x && b[2..] == rest <==> b == Le16(x) + rest
  {
    Le16RoundTrip(x);
    if |b| >= 2 {
      FromLe16RoundTrip(b[0], b[1]);
      hide Le16, FromLe16;
      assert b == [b[0], b[1]] + b[2..];
      if b == Le16(x) + rest {
        assert b[0] == Le16(x)[0] && b[1] == Le16(x)[1] && b[2..] == rest;
      }
    }
  }

  lemma NwkExact(b: seq<byte>, a: Nwk, rest: seq<byte>)
    ensures ParseNwk(b) == Parsed(a, rest) <==> b == PrintNwk(a) + rest
  {
    Word16Exact(b, a.value, rest);
    hide Le16, FromLe16;
  }

  lemma PanIdExact(b: seq<byte>, a: PanId, rest: seq<byte>)
    ensures ParsePanId(b) == Parsed(a, rest) <==> b == PrintPanId(a) + rest
  {
    Word16Exact(b, a.value, rest);
    hide Le16, FromLe16;
  }

  lemma Eui64Exact(b: seq<byte>, a: Eui64, rest: seq<byte>)
    ensures ParseEui64(b) == Parsed(a, rest) <==> b == PrintEui64(a) + rest
  {
    if |b| >= 8 {
      assert b == b[..8] + b[8..];
    }
    if b == PrintEui64(a) + rest {
      assert b[..8] == a.bytes && b[8..] == rest;
    }
  }
}
