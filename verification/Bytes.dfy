/** Bytes, fixed-width integers in both byte orders, and the result types shared by the codecs. */
module Bytes {

  type byte = bv8

  /** The result of a check that either yields a value or names what was wrong. */
  datatype Result<+T, +E> = Ok(value: T) | Err(error: E)

  datatype Option<+T> = None | Some(value: T)

  datatype ParseError = NotEnoughData | InvalidField | InvalidFcs

  /**
   What a parser makes of a byte string: a value and the bytes it did not read; an error it reports; or an
   unchecked index past the end of the data, at which the program stops.
   */
  datatype Parsed<+T> = Parsed(value: T, rest: seq<byte>) | Rejected(error: ParseError) | OutOfBounds {
    predicate IsFailure() {
      !Parsed?
    }

    function PropagateFailure<U>(): Parsed<U>
      requires IsFailure()
    {
      if Rejected? then Rejected(error) else OutOfBounds
    }

    function Extract(): (T, seq<byte>)
      requires Parsed?
    {
      (value, rest)
    }
  }

  lemma Associate3<T>(a: seq<T>, b: seq<T>, c: seq<T>)
    ensures a + (b + c) == a + b + c
  {
  }

  function Flag(b: bool): byte {
    if b then 1 else 0
  }

  // Exclusive or

  function Xor8(x: byte, y: byte): byte {
    x ^ y
  }

  function Xor(a: seq<byte>, b: seq<byte>): (c: seq<byte>)
    requires |a| == |b|
    ensures |c| == |a| && forall k :: 0 <= k < |c| ==> c[k] == Xor8(a[k], b[k])
  {
    seq(|a|, k requires 0 <= k < |a| => Xor8(a[k], b[k]))
  }

  // Machine integers and bytes: the low `k` bits of a number as a byte, and a byte's value

  function Narrow(n: nat, k: nat): byte
    decreases k
  {
    if k == 0 then 0 else Prepend(n % 2 == 1, Narrow(n / 2, k - 1))
  }

  function Value(b: byte, k: nat): nat
    decreases k
  {
    if k == 0 then 0 else (if LowBit(b) then 1 else 0) + 2 * Value(Halved(b), k - 1)
  }

  function Prepend(bit: bool, b: byte): byte {
    (if bit then 1 else 0) | (b << 1)
  }

  predicate LowBit(b: byte) {
    b & 1 == 1
  }

  function Halved(b: byte): byte {
    b >> 1
  }

  /** `n as u8`: the low eight bits of a machine integer. */
  function U8(n: nat): byte {
    Narrow(n % 256, 8)
  }

  /** `b as usize`. */
  function Nat8(b: byte): nat {
    Value(b, 8)
  }

  function Pow2(k: nat): (p: nat)
    ensures p > 0
  {
    if k == 0 then 1 else 2 * Pow2(k - 1)
  }

  predicate Fits(b: byte, k: nat)
    decreases k
  {
    if k == 0 then b == 0 else Fits(Halved(b), k - 1)
  }

  lemma {:induction false} NarrowRoundTrip(n: nat, k: nat)
    requires n < Pow2(k) && k <= 8
    ensures Value(Narrow(n, k), k) == n
    ensures Fits(Narrow(n, k), k)
    decreases k
  {
    if k > 0 {
      hide LowBit, Halved, Prepend;
      NarrowRoundTrip(n / 2, k - 1);
      FitsBelowTop(Narrow(n / 2, k - 1), k - 1);
      PrependParts(n % 2 == 1, Narrow(n / 2, k - 1));
    }
  }

  lemma PrependParts(bit: bool, b: byte)
    requires b < 128
    ensures LowBit(Prepend(bit, b)) == bit && Halved(Prepend(bit, b)) == b
  {
  }

  lemma {:induction false} FitsBelowTop(b: byte, k: nat)
    requires Fits(b, k) && k <= 7
    ensures b < 128
    decreases 8 - k
  {
    hide Halved;
    if k < 7 {
      FitsMore(b, k);
      FitsBelowTop(b, k + 1);
    } else {
      SevenBits(b);
    }
  }

  lemma {:induction false} FitsMore(b: byte, k: nat)
    requires Fits(b, k)
    ensures Fits(b, k + 1)
    decreases k
  {
    if k == 0 {
      assert Halved(0) == 0;
    } else {
      FitsMore(Halved(b), k - 1);
    }
  }

  lemma SevenBits(b: byte)
    requires Fits(b, 7)
    ensures b < 128
  {
    var h := Halved(Halved(Halved(Halved(Halved(Halved(Halved(b)))))));
    assert h == 0 by {
      hide Halved;
      SevenHalves(b);
    }
    SevenShifts(b);
  }

  lemma SevenHalves(b: byte)
    requires Fits(b, 7)
    ensures Halved(Halved(Halved(Halved(Halved(Halved(Halved(b))))))) == 0
  {
    hide Halved;
    var b3 := Halved(Halved(Halved(b)));
    assert Fits(Halved(b), 6) && Fits(Halved(Halved(b)), 5) && Fits(b3, 4);
    assert Fits(Halved(b3), 3) && Fits(Halved(Halved(b3)), 2) && Fits(Halved(Halved(Halved(b3))), 1);
  }

  lemma SevenShifts(b: byte)
    requires Halved(Halved(Halved(Halved(Halved(Halved(Halved(b))))))) == 0
    ensures b < 128
  {
  }

  lemma {:induction false} ValueRoundTrip(b: byte, k: nat)
    requires Fits(b, k)
    ensures Value(b, k) < Pow2(k) && Narrow(Value(b, k), k) == b
    decreases k
  {
    if k > 0 {
      hide LowBit, Halved, Prepend;
      ValueRoundTrip(Halved(b), k - 1);
      PrependHalved(b);
    }
  }

  lemma PrependHalved(b: byte)
    ensures Prepend(LowBit(b), Halved(b)) == b
  {
  }

  lemma EveryByteFits(b: byte)
    ensures Fits(b, 8)
  {
    hide Halved;
    var b4 := Halved(Halved(Halved(Halved(b))));
    EightShifts(b);
    assert Fits(Halved(Halved(Halved(Halved(b4)))), 0);
    assert Fits(Halved(Halved(Halved(b4))), 1);
    assert Fits(Halved(Halved(b4)), 2);
    assert Fits(Halved(b4), 3);
    assert Fits(b4, 4);
    assert Fits(Halved(Halved(b)), 6);
  }

  lemma EightShifts(b: byte)
    ensures Halved(Halved(Halved(Halved(Halved(Halved(Halved(Halved(b)))))))) == 0
  {
  }

  lemma Pow2Of8()
    ensures Pow2(8) == 256
  {
    assert Pow2(4) == 16;
  }

  /** Narrowing keeps exactly the value modulo 256. */
  lemma U8Value(n: nat)
    ensures Nat8(U8(n)) == n % 256
  {
    hide Narrow, Value, Fits;
    Pow2Of8();
    NarrowRoundTrip(n % 256, 8);
  }

  lemma U8OfByte(b: byte)
    ensures Nat8(b) < 256 && U8(Nat8(b)) == b
  {
    hide Narrow, Value, Fits;
    EveryByteFits(b);
    Pow2Of8();
    ValueRoundTrip(b, 8);
  }

  lemma U8Injective(m: nat, n: nat)
    requires U8(m) == U8(n)
    ensures m % 256 == n % 256
  {
    U8Value(m);
    U8Value(n);
  }

  // 16-bit words, little-endian

  function Le16(x: bv16): (bytes: seq<byte>)
    ensures |bytes| == 2
  {
    [(x & 0xFF) as bv8, (x >> 8) as bv8]
  }

  function FromLe16(lo: byte, hi: byte): bv16 {
    (lo as bv16) | ((hi as bv16) << 8)
  }

  lemma Le16RoundTrip(x: bv16)
    ensures FromLe16(Le16(x)[0], Le16(x)[1]) == x
  {
    Join16(x);
  }

  lemma Join16(x: bv16)
    ensures FromLe16((x & 0xFF) as bv8, (x >> 8) as bv8) == x
  {
  }

  lemma FromLe16RoundTrip(lo: byte, hi: byte)
    ensures Le16(FromLe16(lo, hi)) == [lo, hi]
  {
    Split16(lo, hi);
  }

  lemma Split16(lo: byte, hi: byte)
    ensures (FromLe16(lo, hi) & 0xFF) as bv8 == lo
    ensures (FromLe16(lo, hi) >> 8) as bv8 == hi
  {
  }

  // 32-bit words, little-endian

  function Le32(x: bv32): (bytes: seq<byte>)
    ensures |bytes| == 4
  {
    [(x & 0xFF) as bv8, ((x >> 8) & 0xFF) as bv8, ((x >> 16) & 0xFF) as bv8, (x >> 24) as bv8]
  }

  function FromLe32(a: byte, b: byte, c: byte, d: byte): bv32 {
    (a as bv32) | ((b as bv32) << 8) | ((c as bv32) << 16) | ((d as bv32) << 24)
  }

  lemma Le32RoundTrip(x: bv32)
    ensures var s := Le32(x); FromLe32(s[0], s[1], s[2], s[3]) == x
  {
    Join32(x);
  }

  lemma Join32(x: bv32)
    ensures FromLe32((x & 0xFF) as bv8, ((x >> 8) & 0xFF) as bv8, ((x >> 16) & 0xFF) as bv8, (x >> 24) as bv8) == x
  {
  }

  lemma FromLe32RoundTrip(a: byte, b: byte, c: byte, d: byte)
    ensures Le32(FromLe32(a, b, c, d)) == [a, b, c, d]
  {
    Split32(a, b, c, d);
  }

  lemma Split32(a: byte, b: byte, c: byte, d: byte)
    ensures var x := FromLe32(a, b, c, d);
            && (x & 0xFF) as bv8 == a
            && ((x >> 8) & 0xFF) as bv8 == b
            && ((x >> 16) & 0xFF) as bv8 == c
            && (x >> 24) as bv8 == d
  {
  }

  /** The 32-bit word holding a number below 2^32. */
  function U32(n: nat): bv32 {
    FromLe32(U8(n), U8(n / 0x100), U8(n / 0x1_0000), U8(n / 0x100_0000))
  }

  function U32Value(x: bv32): nat {
    var s := Le32(x);
    Nat8(s[0]) + 0x100 * Nat8(s[1]) + 0x1_0000 * Nat8(s[2]) + 0x100_0000 * Nat8(s[3])
  }

  lemma U32RoundTrip(n: nat)
    requires n < 0x1_0000_0000
    ensures U32Value(U32(n)) == n
  {
    hide U8, Nat8, FromLe32, Le32;
    FromLe32RoundTrip(U8(n), U8(n / 0x100), U8(n / 0x1_0000), U8(n / 0x100_0000));
    U8Value(n);
    U8Value(n / 0x100);
    U8Value(n / 0x1_0000);
    U8Value(n / 0x100_0000);
    FourDigits(n);
  }

  lemma FourDigits(n: nat)
    requires n < 0x1_0000_0000
    ensures n == n % 256 + 0x100 * (n / 0x100 % 256) + 0x1_0000 * (n / 0x1_0000 % 256) +
            0x100_0000 * (n / 0x100_0000 % 256)
  {
  }

  lemma U32Bounded(x: bv32)
    ensures U32Value(x) < 0x1_0000_0000
  {
    var s := Le32(x);
    U8OfByte(s[0]);
    U8OfByte(s[1]);
    U8OfByte(s[2]);
    U8OfByte(s[3]);
    hide Nat8, U8, Le32;
  }

  lemma Le32Injective(x: bv32, y: bv32)
    requires Le32(x) == Le32(y)
    ensures x == y
  {
    Le32RoundTrip(x);
    Le32RoundTrip(y);
    hide Le32, FromLe32;
  }

  // Two-byte big-endian lengths and block numbers: the last two bytes of a `usize`

  function Be16(n: nat): (bytes: seq<byte>)
    ensures |bytes| == 2
  {
    [U8(n / 256), U8(n)]
  }

  lemma Be16Injective(m: nat, n: nat)
    requires m < 0x1_0000 && n < 0x1_0000
    requires Be16(m) == Be16(n)
    ensures m == n
  {
    assert Be16(m)[0] == Be16(n)[0] && Be16(m)[1] == Be16(n)[1];
    U8Injective(m, n);
    U8Injective(m / 256, n / 256);
    DigitsInjective(m, n);
  }

  lemma DigitsInjective(m: nat, n: nat)
    requires m < 0x1_0000 && n < 0x1_0000
    requires m % 256 == n % 256 && (m / 256) % 256 == (n / 256) % 256
    ensures m == n
  {
  }
}
