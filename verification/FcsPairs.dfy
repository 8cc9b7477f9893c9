/** Errors of two bits: within the longest frame of IEEE 802.15.4 the check sequence catches every one of them. */
module FcsPairs {
  import opened Bytes
  import opened Fcs

  /** The longest frame of the physical layer, in bytes: aMaxPHYPacketSize of IEEE 802.15.4. */
  const MAX_FRAME := 127

  // The register seen sixteen clocks at a time

  function FourClocks(x: bv16): bv16 {
    (x >> 4) ^ ((x & 0x0F) * 0x1081)
  }

  function SixteenClocks(x: bv16): bv16 {
    FourClocks(FourClocks(FourClocks(FourClocks(x))))
  }

  lemma {:induction false} ZeroStepsAdd(x: bv16, m: nat, n: nat)
    ensures ZeroSteps(x, m + n) == ZeroSteps(ZeroSteps(x, m), n)
    decreases m
  {
    hide BitStep;
    if m > 0 {
      ZeroStepsAdd(BitStep(x, false), m - 1, n);
    }
  }

  lemma FourClocksAreSteps(x: bv16)
    ensures ZeroSteps(x, 4) == FourClocks(x)
  {
    SplitNibble(x);
    FourStepsOfUpper(x);
    NibbleTable(Lower(x));
    hide *;
    ZeroStepsLinear(Upper(x), Lower(x), 4);
    Unfolded(x);
  }

  lemma Unfolded(x: bv16)
    ensures FourClocks(x) == Xor16(Shift4(x), TableEntry(Lower(x)))
  {
  }

  lemma SplitNibble(x: bv16)
    ensures Xor16(Upper(x), Lower(x)) == x && Lower(x) < 16
  {
  }

  lemma SixteenClocksAreSteps(x: bv16)
    ensures ZeroSteps(x, 16) == SixteenClocks(x)
  {
    hide FourClocks, ZeroSteps;
    ZeroStepsAdd(x, 4, 12);
    ZeroStepsAdd(ZeroSteps(x, 4), 4, 8);
    ZeroStepsAdd(ZeroSteps(ZeroSteps(x, 4), 4), 4, 4);
    FourClocksAreSteps(x);
    FourClocksAreSteps(FourClocks(x));
    FourClocksAreSteps(FourClocks(FourClocks(x)));
    FourClocksAreSteps(FourClocks(FourClocks(FourClocks(x))));
  }

  // Which registers clear to 1 within sixteen clocks

  function OneAt(b: nat): bv16 {
    if b == 0 then 1 else Double(OneAt(b - 1))
  }

  /** At most one bit of the register is set. */
  predicate AtMostOneBit(x: bv16) {
    x & (x - 1) == 0
  }

  lemma OneAtIsOneBit(b: nat)
    requires b < 16
    ensures AtMostOneBit(OneAt(b)) && (b < 15 ==> OneAt(b) < 0x8000)
  {
    assert OneAt(1) == 0x2 && OneAt(2) == 0x4 && OneAt(3) == 0x8;
    assert OneAt(4) == 0x10 && OneAt(5) == 0x20 && OneAt(6) == 0x40 && OneAt(7) == 0x80;
    assert OneAt(8) == 0x100 && OneAt(9) == 0x200 && OneAt(10) == 0x400 && OneAt(11) == 0x800;
    assert OneAt(12) == 0x1000 && OneAt(13) == 0x2000 && OneAt(14) == 0x4000 && OneAt(15) == 0x8000;
  }

  lemma DoubleStepsBack(x: bv16)
    requires x < 0x8000
    ensures BitStep(Double(x), false) == x
  {
  }

  lemma {:induction false} OneComesBack(b: nat)
    requires b < 16
    ensures ZeroSteps(OneAt(b), b) == 1
    decreases b
  {
    if b > 0 {
      OneAtIsOneBit(b - 1);
      DoubleStepsBack(OneAt(b - 1));
      hide BitStep, Double;
      OneComesBack(b - 1);
    }
  }

  lemma StepsAreInjective(x: bv16, y: bv16, n: nat)
    requires ZeroSteps(x, n) == ZeroSteps(y, n)
    ensures x == y
  {
    hide Xor16, ZeroSteps;
    ZeroStepsLinear(x, y, n);
    Fcs.XorZero(ZeroSteps(x, n), ZeroSteps(y, n));
    ZeroStepsFixOnlyZero(Xor16(x, y), n);
    Fcs.XorZero(x, y);
  }

  /** A register that reaches 1 in fewer than sixteen clocks holds a single bit. */
  lemma ReachesOne(x: bv16, b: nat)
    requires b < 16 && ZeroSteps(x, b) == 1
    ensures AtMostOneBit(x)
  {
    hide AtMostOneBit, ZeroSteps;
    OneComesBack(b);
    StepsAreInjective(x, OneAt(b), b);
    OneAtIsOneBit(b);
  }

  // The orbit of 1

  function Stride(x: bv16, n: nat): bv16
    decreases n
  {
    if n == 0 then x else Stride(SixteenClocks(x), n - 1)
  }

  /** None of the next `n` strides of sixteen clocks ends on a single bit. */
  predicate Wanders(x: bv16, n: nat)
    decreases n
  {
    n == 0 || (!AtMostOneBit(SixteenClocks(x)) && Wanders(SixteenClocks(x), n - 1))
  }

  /** Four strides, none of which ends on a single bit, from `x` to `y`. */
  predicate Leg(x: bv16, y: bv16) {
    var a := SixteenClocks(x);
    var b := SixteenClocks(a);
    var c := SixteenClocks(b);
    var d := SixteenClocks(c);
    d == y && !AtMostOneBit(a) && !AtMostOneBit(b) && !AtMostOneBit(c) && !AtMostOneBit(d)
  }

  lemma LegWanders(x: bv16, y: bv16)
    requires Leg(x, y)
    ensures Wanders(x, 4) && Stride(x, 4) == y
  {
    hide SixteenClocks, AtMostOneBit;
    var a := SixteenClocks(x);
    var b := SixteenClocks(a);
    assert Wanders(b, 2) && Stride(b, 2) == y;
  }

  lemma TwoLegs(x: bv16, y: bv16, z: bv16, n: nat)
    requires Leg(x, y) && Leg(y, z) && Wanders(z, n)
    ensures Wanders(x, n + 8)
  {
    LegWanders(x, y);
    LegWanders(y, z);
    hide Wanders, Stride;
    WandersOn(y, 4, n);
    WandersOn(x, 4, n + 4);
  }

  lemma OrbitToQuarter()
    ensures Leg(0x0001, 0x81BF) && Leg(0x81BF, 0x8E10) && Leg(0x8E10, 0x5B44) && Leg(0x5B44, 0x7762)
  {
  }

  lemma OrbitToHalf()
    ensures Leg(0x7762, 0x0E3A) && Leg(0x0E3A, 0x4D7A) && Leg(0x4D7A, 0x47E3) && Leg(0x47E3, 0x922D)
  {
  }

  lemma OrbitToThreeQuarters()
    ensures Leg(0x922D, 0x0842) && Leg(0x0842, 0xB072) && Leg(0xB072, 0xD341) && Leg(0xD341, 0xB8F2)
  {
  }

  lemma OrbitToEnd()
    ensures Leg(0xB8F2, 0xC64F) && Leg(0xC64F, 0xCD95) && Leg(0xCD95, 0x68AF) && Leg(0x68AF, 0xB6C9)
  {
  }

  lemma {:induction false} WandersOn(x: bv16, m: nat, n: nat)
    requires Wanders(x, m) && Wanders(Stride(x, m), n)
    ensures Wanders(x, m + n) && Stride(x, m + n) == Stride(Stride(x, m), n)
    decreases m
  {
    hide SixteenClocks, AtMostOneBit;
    if m > 0 {
      WandersOn(SixteenClocks(x), m - 1, n);
    }
  }

  lemma OneWanders()
    ensures Wanders(1, 64)
  {
    OrbitToQuarter();
    OrbitToHalf();
    OrbitToThreeQuarters();
    OrbitToEnd();
    assert Wanders(0xB6C9, 0);
    hide Wanders, Leg;
    TwoLegs(0xCD95, 0x68AF, 0xB6C9, 0);
    TwoLegs(0xB8F2, 0xC64F, 0xCD95, 8);
    TwoLegs(0xB072, 0xD341, 0xB8F2, 16);
    TwoLegs(0x922D, 0x0842, 0xB072, 24);
    TwoLegs(0x4D7A, 0x47E3, 0x922D, 32);
    TwoLegs(0x7762, 0x0E3A, 0x4D7A, 40);
    TwoLegs(0x8E10, 0x5B44, 0x7762, 48);
    TwoLegs(0x0001, 0x81BF, 0x8E10, 56);
  }

  lemma {:induction false} WandersAt(x: bv16, n: nat, a: nat)
    requires Wanders(x, n) && 1 <= a <= n
    ensures !AtMostOneBit(ZeroSteps(x, 16 * a))
    decreases a
  {
    hide SixteenClocks, AtMostOneBit;
    ZeroStepsAdd(x, 16, 16 * (a - 1));
    SixteenClocksAreSteps(x);
    hide ZeroSteps;
    if a == 1 {
      NoSteps(SixteenClocks(x));
    } else {
      WandersAt(SixteenClocks(x), n - 1, a - 1);
    }
  }

  lemma NoSteps(x: bv16)
    ensures ZeroSteps(x, 0) == x
  {
  }

  /** The register comes back from 1 to 1 after no number of clocks up to the length of the longest frame. */
  lemma NoReturn(n: nat)
    requires 1 <= n < 8 * (MAX_FRAME + 1)
    ensures ZeroSteps(1, n) != 1
  {
    var a, b := n / 16, n % 16;
    hide ZeroSteps, AtMostOneBit;
    if ZeroSteps(1, n) == 1 {
      ZeroStepsAdd(1, 16 * a, b);
      if a == 0 {
        OneComesBack(b);
        StepsAreInjective(1, OneAt(b), b);
        OneAtIsNotOne(b);
      } else {
        ReachesOne(ZeroSteps(1, 16 * a), b);
        OneWanders();
        WandersAt(1, 64, a);
      }
    }
  }

  lemma OneAtIsNotOne(b: nat)
    requires 1 <= b < 16
    ensures OneAt(b) != 1
  {
    OneAtIsOneBit(b - 1);
    DoubleIsNotOne(OneAt(b - 1));
  }

  lemma DoubleIsNotOne(x: bv16)
    ensures Double(x) != 1
  {
  }

  // Errors

  /** The bits set are exactly those at `i` and `j`. */
  ghost predicate ExactlyAt(e: seq<bool>, i: nat, j: nat) {
    i < j < |e| && forall k :: 0 <= k < |e| ==> (e[k] <==> k == i || k == j)
  }

  /** Two set bits leave the register at zero exactly when their distance is one after which 1 returns to 1. */
  lemma PairResidue(e: seq<bool>, i: nat, j: nat)
    requires ExactlyAt(e, i, j)
    ensures CrcBits(0, e) == 0 <==> ZeroSteps(1, j - i) == 1
  {
    var before, between, after := e[..i], e[i + 1..j], e[j + 1..];
    assert e == before + ([true] + (between + ([true] + after)));
    assert AllClear(before) && AllClear(between) && AllClear(after);
    hide CrcBits, ZeroSteps, BitStep;
    CrcBitsConcat(0, before, [true] + (between + ([true] + after)));
    CrcOfClear(0, before);
    ZeroStepsFixOnlyZero(0, i);
    OneBitIn(0, between + ([true] + after));
    XorWithZero(1);
    CrcBitsConcat(ZeroSteps(1, 1), between, [true] + after);
    CrcOfClear(ZeroSteps(1, 1), between);
    ZeroStepsAdd(1, 1, j - i - 1);
    var s := ZeroSteps(1, j - i);
    OneBitIn(s, after);
    CrcOfClear(ZeroSteps(Xor16(s, 1), 1), after);
    ZeroStepsFixOnlyZero(ZeroSteps(Xor16(s, 1), 1), |after|);
    ZeroStepsFixOnlyZero(Xor16(s, 1), 1);
    Fcs.XorZero(s, 1);
  }

  lemma OneBitIn(s: bv16, rest: seq<bool>)
    ensures CrcBits(s, [true] + rest) == CrcBits(ZeroSteps(Xor16(s, 1), 1), rest)
  {
    CrcBitsConcat(s, [true], rest);
    CrcOfWindow(s, [true]);
    PackOfOne();
    hide CrcBits, ZeroSteps, Pack;
  }

  lemma PackOfOne()
    ensures Pack([true]) == 1
  {
    assert [true][1..] == [];
  }

  /** Any two flipped bits, however far apart, are caught in every frame the physical layer can carry. */
  lemma {:induction false} TwoBitErrorsAreDetected(x: seq<byte>, y: seq<byte>, i: nat, j: nat)
    requires 2 <= |x| == |y| <= MAX_FRAME && FcsMatches(x)
    requires ExactlyAt(XorBits(Bits(x), Bits(y)), i, j)
    ensures !FcsMatches(y)
  {
    hide CrcBits, ZeroSteps;
    UndetectedErrors(x, y);
    BitsOfXor(x, y);
    PairResidue(XorBits(Bits(x), Bits(y)), i, j);
    NoReturn(j - i);
  }
}
