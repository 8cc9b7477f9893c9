/**
 The frame check sequence of IEEE 802.15.4: the nibble-wise routine of the driver, the bit-serial
 shift register of section 7.2.1.9 of IEEE 802.15.4-2006 it must agree with, and the error patterns
 the check is guaranteed to catch.
 */
module Fcs {
  import opened Bytes

  // The bit-serial reference: generator x^16 + x^12 + x^5 + 1, register initially zero, bits of a
  // byte entering least significant first.

  const POLYNOMIAL: bv16 := 0x8408

  function Xor16(x: bv16, y: bv16): bv16 {
    x ^ y
  }

  predicate Low(x: bv16) {
    x & 1 == 1
  }

  function Half(x: bv16): bv16 {
    x >> 1
  }

  /** One clock of the register: shift right, feeding the generator back when the outgoing bit and the input differ. */
  function BitStep(crc: bv16, bit: bool): bv16 {
    Feed(Half(crc), Low(crc) != bit)
  }

  function Feed(x: bv16, feedback: bool): bv16 {
    if feedback then Xor16(x, POLYNOMIAL) else x
  }

  function CrcBits(crc: bv16, bits: seq<bool>): bv16
    decreases |bits|
  {
    if bits == [] then crc else CrcBits(BitStep(crc, bits[0]), bits[1..])
  }

  predicate Bit(c: byte, k: bv8)
    requires k < 8
  {
    (c >> k) & 1 == 1
  }

  function BitsOf(c: byte): (bits: seq<bool>)
    ensures |bits| == 8
  {
    [Bit(c, 0), Bit(c, 1), Bit(c, 2), Bit(c, 3), Bit(c, 4), Bit(c, 5), Bit(c, 6), Bit(c, 7)]
  }

  function Bits(data: seq<byte>): (bits: seq<bool>)
    ensures |bits| == 8 * |data|
  {
    if data == [] then [] else BitsOf(data[0]) + Bits(data[1..])
  }

  function Fcs(data: seq<byte>): bv16 {
    CrcBits(0, Bits(data))
  }

  // The driver's arithmetic: one nibble, low four bits of its argument, per multiplication

  function NibbleStep(crc: bv16, nibble: byte): bv16 {
    Xor16(Shift4(crc), TableEntry(TableIndex(crc, nibble)))
  }

  function Shift4(x: bv16): bv16 {
    x >> 4
  }

  function TableIndex(crc: bv16, nibble: byte): bv16 {
    ((((crc & 0x0F) as bv8) ^ nibble) & 0x0F) as bv16
  }

  function TableEntry(q: bv16): bv16 {
    q * 0x1081
  }

  lemma IndexIsNibble(crc: bv16, nibble: byte)
    ensures TableIndex(crc, nibble) <= 0x0F
  {
  }

  /** The multiplication never overflows sixteen bits: the exact product is the one the register takes. */
  lemma ProductFits(crc: bv16, nibble: byte)
    ensures (TableEntry(TableIndex(crc, nibble)) as bv32) == (TableIndex(crc, nibble) as bv32) * 0x1081
  {
    IndexIsNibble(crc, nibble);
    hide TableIndex;
    WideProduct(TableIndex(crc, nibble));
  }

  lemma WideProduct(q: bv16)
    requires q <= 0x0F
    ensures (TableEntry(q) as bv32) == (q as bv32) * 0x1081
    ensures (q as bv32) * 0x1081 <= 0xFFFF
  {
  }

  method ComputeFcs(data: seq<byte>) returns (crc: bv16)
    ensures crc == Fcs(data)
  {
    crc := 0;
    var i := 0;
    assert data[0..] == data;
    while i < |data|
      invariant 0 <= i <= |data|
      invariant CrcBits(crc, Bits(data[i..])) == Fcs(data)
    {
      var c := data[i];
      ghost var before := crc;
      crc := NibbleStep(crc, c >> 0);
      crc := NibbleStep(crc, c >> 4);
      ShiftByZero(c);
      CrcOfNextByte(before, data[i..]);
      assert data[i..][1..] == data[i + 1..];
      i := i + 1;
    }
  }

  lemma ShiftByZero(c: byte)
    ensures c >> 0 == c
  {
  }

  lemma CrcOfNextByte(crc: bv16, data: seq<byte>)
    requires data != []
    ensures CrcBits(crc, Bits(data)) == CrcBits(NibbleStep(NibbleStep(crc, data[0]), data[0] >> 4), Bits(data[1..]))
  {
    NibblesAreBits(crc, data[0]);
    CrcBitsConcat(crc, BitsOf(data[0]), Bits(data[1..]));
  }

  lemma {:induction false} CrcBitsConcat(crc: bv16, a: seq<bool>, b: seq<bool>)
    ensures CrcBits(crc, a + b) == CrcBits(CrcBits(crc, a), b)
    decreases |a|
  {
    if a == [] {
      assert a + b == b;
    } else {
      assert (a + b)[1..] == a[1..] + b;
      CrcBitsConcat(BitStep(crc, a[0]), a[1..], b);
    }
  }

  // Linearity

  function XorBits(a: seq<bool>, b: seq<bool>): (e: seq<bool>)
    requires |a| == |b|
    ensures |e| == |a| && forall k :: 0 <= k < |e| ==> e[k] == (a[k] != b[k])
  {
    seq(|a|, k requires 0 <= k < |a| => a[k] != b[k])
  }

  lemma FeedLinear(x: bv16, y: bv16, f: bool, g: bool)
    ensures Feed(Xor16(x, y), f != g) == Xor16(Feed(x, f), Feed(y, g))
  {
    hide *;
    if f && g {
      FeedBoth(x, y);
    } else if f {
      FeedLeft(x, y);
    } else if g {
      FeedRight(x, y);
    } else {
      FeedNone(x, y);
    }
  }

  lemma FeedBoth(x: bv16, y: bv16)
    ensures Feed(Xor16(x, y), false) == Xor16(Feed(x, true), Feed(y, true))
  {
  }

  lemma FeedLeft(x: bv16, y: bv16)
    ensures Feed(Xor16(x, y), true) == Xor16(Feed(x, true), Feed(y, false))
  {
  }

  lemma FeedRight(x: bv16, y: bv16)
    ensures Feed(Xor16(x, y), true) == Xor16(Feed(x, false), Feed(y, true))
  {
  }

  lemma FeedNone(x: bv16, y: bv16)
    ensures Feed(Xor16(x, y), false) == Xor16(Feed(x, false), Feed(y, false))
  {
  }

  lemma XorParts(x: bv16, y: bv16)
    ensures Half(Xor16(x, y)) == Xor16(Half(x), Half(y))
    ensures Low(Xor16(x, y)) == (Low(x) != Low(y))
  {
  }

  lemma StepLinear(s: bv16, t: bv16, x: bool, y: bool)
    ensures BitStep(Xor16(s, t), x != y) == Xor16(BitStep(s, x), BitStep(t, y))
  {
    hide Xor16, Low, Half, Feed;
    XorParts(s, t);
    FeedLinear(Half(s), Half(t), Low(s) != x, Low(t) != y);
    assert ((Low(s) != Low(t)) != (x != y)) == ((Low(s) != x) != (Low(t) != y));
  }

  lemma {:induction false} CrcLinear(s: bv16, t: bv16, a: seq<bool>, b: seq<bool>)
    requires |a| == |b|
    ensures CrcBits(Xor16(s, t), XorBits(a, b)) == Xor16(CrcBits(s, a), CrcBits(t, b))
    decreases |a|
  {
    hide Xor16, BitStep;
    if a != [] {
      StepLinear(s, t, a[0], b[0]);
      assert XorBits(a, b)[1..] == XorBits(a[1..], b[1..]);
      CrcLinear(BitStep(s, a[0]), BitStep(t, b[0]), a[1..], b[1..]);
    }
  }

  lemma {:induction false} BitsOfXor(a: seq<byte>, b: seq<byte>)
    requires |a| == |b|
    ensures Bits(Xor(a, b)) == XorBits(Bits(a), Bits(b))
    decreases |a|
  {
    hide BitsOf, Xor8;
    if a != [] {
      assert Xor(a, b)[1..] == Xor(a[1..], b[1..]);
      BitsOfXor(a[1..], b[1..]);
      BitsOfXorByte(a[0], b[0]);
    }
  }

  lemma BitsOfXorByte(a: byte, b: byte)
    ensures BitsOf(Xor8(a, b)) == XorBits(BitsOf(a), BitsOf(b))
  {
    hide *;
    BitOfXor(a, b, 0);
    BitOfXor(a, b, 1);
    BitOfXor(a, b, 2);
    BitOfXor(a, b, 3);
    BitOfXor(a, b, 4);
    BitOfXor(a, b, 5);
    BitOfXor(a, b, 6);
    BitOfXor(a, b, 7);
    BitsListed(a);
    BitsListed(b);
    BitsListed(Xor8(a, b));
    EightXors(BitsOf(a), BitsOf(b), BitsOf(Xor8(a, b)));
  }

  lemma BitsListed(c: byte)
    ensures var b := BitsOf(c);
            && b[0] == Bit(c, 0) && b[1] == Bit(c, 1) && b[2] == Bit(c, 2) && b[3] == Bit(c, 3)
            && b[4] == Bit(c, 4) && b[5] == Bit(c, 5) && b[6] == Bit(c, 6) && b[7] == Bit(c, 7)
  {
  }

  lemma EightXors(a: seq<bool>, b: seq<bool>, e: seq<bool>)
    requires |a| == |b| == |e| == 8
    requires e[0] == (a[0] != b[0]) && e[1] == (a[1] != b[1]) && e[2] == (a[2] != b[2]) && e[3] == (a[3] != b[3])
    requires e[4] == (a[4] != b[4]) && e[5] == (a[5] != b[5]) && e[6] == (a[6] != b[6]) && e[7] == (a[7] != b[7])
    ensures e == XorBits(a, b)
  {
  }

  lemma BitOfXor(a: byte, b: byte, k: bv8)
    requires k < 8
    ensures Bit(Xor8(a, b), k) == (Bit(a, k) != Bit(b, k))
  {
  }

  /** The check sequence of an XOR is the XOR of the check sequences. */
  lemma FcsLinear(a: seq<byte>, b: seq<byte>)
    requires |a| == |b|
    ensures Fcs(Xor(a, b)) == Xor16(Fcs(a), Fcs(b))
  {
    assert Xor16(0, 0) == 0;
    hide Xor16;
    BitsOfXor(a, b);
    CrcLinear(0, 0, Bits(a), Bits(b));
  }

  // The register as a 16-bit window on the input

  function Double(x: bv16): bv16 {
    x << 1
  }

  function PushBit(b: bool, p: bv16): bv16 {
    (if b then 1 else 0) | (p << 1)
  }

  /** The first bits of a stream as a register value, first bit least significant. */
  function Pack(w: seq<bool>): bv16
    decreases |w|
  {
    if w == [] then 0 else PushBit(w[0], Pack(w[1..]))
  }

  function ZeroSteps(crc: bv16, n: nat): bv16
    decreases n
  {
    if n == 0 then crc else ZeroSteps(BitStep(crc, false), n - 1)
  }

  /** A mask of the bits at position `n` and above. */
  function BitsFrom(n: nat): bv16 {
    if n == 0 then 0xFFFF else Double(BitsFrom(n - 1))
  }

  predicate Disjoint(x: bv16, y: bv16) {
    x & y == 0
  }

  lemma {:induction false} PackFits(w: seq<bool>)
    ensures Disjoint(Pack(w), BitsFrom(|w|))
    decreases |w|
  {
    if w == [] {
      assert Disjoint(0, 0xFFFF);
    } else {
      hide Disjoint, PushBit, Double;
      PackFits(w[1..]);
      ShiftIn(w[0], Pack(w[1..]), BitsFrom(|w| - 1));
    }
  }

  lemma ShiftIn(b: bool, p: bv16, mask: bv16)
    requires Disjoint(p, mask)
    ensures Disjoint(PushBit(b, p), Double(mask))
  {
    ShiftDisjoint(p, mask);
    if b {
    }
  }

  lemma ShiftDisjoint(p: bv16, mask: bv16)
    requires p & mask == 0
    ensures (0 | (p << 1)) & (mask << 1) == 0
    ensures (1 | (p << 1)) & (mask << 1) == 0
  {
  }

  /** A mask from a higher position selects no more. */
  lemma {:induction false} PackMisses(p: bv16, n: nat, m: nat)
    requires n <= m && Disjoint(p, BitsFrom(n))
    ensures Disjoint(p, BitsFrom(m))
    decreases m - n
  {
    if n < m {
      MaskShrinks(n);
      Inherit(p, BitsFrom(n), BitsFrom(n + 1));
      PackMisses(p, n + 1, m);
    }
  }

  lemma {:induction false} MaskShrinks(n: nat)
    ensures BitsFrom(n + 1) & BitsFrom(n) == BitsFrom(n + 1)
  {
    if n == 0 {
      assert BitsFrom(1) == Double(0xFFFF);
    } else {
      MaskShrinks(n - 1);
      DoubleBoth(BitsFrom(n), BitsFrom(n - 1));
    }
  }

  lemma DoubleBoth(x: bv16, y: bv16)
    requires x & y == x
    ensures Double(x) & Double(y) == Double(x)
  {
  }

  lemma Inherit(p: bv16, wide: bv16, narrow: bv16)
    requires Disjoint(p, wide) && narrow & wide == narrow
    ensures Disjoint(p, narrow)
  {
  }

  const TOP: bv16 := 0x8000

  /** At most fifteen bits leave the top bit of the register clear. */
  lemma PackBelowTop(w: seq<bool>)
    requires |w| <= 15
    ensures Disjoint(Pack(w), TOP)
  {
    PackFits(w);
    PackMisses(Pack(w), |w|, 15);
    assert BitsFrom(15) == TOP;
  }

  lemma AbsorbBit(s: bv16, b: bool, p: bv16)
    requires Disjoint(p, TOP)
    ensures BitStep(Xor16(s, PushBit(b, p)), false) == Xor16(BitStep(s, b), p)
  {
    hide BitStep;
    PushBitParts(b, p);
    StepLinear(s, PushBit(b, p), b, b);
    assert (b != b) == false;
    assert BitStep(PushBit(b, p), b) == p by {
      StepOfPushed(b, p);
    }
  }

  lemma PushBitParts(b: bool, p: bv16)
    requires Disjoint(p, TOP)
    ensures Half(PushBit(b, p)) == p && Low(PushBit(b, p)) == b
  {
  }

  lemma StepOfPushed(b: bool, p: bv16)
    requires Disjoint(p, TOP)
    ensures BitStep(PushBit(b, p), b) == p
  {
    PushBitParts(b, p);
    hide Half, Low, PushBit, Disjoint;
  }

  lemma XorWithZero(x: bv16)
    ensures Xor16(x, 0) == x && Xor16(0, x) == x
  {
  }

  /** Up to sixteen input bits act on the register as if they had been XORed into it beforehand. */
  lemma {:induction false} CrcOfWindow(s: bv16, w: seq<bool>)
    requires |w| <= 16
    ensures CrcBits(s, w) == ZeroSteps(Xor16(s, Pack(w)), |w|)
    decreases |w|
  {
    if w == [] {
      XorWithZero(s);
    } else {
      PackBelowTop(w[1..]);
      AbsorbBit(s, w[0], Pack(w[1..]));
      hide Xor16, BitStep, PushBit, Disjoint;
      CrcOfWindow(BitStep(s, w[0]), w[1..]);
    }
  }

  // The nibble table: four clocks of the register at once

  lemma {:induction false} ZeroStepsLinear(x: bv16, y: bv16, n: nat)
    ensures ZeroSteps(Xor16(x, y), n) == Xor16(ZeroSteps(x, n), ZeroSteps(y, n))
    decreases n
  {
    hide Xor16, BitStep;
    if n > 0 {
      StepLinear(x, y, false, false);
      ZeroStepsLinear(BitStep(x, false), BitStep(y, false), n - 1);
    }
  }

  lemma ZeroStepOfEven(x: bv16)
    requires !Low(x)
    ensures BitStep(x, false) == Half(x)
  {
    hide Low, Half;
  }

  lemma FourZeroSteps(x: bv16)
    ensures ZeroSteps(x, 4) == BitStep(BitStep(BitStep(BitStep(x, false), false), false), false)
  {
    hide BitStep;
  }

  function Upper(x: bv16): bv16 {
    x & 0xFFF0
  }

  function Lower(x: bv16): bv16 {
    x & 0x0F
  }

  function LowerByte(c: byte): bv16 {
    (c & 0x0F) as bv16
  }

  /** With the low nibble clear, four clocks are a shift. */
  lemma FourStepsOfUpper(x: bv16)
    ensures ZeroSteps(Upper(x), 4) == Shift4(x)
  {
    hide *;
    var h := Upper(x);
    UpperNibbles(x);
    FourZeroSteps(h);
    ZeroStepOfEven(h);
    ZeroStepOfEven(Half(h));
    ZeroStepOfEven(Half(Half(h)));
    ZeroStepOfEven(Half(Half(Half(h))));
  }

  lemma UpperNibbles(x: bv16)
    ensures var h := Upper(x);
            && !Low(h) && !Low(Half(h)) && !Low(Half(Half(h))) && !Low(Half(Half(Half(h))))
            && Half(Half(Half(Half(h)))) == Shift4(x)
  {
  }

  /** The sixteen table entries are the multiples of 0x1081. */
  lemma NibbleTable(x: bv16)
    requires x < 16
    ensures ZeroSteps(x, 4) == TableEntry(x)
  {
    hide *;
    FourZeroSteps(x);
    if x < 8 {
      LowerTable(x);
    } else {
      UpperTable(x);
    }
  }

  lemma LowerTable(x: bv16)
    requires x < 8
    ensures BitStep(BitStep(BitStep(BitStep(x, false), false), false), false) == TableEntry(x)
  {
    assert x == 0 || x == 1 || x == 2 || x == 3 || x == 4 || x == 5 || x == 6 || x == 7;
  }

  lemma UpperTable(x: bv16)
    requires 8 <= x < 16
    ensures BitStep(BitStep(BitStep(BitStep(x, false), false), false), false) == TableEntry(x)
  {
    assert x == 8 || x == 9 || x == 10 || x == 11 || x == 12 || x == 13 || x == 14 || x == 15;
  }

  function Nibble(c: byte): (bits: seq<bool>)
    ensures |bits| == 4
  {
    [Bit(c, 0), Bit(c, 1), Bit(c, 2), Bit(c, 3)]
  }

  lemma PackNibble(c: byte)
    ensures Pack(Nibble(c)) == LowerByte(c)
  {
    hide PushBit, Bit, Pack;
    PackFourBits(Nibble(c), []);
    assert Nibble(c) + [] == Nibble(c);
    FourBitsMakeNibble(c);
    EmptyPack();
  }

  lemma EmptyPack()
    ensures Pack([]) == 0
  {
  }

  lemma FourBitsMakeNibble(c: byte)
    ensures PushBit(Bit(c, 0), PushBit(Bit(c, 1), PushBit(Bit(c, 2), PushBit(Bit(c, 3), 0)))) == LowerByte(c)
  {
  }

  lemma NibbleAddress(crc: bv16, c: byte)
    ensures var x := Xor16(crc, LowerByte(c));
            && Xor16(Upper(x), Lower(x)) == x
            && Shift4(x) == Shift4(crc)
            && Lower(x) < 16
            && Lower(x) == TableIndex(crc, c)
  {
  }

  /** One nibble multiplication by 0x1081 is four clocks of the shift register. */
  lemma NibbleIsBits(crc: bv16, c: byte)
    ensures NibbleStep(crc, c) == CrcBits(crc, Nibble(c))
  {
    hide Xor16, Shift4, TableIndex, TableEntry, Upper, Lower, LowerByte, CrcBits, Nibble, ZeroSteps, Pack;
    var x := Xor16(crc, LowerByte(c));
    NibbleAddress(crc, c);
    CrcOfWindow(crc, Nibble(c));
    PackNibble(c);
    ZeroStepsLinear(Upper(x), Lower(x), 4);
    FourStepsOfUpper(x);
    NibbleTable(Lower(x));
  }

  lemma TwoNibbles(c: byte)
    ensures BitsOf(c) == Nibble(c) + Nibble(c >> 4)
  {
    HighBits(c);
    hide Bit;
  }

  lemma HighBits(c: byte)
    ensures Bit(c >> 4, 0) == Bit(c, 4) && Bit(c >> 4, 1) == Bit(c, 5)
    ensures Bit(c >> 4, 2) == Bit(c, 6) && Bit(c >> 4, 3) == Bit(c, 7)
  {
  }

  /** Two nibble multiplications per byte are eight clocks. */
  lemma NibblesAreBits(crc: bv16, c: byte)
    ensures NibbleStep(NibbleStep(crc, c), c >> 4) == CrcBits(crc, BitsOf(c))
  {
    hide *;
    NibbleIsBits(crc, c);
    NibbleIsBits(NibbleStep(crc, c), c >> 4);
    TwoNibbles(c);
    CrcBitsConcat(crc, Nibble(c), Nibble(c >> 4));
  }

  /** A step on a zero bit is a bijection that fixes zero. */
  lemma ZeroStepFixesOnlyZero(s: bv16)
    ensures BitStep(s, false) == 0 <==> s == 0
  {
  }

  lemma {:induction false} ZeroStepsFixOnlyZero(s: bv16, n: nat)
    ensures ZeroSteps(s, n) == 0 <==> s == 0
    decreases n
  {
    if n > 0 {
      ZeroStepFixesOnlyZero(s);
      ZeroStepsFixOnlyZero(BitStep(s, false), n - 1);
    }
  }

  ghost predicate AllClear(bits: seq<bool>) {
    forall k :: 0 <= k < |bits| ==> !bits[k]
  }

  lemma {:induction false} CrcOfClear(s: bv16, bits: seq<bool>)
    requires AllClear(bits)
    ensures CrcBits(s, bits) == ZeroSteps(s, |bits|)
    decreases |bits|
  {
    if bits != [] {
      CrcOfClear(BitStep(s, bits[0]), bits[1..]);
    }
  }

  lemma {:induction false} PackNonzero(w: seq<bool>)
    requires |w| <= 16 && !AllClear(w)
    ensures Pack(w) != 0
    decreases |w|
  {
    PackBelowTop(w[1..]);
    if !w[0] {
      assert !AllClear(w[1..]) by {
        var k :| 0 <= k < |w| && w[k];
        assert w[1..][k - 1];
      }
      PackNonzero(w[1..]);
    }
    hide *;
    PushBitNonzero(w[0], Pack(w[1..]));
    PackOne(w);
  }

  lemma PackOne(w: seq<bool>)
    requires w != []
    ensures Pack(w) == PushBit(w[0], Pack(w[1..]))
  {
  }

  lemma PushBitNonzero(b: bool, p: bv16)
    requires Disjoint(p, TOP) && (b || p != 0)
    ensures PushBit(b, p) != 0
  {
  }

  // The check as the receiver makes it

  predicate FcsMatches(frame: seq<byte>)
    requires |frame| >= 2
  {
    Fcs(frame[..|frame| - 2]) == FromLe16(frame[|frame| - 2], frame[|frame| - 1])
  }

  /** Data followed by its own little-endian check sequence leaves the register at zero, and only it does. */
  lemma ResidueIsZero(frame: seq<byte>)
    requires |frame| >= 2
    ensures FcsMatches(frame) <==> Fcs(frame) == 0
  {
    hide Xor16, BitStep, BitsOf, FromLe16, Pack;
    var body, lo, hi := frame[..|frame| - 2], frame[|frame| - 2], frame[|frame| - 1];
    assert frame == body + [lo, hi];
    BitsConcat(body, [lo, hi]);
    CrcBitsConcat(0, Bits(body), Bits([lo, hi]));
    assert Bits([lo, hi]) == BitsOf(lo) + BitsOf(hi) by {
      assert [lo, hi][1..] == [hi];
      assert [hi][1..] == [];
      assert BitsOf(hi) + [] == BitsOf(hi);
    }
    CrcOfWindow(Fcs(body), BitsOf(lo) + BitsOf(hi));
    PackTwoBytes(lo, hi);
    ZeroStepsFixOnlyZero(Xor16(Fcs(body), FromLe16(lo, hi)), 16);
    XorZero(Fcs(body), FromLe16(lo, hi));
  }

  lemma XorZero(x: bv16, y: bv16)
    ensures Xor16(x, y) == 0 <==> x == y
  {
  }

  lemma {:induction false} BitsConcat(a: seq<byte>, b: seq<byte>)
    ensures Bits(a + b) == Bits(a) + Bits(b)
    decreases |a|
  {
    if a == [] {
      assert a + b == b;
    } else {
      assert (a + b)[1..] == a[1..] + b;
      BitsConcat(a[1..], b);
    }
  }

  lemma PackTwoBytes(lo: byte, hi: byte)
    ensures Pack(BitsOf(lo) + BitsOf(hi)) == FromLe16(lo, hi)
  {
    PackEight(lo, BitsOf(hi));
    PackEight(hi, []);
    assert BitsOf(hi) + [] == BitsOf(hi);
    JoinHalves(lo, hi);
  }

  lemma JoinHalves(lo: byte, hi: byte)
    ensures (lo as bv16) | (((hi as bv16) | (0 << 8)) << 8) == FromLe16(lo, hi)
  {
  }

  lemma PackEight(c: byte, rest: seq<bool>)
    ensures Pack(BitsOf(c) + rest) == (c as bv16) | (Pack(rest) << 8)
  {
    hide PushBit, Bit;
    EightBitsMakeByte(c, Pack(rest));
    PackEightBits(BitsOf(c), rest);
  }

  lemma PackEightBits(b: seq<bool>, rest: seq<bool>)
    requires |b| == 8
    ensures Pack(b + rest) == PushBit(b[0], PushBit(b[1], PushBit(b[2], PushBit(b[3],
                              PushBit(b[4], PushBit(b[5], PushBit(b[6], PushBit(b[7], Pack(rest)))))))))
  {
    hide *;
    PackFourBits(b[4..], rest);
    PackFourBits(b[..4], b[4..] + rest);
    assert b + rest == b[..4] + (b[4..] + rest);
  }

  lemma PackFourBits(b: seq<bool>, rest: seq<bool>)
    requires |b| == 4
    ensures Pack(b + rest) == PushBit(b[0], PushBit(b[1], PushBit(b[2], PushBit(b[3], Pack(rest)))))
  {
    hide *;
    var r3 := PackCons(b[3], rest);
    var r2 := PackCons(b[2], r3);
    var r1 := PackCons(b[1], r2);
    var r0 := PackCons(b[0], r1);
    assert r0 == b + rest;
  }

  lemma PackCons(b: bool, w: seq<bool>) returns (r: seq<bool>)
    ensures r == [b] + w && Pack(r) == PushBit(b, Pack(w))
  {
    r := [b] + w;
    assert r[1..] == w;
  }

  lemma EightBitsMakeByte(c: byte, p: bv16)
    ensures PushBit(Bit(c, 0), PushBit(Bit(c, 1), PushBit(Bit(c, 2), PushBit(Bit(c, 3),
            PushBit(Bit(c, 4), PushBit(Bit(c, 5), PushBit(Bit(c, 6), PushBit(Bit(c, 7), p))))))))
            == (c as bv16) | (p << 8)
  {
  }

  // Error detection

  /** All differences between two bit streams lie in `length` consecutive positions from `start`. */
  ghost predicate DifferOnlyWithin(a: seq<bool>, b: seq<bool>, start: nat, length: nat)
    requires |a| == |b|
  {
    forall k :: 0 <= k < |a| && a[k] != b[k] ==> start <= k < start + length
  }

  /** What the receiver cannot see: exactly the error patterns whose own register ends at zero. */
  lemma UndetectedErrors(x: seq<byte>, y: seq<byte>)
    requires |x| == |y| >= 2 && FcsMatches(x)
    ensures FcsMatches(y) <==> Fcs(Xor(x, y)) == 0
  {
    ResidueIsZero(x);
    ResidueIsZero(y);
    FcsLinear(x, y);
    XorZero(Fcs(x), Fcs(y));
  }

  lemma {:induction false} DifferentBytesDifferInABit(x: seq<byte>, y: seq<byte>)
    requires |x| == |y| && x != y
    ensures exists k :: 0 <= k < |Bits(x)| && Bits(x)[k] != Bits(y)[k]
    decreases |x|
  {
    if x[0] != y[0] {
      ByteFromBits(x[0], y[0]);
      var k :| 0 <= k < 8 && BitsOf(x[0])[k] != BitsOf(y[0])[k];
      assert Bits(x)[k] != Bits(y)[k];
    } else {
      assert x[1..] != y[1..] by {
        assert x == [x[0]] + x[1..] && y == [y[0]] + y[1..];
      }
      DifferentBytesDifferInABit(x[1..], y[1..]);
      var k :| 0 <= k < |Bits(x[1..])| && Bits(x[1..])[k] != Bits(y[1..])[k];
      assert Bits(x)[k + 8] != Bits(y)[k + 8];
    }
  }

  lemma ByteFromBits(a: byte, b: byte)
    requires a != b
    ensures exists k :: 0 <= k < 8 && BitsOf(a)[k] != BitsOf(b)[k]
  {
    if forall k :: 0 <= k < 8 ==> BitsOf(a)[k] == BitsOf(b)[k] {
      assert BitsOf(a) + [] == BitsOf(b) + [];
      PackEight(a, []);
      PackEight(b, []);
      WidenInjective(a, b);
      assert false;
    }
  }

  lemma WidenInjective(a: byte, b: byte)
    requires (a as bv16) | (Pack([]) << 8) == (b as bv16) | (Pack([]) << 8)
    ensures a == b
  {
  }

  /** A nonzero error confined to sixteen consecutive bits leaves the register nonzero. */
  lemma BurstLeavesResidue(e: seq<bool>, start: nat)
    requires !AllClear(e)
    requires forall k :: 0 <= k < |e| && e[k] ==> start <= k < start + 16
    ensures CrcBits(0, e) != 0
  {
    hide CrcBits, Pack;
    var first :| 0 <= first < |e| && e[first];
    var end := if start + 16 <= |e| then start + 16 else |e|;
    assert e[start..end][first - start];
    assert AllClear(e[..start]);
    forall k | 0 <= k < |e| - end
      ensures !e[end..][k]
    {
      assert e[end..][k] == e[end + k];
    }
    SplitInThree(e, start, end);
    BurstBetweenClear(e[..start], e[start..end], e[end..]);
  }

  lemma SplitInThree(e: seq<bool>, i: nat, j: nat)
    requires i <= j <= |e|
    ensures e == e[..i] + (e[i..j] + e[j..])
  {
    assert e[i..] == e[i..j] + e[j..];
    assert e == e[..i] + e[i..];
  }

  lemma BurstBetweenClear(before: seq<bool>, burst: seq<bool>, after: seq<bool>)
    requires AllClear(before) && AllClear(after)
    requires |burst| <= 16 && !AllClear(burst)
    ensures CrcBits(0, before + (burst + after)) != 0
  {
    hide *;
    CrcBitsConcat(0, before, burst + after);
    CrcBitsConcat(CrcBits(0, before), burst, after);
    CrcOfClear(0, before);
    ZeroStepsFixOnlyZero(0, |before|);
    CrcOfWindow(0, burst);
    PackNonzero(burst);
    XorWithZero(Pack(burst));
    ZeroStepsFixOnlyZero(Pack(burst), |burst|);
    CrcOfClear(CrcBits(0, burst), after);
    ZeroStepsFixOnlyZero(CrcBits(0, burst), |after|);
  }

  /** Every change confined to sixteen consecutive bits, in the data, the check sequence or across both, is caught. */
  lemma {:induction false} BurstsAreDetected(x: seq<byte>, y: seq<byte>, start: nat)
    requires |x| == |y| >= 2 && x != y && FcsMatches(x)
    requires DifferOnlyWithin(Bits(x), Bits(y), start, 16)
    ensures !FcsMatches(y)
  {
    UndetectedErrors(x, y);
    BitsOfXor(x, y);
    var e := XorBits(Bits(x), Bits(y));
    DifferentBytesDifferInABit(x, y);
    var k :| 0 <= k < |Bits(x)| && Bits(x)[k] != Bits(y)[k];
    assert e[k];
    BurstLeavesResidue(e, start);
  }

  /** In particular, any damage to two neighbouring bytes. */
  lemma NeighbouringBytesAreDetected(x: seq<byte>, y: seq<byte>, i: nat)
    requires |x| == |y| >= 2 && x != y && FcsMatches(x)
    requires forall k :: 0 <= k < |x| && x[k] != y[k] ==> k == i || k == i + 1
    ensures !FcsMatches(y)
  {
    forall k | 0 <= k < |Bits(x)| && Bits(x)[k] != Bits(y)[k]
      ensures 8 * i <= k < 8 * i + 16
    {
      BitInByte(x, k);
      BitInByte(y, k);
    }
    BurstsAreDetected(x, y, 8 * i);
  }

  lemma {:induction false} BitInByte(data: seq<byte>, k: nat)
    requires k < 8 * |data|
    ensures Bits(data)[k] == BitsOf(data[k / 8])[k % 8]
    decreases |data|
  {
    hide BitsOf;
    if k >= 8 {
      BitInByte(data[1..], k - 8);
    }
  }

  /** Sixteen is the most that can be promised: this seventeen-bit burst is the generator itself. */
  lemma SeventeenBitBurstEscapes()
    ensures FcsMatches([0, 0, 0]) && FcsMatches([0x11, 0x08, 0x01])
    ensures DifferOnlyWithin(Bits([0, 0, 0]), Bits([0x11, 0x08, 0x01]), 0, 17)
  {
    ZerosMatch();
    GeneratorMatches();
    hide FcsMatches;
    var x: seq<byte>, y: seq<byte> := [0, 0, 0], [0x11, 0x08, 0x01];
    forall k | 0 <= k < 24 && Bits(x)[k] != Bits(y)[k]
      ensures 0 <= k < 17
    {
      hide Bits, BitsOf;
      BitInByte(x, k);
      BitInByte(y, k);
      if k >= 17 {
        OnlyLowBitOfOne(k - 16);
      }
    }
  }

  lemma ZerosMatch()
    ensures FcsMatches([0, 0, 0])
  {
    var x: seq<byte> := [0, 0, 0];
    assert x[..1] == [0];
    FcsOfOneByte(0);
    hide Fcs;
  }

  lemma GeneratorMatches()
    ensures FcsMatches([0x11, 0x08, 0x01])
  {
    var y: seq<byte> := [0x11, 0x08, 0x01];
    assert y[..1] == [0x11];
    FcsOfOneByte(0x11);
    hide Fcs;
  }

  lemma OnlyLowBitOfOne(j: nat)
    requires 1 <= j < 8
    ensures BitsOf(0)[j] == BitsOf(1)[j]
  {
  }

  lemma FcsOfOneByte(c: byte)
    ensures Fcs([c]) == NibbleStep(NibbleStep(0, c), c >> 4)
  {
    CrcOfNextByte(0, [c]);
  }

  // Errors of odd weight

  predicate Odd(bits: seq<bool>)
    decreases |bits|
  {
    bits != [] && bits[0] != Odd(bits[1..])
  }

  predicate OddBits(x: bv16, n: nat)
    decreases n
  {
    n > 0 && Low(x) != OddBits(Half(x), n - 1)
  }

  /** Whether a register value has an odd number of bits set. */
  predicate OddWord(x: bv16) {
    OddBits(x, 16)
  }

  lemma StepKeepsParity(s: bv16, b: bool)
    ensures OddWord(BitStep(s, b)) == (OddWord(s) != b)
  {
    HalfParity(s);
    GeneratorIsOdd(Half(s));
    hide OddWord, Half, Low, Xor16;
  }

  lemma HalfParity(s: bv16)
    ensures OddWord(Half(s)) == (OddWord(s) != Low(s))
  {
    assert BitsFrom(15) == TOP;
    HalfClearsTop(s);
    hide Low, Half, Disjoint;
    ClearBitIsEven(Half(s), 15);
  }

  lemma HalfClearsTop(s: bv16)
    ensures Disjoint(Half(s), TOP)
  {
  }

  lemma {:induction false} ClearBitIsEven(x: bv16, n: nat)
    requires Disjoint(x, BitsFrom(n))
    ensures OddBits(x, n + 1) == OddBits(x, n)
    decreases n
  {
    if n == 0 {
      DisjointFromAll(x);
    } else {
      HalfDisjoint(x, BitsFrom(n - 1));
      hide Low, Half, Disjoint;
      ClearBitIsEven(Half(x), n - 1);
    }
  }

  lemma DisjointFromAll(x: bv16)
    requires Disjoint(x, 0xFFFF)
    ensures !Low(x)
  {
  }

  lemma HalfDisjoint(x: bv16, mask: bv16)
    requires Disjoint(x, Double(mask))
    ensures Disjoint(Half(x), mask)
  {
  }

  lemma OddBitsStep(x: bv16, n: nat)
    requires n > 0
    ensures OddBits(x, n) == (Low(x) != OddBits(Half(x), n - 1))
  {
  }

  lemma {:induction false} XorParity(x: bv16, y: bv16, n: nat)
    ensures OddBits(Xor16(x, y), n) == (OddBits(x, n) != OddBits(y, n))
    decreases n
  {
    if n == 0 {
      hide Low, Half, Xor16;
    } else {
      hide *;
      XorParityStep(x, y, n);
      XorParity(Half(x), Half(y), n - 1);
    }
  }

  lemma XorParityStep(x: bv16, y: bv16, n: nat)
    requires n > 0
    ensures OddBits(Xor16(x, y), n) == ((Low(x) != Low(y)) != OddBits(Xor16(Half(x), Half(y)), n - 1))
    ensures OddBits(x, n) == (Low(x) != OddBits(Half(x), n - 1))
    ensures OddBits(y, n) == (Low(y) != OddBits(Half(y), n - 1))
  {
    hide *;
    XorParts(x, y);
    OddBitsStep(Xor16(x, y), n);
    OddBitsStep(x, n);
    OddBitsStep(y, n);
  }

  lemma TapsAreOdd()
    ensures OddWord(POLYNOMIAL)
  {
    assert Half(0x8408) == 0x4204 && Half(0x4204) == 0x2102 && Half(0x2102) == 0x1081 && Half(0x1081) == 0x840;
    assert Half(0x840) == 0x420 && Half(0x420) == 0x210 && Half(0x210) == 0x108 && Half(0x108) == 0x84;
    assert Half(0x84) == 0x42 && Half(0x42) == 0x21 && Half(0x21) == 0x10 && Half(0x10) == 0x8;
    assert Half(0x8) == 0x4 && Half(0x4) == 0x2 && Half(0x2) == 0x1 && Half(0x1) == 0;
    assert OddBits(0x1, 1);
    assert OddBits(0x8, 4);
    assert !OddBits(0x21, 6);
    assert !OddBits(0x108, 9);
    assert !OddBits(0x840, 12);
    assert OddBits(0x1081, 13);
  }

  /** The generator has three feedback taps, so feeding it back flips the parity. */
  lemma GeneratorIsOdd(x: bv16)
    ensures OddWord(Xor16(x, POLYNOMIAL)) == !OddWord(x)
  {
    TapsAreOdd();
    hide Low, Half, Xor16;
    XorParity(x, POLYNOMIAL, 16);
  }

  lemma {:induction false} CrcKeepsParity(s: bv16, bits: seq<bool>)
    ensures OddWord(CrcBits(s, bits)) == (OddWord(s) != Odd(bits))
    decreases |bits|
  {
    hide OddWord, BitStep;
    if bits != [] {
      StepKeepsParity(s, bits[0]);
      CrcKeepsParity(BitStep(s, bits[0]), bits[1..]);
    }
  }

  lemma {:induction false} ZeroIsEven(n: nat)
    ensures !OddBits(0, n)
    decreases n
  {
    if n > 0 {
      ZeroIsEven(n - 1);
      assert Half(0) == 0 && !Low(0);
    }
  }

  /** An odd number of flipped bits, however scattered, is always caught. */
  lemma {:induction false} OddErrorsAreDetected(x: seq<byte>, y: seq<byte>)
    requires |x| == |y| >= 2 && FcsMatches(x)
    requires Odd(XorBits(Bits(x), Bits(y)))
    ensures !FcsMatches(y)
  {
    ZeroIsEven(16);
    hide OddBits, Xor8, BitsOf;
    UndetectedErrors(x, y);
    BitsOfXor(x, y);
    CrcKeepsParity(0, XorBits(Bits(x), Bits(y)));
  }
}
