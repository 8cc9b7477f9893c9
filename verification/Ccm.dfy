/**
 CCM* as the network layer uses it: the block loops of the program, the byte-by-byte and block-by-block definitions of
 RFC 3610 with M = 4 and L = 2, and the lemmas between them. The block cipher is an arbitrary function.
 */
module Ccm {
  import opened Bytes

  type Block = s: seq<byte> | |s| == 16 witness [0, 0, 0, 0, 0, 0, 0, 0, 0, 0, 0, 0, 0, 0, 0, 0]

  type Key = Block

  type Nonce = s: seq<byte> | |s| == 13 witness [0, 0, 0, 0, 0, 0, 0, 0, 0, 0, 0, 0, 0]

  type Tag = s: seq<byte> | |s| == 4 witness [0, 0, 0, 0]

  type Cipher = (Key, Block) -> Block

  function Encipher(E: Cipher, key: Key, b: Block): Block {
    E(key, b)
  }

  const ZERO: Block := [0, 0, 0, 0, 0, 0, 0, 0, 0, 0, 0, 0, 0, 0, 0, 0]

  lemma XorTwice(x: byte, y: byte)
    ensures Xor8(x, Xor8(x, y)) == y
  {
  }

  lemma XorZero(y: byte)
    ensures Xor8(0, y) == y
  {
  }

  // Padding

  /** Byte `i` of a byte string followed by zeros without end. */
  function ByteAt(data: seq<byte>, i: nat): byte {
    if i < |data| then data[i] else 0
  }

  function BlockAt(data: seq<byte>, j: nat): (b: Block)
    ensures forall i :: 0 <= i < 16 ==> b[i] == ByteAt(data, 16 * j + i)
  {
    seq(16, i requires 0 <= i < 16 => ByteAt(data, 16 * j + i))
  }

  function BlockCount(n: nat): nat {
    (n + 15) / 16
  }

  function PaddedBlocks(data: seq<byte>): seq<Block> {
    seq(BlockCount(|data|), j requires 0 <= j < BlockCount(|data|) => BlockAt(data, j))
  }

  function Concat(blocks: seq<Block>): seq<byte> {
    if blocks == [] then [] else blocks[0] + Concat(blocks[1..])
  }

  lemma {:induction false} ConcatLength(blocks: seq<Block>)
    ensures |Concat(blocks)| == 16 * |blocks|
    decreases |blocks|
  {
    if blocks != [] {
      ConcatLength(blocks[1..]);
    }
  }

  lemma {:induction false} ConcatAt(blocks: seq<Block>, i: nat)
    requires i < 16 * |blocks|
    ensures |Concat(blocks)| == 16 * |blocks| && Concat(blocks)[i] == blocks[i / 16][i % 16]
    decreases |blocks|
  {
    ConcatLength(blocks);
    if i >= 16 {
      ConcatAt(blocks[1..], i - 16);
    }
  }

  function ZeroBytes(n: nat): (z: seq<byte>)
    ensures |z| == n && forall i :: 0 <= i < n ==> z[i] == 0
  {
    seq(n, _ => 0)
  }

  /** The padded blocks laid end to end are the data and then the fewest zeros that reach a multiple of sixteen. */
  lemma PaddingIsZeros(data: seq<byte>)
    ensures var zeros := (16 - |data| % 16) % 16;
            Concat(PaddedBlocks(data)) == data + ZeroBytes(zeros)
  {
    var zeros := (16 - |data| % 16) % 16;
    var padded := Concat(PaddedBlocks(data));
    ConcatLength(PaddedBlocks(data));
    assert 16 * BlockCount(|data|) == |data| + zeros;
    forall i | 0 <= i < |padded|
      ensures padded[i] == ByteAt(data, i)
    {
      ConcatAt(PaddedBlocks(data), i);
    }
  }

  lemma PaddedBlocksInjective(c: seq<byte>, d: seq<byte>)
    requires |c| == |d| && PaddedBlocks(c) == PaddedBlocks(d)
    ensures c == d
  {
    forall i | 0 <= i < |c|
      ensures c[i] == d[i]
    {
      assert BlockAt(c, i / 16) == PaddedBlocks(c)[i / 16] == PaddedBlocks(d)[i / 16] == BlockAt(d, i / 16);
      assert BlockAt(c, i / 16)[i % 16] == BlockAt(d, i / 16)[i % 16];
    }
  }

  method RightPadToMultipleOf16(data: seq<byte>) returns (blocks: seq<Block>)
    ensures blocks == PaddedBlocks(data)
  {
    blocks := [];
    var full := |data| / 16;
    for i := 0 to full
      invariant |blocks| == i
      invariant forall j :: 0 <= j < i ==> blocks[j] == BlockAt(data, j)
    {
      var chunk := data[16 * i..16 * i + 16];
      assert chunk == BlockAt(data, i);
      blocks := blocks + [chunk];
    }

    var remainder := |data| % 16;
    if remainder != 0 {
      var offset := |data| - remainder;
      var lastBlock := data[offset..] + ZERO[remainder..];
      assert lastBlock == BlockAt(data, full);
      blocks := blocks + [lastBlock];
    }
  }

  // Section 2.3 of RFC 3610: encryption

  /** Counter block A_i; the block number is cut to its last two bytes. */
  function CounterBlock(nonce: Nonce, i: nat): Block {
    [0x01] + nonce + Be16(i)
  }

  function Keystream(E: Cipher, key: Key, nonce: Nonce, i: nat): Block {
    Encipher(E, key, CounterBlock(nonce, i))
  }

  function CryptByte(E: Cipher, key: Key, nonce: Nonce, data: seq<byte>, i: nat): byte
    requires i < |data|
  {
    Xor8(Keystream(E, key, nonce, 1 + i / 16)[i % 16], data[i])
  }

  /** Byte `i` of the message meets byte `i mod 16` of the cipher on counter block `1 + i / 16`. */
  function CryptData(E: Cipher, key: Key, nonce: Nonce, data: seq<byte>): (r: seq<byte>)
    ensures |r| == |data|
  {
    seq(|data|, i requires 0 <= i < |data| => CryptByte(E, key, nonce, data, i))
  }

  /** The tag meets the first bytes of the cipher on counter block 0. */
  function CryptTag(E: Cipher, key: Key, nonce: Nonce, tag: Tag): Tag {
    seq(4, i requires 0 <= i < 4 => Xor8(Keystream(E, key, nonce, 0)[i], tag[i]))
  }

  /** Encryption is its own inverse at every length, the empty message included. */
  lemma CryptTwice(E: Cipher, key: Key, nonce: Nonce, data: seq<byte>, tag: Tag)
    ensures CryptData(E, key, nonce, CryptData(E, key, nonce, data)) == data
    ensures CryptTag(E, key, nonce, CryptTag(E, key, nonce, tag)) == tag
  {
    forall x, y
      ensures Xor8(x, Xor8(x, y)) == y
    {
      XorTwice(x, y);
    }
    hide Xor8, Keystream;
    var once := CryptData(E, key, nonce, data);
    forall i | 0 <= i < |data|
      ensures CryptData(E, key, nonce, once)[i] == data[i]
    {
      assert once[i] == CryptByte(E, key, nonce, data, i);
    }
    var crypted := CryptTag(E, key, nonce, tag);
    forall i | 0 <= i < 4
      ensures CryptTag(E, key, nonce, crypted)[i] == tag[i]
    {
    }
  }

  function XorBlock(a: Block, b: Block): Block {
    Xor(a, b)
  }

  method EncryptDecrypt(E: Cipher, key: Key, nonce: Nonce, macTag: Tag, plaintext: seq<byte>)
    returns (encryptedMacTag: Tag, ciphertext: seq<byte>)
    ensures encryptedMacTag == CryptTag(E, key, nonce, macTag)
    ensures ciphertext == CryptData(E, key, nonce, plaintext)
  {
    var tagBlocks := RightPadToMultipleOf16(macTag);
    var plaintextBlocks := RightPadToMultipleOf16(plaintext);
    var blocks := tagBlocks + plaintextBlocks;

    var out: seq<Block> := [];
    hide Xor8, Be16, Encipher;
    for i := 0 to |blocks|
      invariant |out| == i
      invariant forall j :: 0 <= j < i ==> out[j] == XorBlock(Keystream(E, key, nonce, j), blocks[j])
    {
      var counterBlock: Block := [0x01] + nonce + Be16(i);
      var buffer := Encipher(E, key, counterBlock);
      out := out + [XorBlock(buffer, blocks[i])];
    }

    encryptedMacTag := out[0][..4];
    var joined := Concat(out[1..]);
    ConcatLength(out[1..]);
    ciphertext := joined[..|plaintext|];
    hide Xor8, Keystream, BlockAt;
    assert blocks[0] == BlockAt(macTag, 0);
    assert encryptedMacTag == CryptTag(E, key, nonce, macTag);
    assert forall j :: 0 <= j < |plaintextBlocks| ==> blocks[1 + j] == plaintextBlocks[j] == BlockAt(plaintext, j);
    JoinedBlocks(E, key, nonce, plaintext, out[1..]);
  }

  lemma JoinedBlocks(E: Cipher, key: Key, nonce: Nonce, data: seq<byte>, out: seq<Block>)
    requires |out| == BlockCount(|data|)
    requires forall j :: 0 <= j < |out| ==> out[j] == XorBlock(Keystream(E, key, nonce, 1 + j), BlockAt(data, j))
    ensures |Concat(out)| >= |data| && Concat(out)[..|data|] == CryptData(E, key, nonce, data)
  {
    hide Xor8, Keystream, BlockAt;
    ConcatLength(out);
    forall i | 0 <= i < |data|
      ensures Concat(out)[i] == CryptByte(E, key, nonce, data, i)
    {
      ConcatAt(out, i);
    }
  }

  // Section 2.2 of RFC 3610: authentication

  /** The last `k` bytes of a number, most significant first. */
  function BigEndian(n: nat, k: nat): (r: seq<byte>)
    ensures |r| == k
    decreases k
  {
    if k == 0 then [] else BigEndian(n / 256, k - 1) + [U8(n)]
  }

  /** The flags byte of B_0 for a tag of `m` bytes and a length field of `l` bytes. */
  function Flags(authenticated: bool, m: nat, l: nat): nat
    requires m >= 2 && l >= 1
  {
    (if authenticated then 64 else 0) + 8 * ((m - 2) / 2) + (l - 1)
  }

  /** How the length of the authenticated data is written in front of it. */
  function LengthPrefix(l: nat): seq<byte> {
    if l < 0xFF00 then BigEndian(l, 2)
    else if l < 0x1_0000_0000 then [0xFF, 0xFE] + BigEndian(l, 4)
    else [0xFF, 0xFF] + BigEndian(l, 8)
  }

  /** The blocks B_0 ... B_n. */
  function AuthenticationBlocks(nonce: Nonce, auth: seq<byte>, message: seq<byte>): seq<Block> {
    var first: Block := [U8(Flags(auth != [], 4, 2))] + nonce + BigEndian(|message|, 2);
    [first] + (if auth == [] then [] else PaddedBlocks(LengthPrefix(|auth|) + auth)) + PaddedBlocks(message)
  }

  /** X_i, with X_1 = E(B_0) and X_{i+1} = E(X_i xor B_i). */
  function Chained(E: Cipher, key: Key, blocks: seq<Block>, i: nat): Block
    requires 1 <= i <= |blocks|
  {
    if i == 1 then Encipher(E, key, blocks[0])
    else Encipher(E, key, XorBlock(Chained(E, key, blocks, i - 1), blocks[i - 1]))
  }

  function CbcMac(E: Cipher, key: Key, blocks: seq<Block>): Tag
    requires blocks != []
  {
    Chained(E, key, blocks, |blocks|)[..4]
  }

  // The same, as the program does it

  function FirstBlock(nonce: Nonce, messageLength: nat): Block {
    [0x49] + nonce + Be16(messageLength)
  }

  function FormattedBlocks(nonce: Nonce, auth: seq<byte>, message: seq<byte>): (r: seq<Block>)
    ensures r != []
  {
    [FirstBlock(nonce, |message|)] + PaddedBlocks(Be16(|auth|) + auth) + PaddedBlocks(message)
  }

  function Mac(E: Cipher, key: Key, nonce: Nonce, auth: seq<byte>, message: seq<byte>): Tag {
    CbcMac(E, key, FormattedBlocks(nonce, auth, message))
  }

  /** Block `i` of cipher block chaining. */
  function ChainedFrom(E: Cipher, key: Key, iv: Block, blocks: seq<Block>, i: nat): Block
    requires i < |blocks|
  {
    Encipher(E, key, XorBlock(if i == 0 then iv else ChainedFrom(E, key, iv, blocks, i - 1), blocks[i]))
  }

  method EncryptBlocks(E: Cipher, key: Key, iv: Block, buffer: array<Block>)
    modifies buffer
    ensures forall i :: 0 <= i < buffer.Length ==> buffer[i] == ChainedFrom(E, key, iv, old(buffer[..]), i)
  {
    hide Encipher, XorBlock;
    ghost var was := buffer[..];
    var previous := iv;
    for i := 0 to buffer.Length
      invariant previous == if i == 0 then iv else ChainedFrom(E, key, iv, was, i - 1)
      invariant forall j :: i <= j < buffer.Length ==> buffer[j] == was[j]
      invariant forall j :: 0 <= j < i ==> buffer[j] == ChainedFrom(E, key, iv, was, j)
    {
      buffer[i] := Encipher(E, key, XorBlock(previous, buffer[i]));
      previous := buffer[i];
    }
  }

  method ComputeMac(E: Cipher, key: Key, nonce: Nonce, authData: seq<byte>, plaintext: seq<byte>) returns (macTag: Tag)
    ensures macTag == Mac(E, key, nonce, authData, plaintext)
  {
    hide U8, Encipher, XorBlock, BlockAt;
    var encodedAuthDataLen := Be16(|authData|);
    var addedAuthData := encodedAuthDataLen + authData;
    var encodedPlaintextLen := Be16(|plaintext|);
    var b0: Block := [0x49] + nonce + encodedPlaintextLen;

    var authedPlaintext := RightPadToMultipleOf16(addedAuthData);
    var plaintextBlocks := RightPadToMultipleOf16(plaintext);
    authedPlaintext := authedPlaintext + plaintextBlocks;
    var blocks := [b0] + authedPlaintext;
    assert blocks == FormattedBlocks(nonce, authData, plaintext);

    var buffer := new Block[|blocks|](i requires 0 <= i < |blocks| => blocks[i]);
    assert buffer[..] == blocks;
    EncryptBlocks(E, key, ZERO, buffer);
    ZeroBlockChain(E, key, blocks, |blocks|);
    macTag := buffer[buffer.Length - 1][..4];
  }

  /** Chaining from the zero block is the chain of RFC 3610. */
  lemma {:induction false} ZeroBlockChain(E: Cipher, key: Key, blocks: seq<Block>, i: nat)
    requires 1 <= i <= |blocks|
    ensures ChainedFrom(E, key, ZERO, blocks, i - 1) == Chained(E, key, blocks, i)
  {
    if i == 1 {
      ZeroBlockIsNeutral(blocks[0]);
    } else {
      hide Encipher, XorBlock;
      ZeroBlockChain(E, key, blocks, i - 1);
    }
  }

  lemma ZeroBlockIsNeutral(b: Block)
    ensures XorBlock(ZERO, b) == b
  {
    forall i | 0 <= i < 16
      ensures Xor8(0, b[i]) == b[i]
    {
      XorZero(b[i]);
    }
  }

  /**
   The program's blocks are those of RFC 3610 exactly when the authenticated data is non-empty and short enough for the
   two-byte length form.
   */
  lemma FormattingIsRfc3610(nonce: Nonce, auth: seq<byte>, message: seq<byte>)
    ensures FormattedBlocks(nonce, auth, message) == AuthenticationBlocks(nonce, auth, message) <==> 0 < |auth| < 0xFF00
  {
    BigEndianOfTwo(|auth|);
    BigEndianOfTwo(|message|);
    FlagsWithData();
    FlagsWithoutData();
    hide U8;
    if |auth| == 0 {
      assert FormattedBlocks(nonce, auth, message)[0][0] != AuthenticationBlocks(nonce, auth, message)[0][0];
    } else if |auth| >= 0xFF00 {
      LongPrefixDiffers(nonce, auth, message);
    }
  }

  /** From 0xFF00 on the prefixes differ, and no padding or repetition in the data can hide that. */
  lemma LongPrefixDiffers(nonce: Nonce, auth: seq<byte>, message: seq<byte>)
    requires |auth| >= 0xFF00
    ensures FormattedBlocks(nonce, auth, message) != AuthenticationBlocks(nonce, auth, message)
  {
    var p1, p2 := PaddedBlocks(Be16(|auth|) + auth), PaddedBlocks(LengthPrefix(|auth|) + auth);
    var f1, f2 := FormattedBlocks(nonce, auth, message), AuthenticationBlocks(nonce, auth, message);
    assert p1 == f1[1..1 + |p1|] && p2 == f2[1..1 + |p2|];
    if |auth| < 0x1_0000_0000 {
      SixByteForm(auth);
    } else {
      TenByteForm(auth);
    }
  }

  lemma SamePaddedBytes(c: seq<byte>, d: seq<byte>, i: nat)
    requires PaddedBlocks(c) == PaddedBlocks(d) && i < 16 * BlockCount(|c|)
    ensures ByteAt(c, i) == ByteAt(d, i)
  {
    assert PaddedBlocks(c)[i / 16] == BlockAt(c, i / 16) && PaddedBlocks(d)[i / 16] == BlockAt(d, i / 16);
    assert BlockAt(c, i / 16)[i % 16] == BlockAt(d, i / 16)[i % 16];
  }

  /** Equal first bytes fix the length modulo 2^16, and then one form needs a block more than the other. */
  lemma SixByteForm(auth: seq<byte>)
    requires 0xFF00 <= |auth| < 0x1_0000_0000
    ensures PaddedBlocks(Be16(|auth|) + auth) != PaddedBlocks(LengthPrefix(|auth|) + auth)
  {
    hide U8, BigEndian;
    var l := |auth|;
    var c, d := Be16(l) + auth, LengthPrefix(l) + auth;
    EndBytes();
    U8Value(l);
    if PaddedBlocks(c) == PaddedBlocks(d) {
      SamePaddedBytes(c, d, 1);
    }
  }

  lemma EndBytes()
    ensures Nat8(0xFE) == 0xFE && Nat8(0xFF) == 0xFF
  {
    assert Narrow(7, 3) == 7 by {
      assert Narrow(3, 2) == 3;
    }
    assert Narrow(15, 4) == 15;
    assert Narrow(31, 5) == 31;
    assert Narrow(63, 6) == 63;
    assert Narrow(127, 7) == 127;
    assert Narrow(254, 8) == 254;
    assert Narrow(255, 8) == 255;
    U8Value(254);
    U8Value(255);
  }

  /** Equal bytes would carry the last byte of the prefix through the data to its end, where only padding stands. */
  lemma TenByteForm(auth: seq<byte>)
    requires |auth| >= 0x1_0000_0000
    ensures PaddedBlocks(Be16(|auth|) + auth) != PaddedBlocks(LengthPrefix(|auth|) + auth)
  {
    hide U8, Nat8, BigEndian;
    var l := |auth|;
    var c, d := Be16(l) + auth, LengthPrefix(l) + auth;
    if PaddedBlocks(c) == PaddedBlocks(d) {
      OneBlockMoreThan(l);
      assert ByteAt(c, 1) == U8(l) && ByteAt(d, 1) == 0xFF;
      SamePaddedBytes(c, d, 1);
      U8Value(l);
      EndBytes();
      hide BlockCount;
      Carried(auth, (l - 15) / 8);
      SamePaddedBytes(c, d, l + 2);
    }
  }

  lemma OneBlockMoreThan(l: nat)
    requires l >= 15
    ensures 16 * BlockCount(l + 2) >= l + 2 && 7 + 8 * ((l - 15) / 8) < l
    ensures l % 256 == 255 ==> 16 * BlockCount(l + 2) == l + 17 && 7 + 8 * ((l - 15) / 8) == l - 8
  {
  }

  lemma {:induction false} Carried(auth: seq<byte>, k: nat)
    requires |auth| >= 0x1_0000_0000 && 7 + 8 * k < |auth|
    requires PaddedBlocks(Be16(|auth|) + auth) == PaddedBlocks(LengthPrefix(|auth|) + auth)
    ensures auth[7 + 8 * k] == 0xFF
  {
    hide U8, BigEndian;
    var l := |auth|;
    var c, d := Be16(l) + auth, LengthPrefix(l) + auth;
    SamePaddedBytes(c, d, 9 + 8 * k);
    if k == 0 {
      SamePaddedBytes(c, d, 1);
      LastOfEight(l);
    } else {
      Carried(auth, k - 1);
    }
  }

  lemma LastOfEight(n: nat)
    ensures BigEndian(n, 8)[7] == U8(n)
  {
    hide U8;
  }

  lemma BigEndianOfTwo(n: nat)
    ensures BigEndian(n, 2) == Be16(n)
  {
    hide U8;
    assert BigEndian(n / 256 / 256, 0) == [];
    assert BigEndian(n / 256, 1) == [U8(n / 256)];
  }

  lemma FlagsWithData()
    ensures U8(Flags(true, 4, 2)) == 0x49
  {
    assert Nat8(0x49) == 73 by {
      hide Narrow, Prepend;
      assert Halved(Halved(0x49)) == 0x12;
      assert Value(0x12, 6) == 18;
    }
    U8OfByte(0x49);
  }

  lemma FlagsWithoutData()
    ensures U8(Flags(false, 4, 2)) == 0x09
  {
    assert Nat8(0x09) == 9 by {
      hide Narrow, Prepend;
      assert Halved(Halved(0x09)) == 0x02;
      assert Value(0x02, 6) == 2;
    }
    U8OfByte(0x09);
  }

  // Formatting loses nothing

  /**
   No two inputs are formatted alike. The length of the authenticated data must fit in two bytes; the message may have
   any length, because the number of blocks settles what the length field cuts off.
   */
  lemma FormattingIsInjective(n1: Nonce, a1: seq<byte>, m1: seq<byte>, n2: Nonce, a2: seq<byte>, m2: seq<byte>)
    requires |a1| < 0x1_0000 && |a2| < 0x1_0000
    requires FormattedBlocks(n1, a1, m1) == FormattedBlocks(n2, a2, m2)
    ensures n1 == n2 && a1 == a2 && m1 == m2
  {
    hide U8;
    var f1, f2 := FormattedBlocks(n1, a1, m1), FormattedBlocks(n2, a2, m2);
    assert f1[0] == f2[0];
    FirstBlockParts(n1, |m1|, n2, |m2|);
    var d1, d2 := Be16(|a1|) + a1, Be16(|a2|) + a2;
    var p1, p2 := PaddedBlocks(d1), PaddedBlocks(d2);
    assert f1[1] == p1[0] && f2[1] == p2[0];
    assert p1[0][0] == d1[0] && p1[0][1] == d1[1] && p2[0][0] == d2[0] && p2[0][1] == d2[1];
    assert Be16(|a1|) == Be16(|a2|);
    Be16Injective(|a1|, |a2|);
    assert p1 == f1[1..1 + |p1|] && p2 == f2[1..1 + |p2|];
    PaddedBlocksInjective(d1, d2);
    assert a1 == d1[2..] && a2 == d2[2..];
    assert PaddedBlocks(m1) == f1[1 + |p1|..] && PaddedBlocks(m2) == f2[1 + |p2|..];
    LengthsAgree(|m1|, |m2|);
    PaddedBlocksInjective(m1, m2);
  }

  lemma FirstBlockParts(n1: Nonce, l1: nat, n2: Nonce, l2: nat)
    requires FirstBlock(n1, l1) == FirstBlock(n2, l2)
    ensures n1 == n2 && l1 % 0x1_0000 == l2 % 0x1_0000
  {
    hide Be16;
    var b1, b2 := FirstBlock(n1, l1), FirstBlock(n2, l2);
    assert b1[1..14] == n1 && b2[1..14] == n2;
    assert b1[14..] == Be16(l1) && b2[14..] == Be16(l2);
    LastTwoBytes(l1, l2);
  }

  lemma LastTwoBytes(m: nat, n: nat)
    requires Be16(m) == Be16(n)
    ensures m % 0x1_0000 == n % 0x1_0000
  {
    hide U8;
    assert Be16(m)[0] == Be16(n)[0] && Be16(m)[1] == Be16(n)[1];
    U8Injective(m, n);
    U8Injective(m / 256, n / 256);
    TwoDigits(m);
    TwoDigits(n);
  }

  lemma TwoDigits(n: nat)
    ensures n % 0x1_0000 == 256 * ((n / 256) % 256) + n % 256
  {
  }

  lemma LengthsAgree(m: nat, n: nat)
    requires m % 0x1_0000 == n % 0x1_0000 && BlockCount(m) == BlockCount(n)
    ensures m == n
  {
  }

  // Counter blocks

  /** Counter blocks of numbers below 2^16 are distinct, across nonces too. */
  lemma CounterBlocksDiffer(n1: Nonce, i: nat, n2: Nonce, j: nat)
    requires i < 0x1_0000 && j < 0x1_0000
    requires CounterBlock(n1, i) == CounterBlock(n2, j)
    ensures n1 == n2 && i == j
  {
    hide U8;
    var b1, b2 := CounterBlock(n1, i), CounterBlock(n2, j);
    assert b1[1..14] == n1 && b2[1..14] == n2;
    assert b1[14..] == Be16(i) && b2[14..] == Be16(j);
    hide Be16;
    Be16Injective(i, j);
  }

  /** A counter block is never the first block of an authentication. */
  lemma CounterBlockIsNoFirstBlock(n1: Nonce, i: nat, n2: Nonce, l: nat)
    ensures CounterBlock(n1, i) != FirstBlock(n2, l)
  {
    assert CounterBlock(n1, i)[0] != FirstBlock(n2, l)[0];
  }
}
