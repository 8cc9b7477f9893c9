/**
 The second implementation of CCM*, over flat byte strings instead of lists of blocks, and its agreement with the
 first.
 */
module PythonCcm {
  import opened Bytes
  import opened Ccm

  method PadToMultipleOf16(data: seq<byte>) returns (padded: seq<byte>)
    ensures padded == Concat(PaddedBlocks(data))
  {
    PaddingIsZeros(data);
    padded := data;
    if |data| % 16 != 0 {
      padded := padded + ZeroBytes(16 - |data| % 16);
    }
  }

  lemma PaddedByte(data: seq<byte>, i: nat)
    requires i < 16 * BlockCount(|data|)
    ensures |Concat(PaddedBlocks(data))| == 16 * BlockCount(|data|)
    ensures Concat(PaddedBlocks(data))[i] == ByteAt(data, i)
  {
    ConcatAt(PaddedBlocks(data), i);
  }

  /** The masked bytes up to block `n`. */
  predicate MaskedSoFar(E: Cipher, key: Key, nonce: Nonce, plain: seq<byte>, out: seq<byte>, n: nat) {
    && 16 * n <= |plain|
    && |out| == 16 * n
    && forall k :: 0 <= k < 16 * n ==> out[k] == Xor8(Keystream(E, key, nonce, k / 16)[k % 16], plain[k])
  }

  /**
   Tag and text come out as in the first implementation, unless there are too many blocks to number with two bytes.
   */
  method Encrypt(E: Cipher, key: Key, nonce: Nonce, macTag: Tag, plaintext: seq<byte>)
    returns (r: Option<(seq<byte>, seq<byte>)>)
    ensures r == if 1 + BlockCount(|plaintext|) <= 0x1_0000
                 then Some((CryptTag(E, key, nonce, macTag), CryptData(E, key, nonce, plaintext)))
                 else None
  {
    hide Be16, PaddedBlocks, Concat, XorBlock, Encipher, CryptTag, CryptData, MaskedSoFar;
    var paddedTag := PadToMultipleOf16(macTag);
    var paddedText := PadToMultipleOf16(plaintext);
    PaddedLength(macTag);
    PaddedLength(plaintext);
    var taggedPlaintext := paddedTag + paddedText;
    var taggedCiphertext: seq<byte> := [];
    NothingMasked(E, key, nonce, taggedPlaintext);
    for blockNum := 0 to |taggedPlaintext| / 16
      invariant blockNum <= 0x1_0000
      invariant |taggedCiphertext| == 16 * blockNum
      invariant MaskedSoFar(E, key, nonce, taggedPlaintext, taggedCiphertext, blockNum)
    {
      if blockNum >= 0x1_0000 {
        return None;
      }
      var counter: Block := [0x01] + nonce + Be16(blockNum);
      var block: Block := taggedPlaintext[16 * blockNum..16 * (blockNum + 1)];
      var masked := XorBlock(Encipher(E, key, counter), block);
      MaskedMore(E, key, nonce, taggedPlaintext, taggedCiphertext, blockNum, masked);
      taggedCiphertext := taggedCiphertext + masked;
    }
    TagPart(E, key, nonce, macTag, plaintext, taggedCiphertext);
    TextPart(E, key, nonce, macTag, plaintext, taggedCiphertext);
    return Some((taggedCiphertext[..4], taggedCiphertext[16..16 + |plaintext|]));
  }

  lemma PaddedLength(data: seq<byte>)
    ensures |Concat(PaddedBlocks(data))| == 16 * BlockCount(|data|)
  {
    ConcatLength(PaddedBlocks(data));
  }

  lemma NothingMasked(E: Cipher, key: Key, nonce: Nonce, plain: seq<byte>)
    ensures MaskedSoFar(E, key, nonce, plain, [], 0)
  {
  }

  lemma MaskedMore(E: Cipher, key: Key, nonce: Nonce, plain: seq<byte>, out: seq<byte>, n: nat, masked: Block)
    requires MaskedSoFar(E, key, nonce, plain, out, n) && 16 * (n + 1) <= |plain|
    requires masked == XorBlock(Encipher(E, key, CounterBlock(nonce, n)), plain[16 * n..16 * (n + 1)])
    ensures MaskedSoFar(E, key, nonce, plain, out + masked, n + 1)
  {
    hide Xor8, Encipher, CounterBlock;
  }

  lemma TagPart(E: Cipher, key: Key, nonce: Nonce, macTag: Tag, plaintext: seq<byte>, out: seq<byte>)
    requires MaskedSoFar(E, key, nonce, Concat(PaddedBlocks(macTag)) + Concat(PaddedBlocks(plaintext)), out, |out| / 16)
    requires |out| >= 16
    ensures out[..4] == CryptTag(E, key, nonce, macTag)
  {
    hide Xor8, Keystream, BlockAt;
    forall i | 0 <= i < 4
      ensures out[i] == CryptTag(E, key, nonce, macTag)[i]
    {
      PaddedByte(macTag, i);
    }
  }

  lemma TextPart(E: Cipher, key: Key, nonce: Nonce, macTag: Tag, plaintext: seq<byte>, out: seq<byte>)
    requires MaskedSoFar(E, key, nonce, Concat(PaddedBlocks(macTag)) + Concat(PaddedBlocks(plaintext)), out, |out| / 16)
    requires |out| == 16 * (1 + BlockCount(|plaintext|))
    ensures out[16..16 + |plaintext|] == CryptData(E, key, nonce, plaintext)
  {
    hide Xor8, Keystream, BlockAt;
    ConcatLength(PaddedBlocks(macTag));
    forall i | 0 <= i < |plaintext|
      ensures out[16 + i] == CryptByte(E, key, nonce, plaintext, i)
    {
      PaddedByte(plaintext, i);
      assert (Concat(PaddedBlocks(macTag)) + Concat(PaddedBlocks(plaintext)))[16 + i] == plaintext[i];
    }
  }

  /** A byte string whose length is a multiple of sixteen, as blocks. */
  function Split(data: seq<byte>): (blocks: seq<Block>)
    requires |data| % 16 == 0
  {
    seq(|data| / 16, j requires 0 <= j < |data| / 16 => data[16 * j..16 * j + 16])
  }

  lemma SplitConcat(blocks: seq<Block>)
    ensures |Concat(blocks)| == 16 * |blocks| && Split(Concat(blocks)) == blocks
  {
    ConcatLength(blocks);
    forall j | 0 <= j < |blocks|
      ensures Split(Concat(blocks))[j] == blocks[j]
    {
      var data := Concat(blocks);
      assert Split(data)[j] == data[16 * j..16 * j + 16];
      forall i | 0 <= i < 16
        ensures data[16 * j..16 * j + 16][i] == blocks[j][i]
      {
        InBlock(j, i);
        ConcatAt(blocks, 16 * j + i);
      }
    }
  }

  lemma InBlock(j: nat, i: nat)
    requires i < 16
    ensures (16 * j + i) / 16 == j && (16 * j + i) % 16 == i
  {
  }

  lemma {:induction false} ConcatAppend(a: seq<Block>, b: seq<Block>)
    ensures Concat(a + b) == Concat(a) + Concat(b)
    decreases |a|
  {
    if a == [] {
      assert a + b == b;
    } else {
      assert (a + b)[1..] == a[1..] + b;
      ConcatAppend(a[1..], b);
    }
  }

  lemma PadAfterBlocks(blocks: seq<Block>, data: seq<byte>)
    ensures Concat(PaddedBlocks(Concat(blocks) + data)) == Concat(blocks + PaddedBlocks(data))
  {
    ConcatLength(blocks);
    PaddingIsZeros(Concat(blocks) + data);
    PaddingIsZeros(data);
    ConcatAppend(blocks, PaddedBlocks(data));
    hide Concat, PaddedBlocks, ZeroBytes;
    assert |Concat(blocks) + data| % 16 == |data| % 16;
    Associate3(Concat(blocks), data, ZeroBytes((16 - |data| % 16) % 16));
  }

  /**
   Padding the joined data where the first implementation pads each part gives the same tag; the lengths must fit in
   two bytes.
   */
  method ComputeMac(E: Cipher, key: Key, nonce: Nonce, authData: seq<byte>, plaintext: seq<byte>)
    returns (r: Option<Tag>)
    ensures r == if |authData| < 0x1_0000 && |plaintext| < 0x1_0000
                 then Some(Mac(E, key, nonce, authData, plaintext)) else None
  {
    hide Be16, PaddedBlocks, Concat, XorBlock, Encipher;
    if |authData| >= 0x1_0000 {
      return None;
    }
    var addedAuthData := PadToMultipleOf16(Be16(|authData|) + authData);
    if |plaintext| >= 0x1_0000 {
      return None;
    }
    var b0: Block := [0x49] + nonce + Be16(|plaintext|);
    var padded := PadToMultipleOf16(addedAuthData + plaintext);
    var data := b0 + padded;
    ghost var authBlocks := PaddedBlocks(Be16(|authData|) + authData);
    PadAfterBlocks(authBlocks, plaintext);
    OneMore(b0, authBlocks + PaddedBlocks(plaintext));
    ghost var formatted := FormattedBlocks(nonce, authData, plaintext);
    assert [b0] + (authBlocks + PaddedBlocks(plaintext)) == formatted;
    SplitConcat(formatted);

    var blocks := Split(data);
    var buffer := new Block[|blocks|](i requires 0 <= i < |blocks| => blocks[i]);
    assert buffer[..] == blocks;
    EncryptBlocks(E, key, ZERO, buffer);
    ZeroBlockChain(E, key, blocks, |blocks|);
    var last := buffer[buffer.Length - 1];
    return Some(last[..4]);
  }

  lemma OneMore(b: Block, blocks: seq<Block>)
    ensures Concat([b] + blocks) == b + Concat(blocks)
  {
    assert ([b] + blocks)[1..] == blocks;
  }
}
