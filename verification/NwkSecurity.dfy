/** Securing and unsecuring network-layer frames. */
module NwkSecurity {
  import opened Bytes
  import opened Addresses
  import opened NwkCodec
  import opened Ccm
  import NwkRoutines

  datatype SecurityError = NotEncrypted | AlreadyEncrypted | InvalidTag

  /** The auxiliary header as the cryptography sees it: with the network's level in place of the one on the air. */
  function WithLevel(a: AuxHeader, level: SecurityLevel): AuxHeader {
    a.(securityControl := a.securityControl.(securityLevel := level))
  }

  /** The auxiliary header's own source comes before that of the network header. */
  function SourceFor(h: Header, a: AuxHeader): Option<Eui64> {
    if a.extendedSource.Some? then a.extendedSource else h.sourceIeee
  }

  function NonceOf(source: Eui64, frameCounter: bv32, control: SecurityControl): Nonce {
    source.bytes + Le32(frameCounter) + [ControlByte(control)]
  }

  /** Without these the source stops the program: an auxiliary header, some source address, a printable relay count. */
  predicate Securable(f: Frame) {
    && f.auxHeader.Some?
    && SourceFor(f.header, f.auxHeader.value).Some?
    && (f.header.sourceRoute.Some? ==> Printable(f.header.sourceRoute.value))
  }

  predicate CanEncrypt(f: Frame) {
    f.encrypted || Securable(f)
  }

  /** A payload too short to hold a tag also stops the program. */
  predicate CanDecrypt(f: Frame) {
    !f.encrypted || (Securable(f) && |f.payload| >= 4)
  }

  function ModifiedAux(f: Frame): AuxHeader
    requires f.auxHeader.Some?
  {
    WithLevel(f.auxHeader.value, EncMic32)
  }

  function FrameNonce(f: Frame): Nonce
    requires Securable(f)
  {
    var a := ModifiedAux(f);
    NonceOf(SourceFor(f.header, a).value, a.frameCounter, a.securityControl)
  }

  function AuthData(f: Frame): seq<byte>
    requires f.auxHeader.Some?
  {
    PrintHeader(f.header) + PrintAux(ModifiedAux(f))
  }

  function TagFor(E: Cipher, key: Key, f: Frame, plaintext: seq<byte>): Tag
    requires Securable(f)
  {
    Mac(E, key, FrameNonce(f), AuthData(f), plaintext)
  }

  function Encrypt(E: Cipher, key: Key, f: Frame): Result<Frame, SecurityError>
    requires CanEncrypt(f)
  {
    if f.encrypted then Err(AlreadyEncrypted)
    else
      var tag := CryptTag(E, key, FrameNonce(f), TagFor(E, key, f, f.payload));
      Ok(f.(payload := CryptData(E, key, FrameNonce(f), f.payload) + tag, encrypted := true))
  }

  function Decrypt(E: Cipher, key: Key, f: Frame): Result<Frame, SecurityError>
    requires CanDecrypt(f)
  {
    if !f.encrypted then Err(NotEncrypted)
    else
      var n := |f.payload| - 4;
      var plaintext := CryptData(E, key, FrameNonce(f), f.payload[..n]);
      var tag := CryptTag(E, key, FrameNonce(f), f.payload[n..]);
      if tag != TagFor(E, key, f, plaintext) then Err(InvalidTag)
      else Ok(f.(payload := plaintext, encrypted := false))
  }

  // The routines

  method GetNonce(h: Header, a: AuxHeader) returns (nonce: Nonce)
    requires SourceFor(h, a).Some?
    ensures nonce == NonceOf(SourceFor(h, a).value, a.frameCounter, a.securityControl)
  {
    hide ControlByte, Le32;
    var source;
    if a.extendedSource.Some? {
      source := a.extendedSource.value;
    } else {
      source := h.sourceIeee.value;
    }
    nonce := source.bytes + Le32(a.frameCounter) + [ControlByte(a.securityControl)];
  }

  method ComputeFrameMac(E: Cipher, key: Key, h: Header, a: AuxHeader, nonce: Nonce, plaintext: seq<byte>)
    returns (tag: Tag)
    requires h.sourceRoute.Some? ==> Printable(h.sourceRoute.value)
    ensures tag == Mac(E, key, nonce, PrintHeader(h) + PrintAux(a), plaintext)
  {
    var header := NwkRoutines.WriteHeader(h);
    var aux := NwkRoutines.WriteAux(a);
    tag := ComputeMac(E, key, nonce, header + aux, plaintext);
  }

  method SplitMacTag(tagged: seq<byte>) returns (ciphertext: seq<byte>, tag: Tag)
    requires |tagged| >= 4
    ensures tagged == ciphertext + tag
  {
    ciphertext := tagged[..|tagged| - 4];
    tag := tagged[|tagged| - 4..];
  }

  method EncryptFrame(E: Cipher, key: Key, f: Frame) returns (r: Result<Frame, SecurityError>)
    requires CanEncrypt(f)
    ensures r == Encrypt(E, key, f)
  {
    hide PrintHeader, PrintAux, Mac, NonceOf, CryptTag;
    if f.encrypted {
      return Err(AlreadyEncrypted);
    }
    var aux := WithLevel(f.auxHeader.value, EncMic32);
    var nonce := GetNonce(f.header, aux);
    var macTag := ComputeFrameMac(E, key, f.header, aux, nonce, f.payload);
    var encryptedTag, ciphertext := EncryptDecrypt(E, key, nonce, macTag, f.payload);
    return Ok(Frame(f.header, f.auxHeader, ciphertext + encryptedTag, true));
  }

  method DecryptFrame(E: Cipher, key: Key, f: Frame) returns (r: Result<Frame, SecurityError>)
    requires CanDecrypt(f)
    ensures r == Decrypt(E, key, f)
  {
    hide PrintHeader, PrintAux, Mac, NonceOf, CryptTag;
    if !f.encrypted {
      return Err(NotEncrypted);
    }
    var aux := WithLevel(f.auxHeader.value, EncMic32);
    var nonce := GetNonce(f.header, aux);
    var ciphertext, encryptedTag := SplitMacTag(f.payload);
    assert ciphertext == f.payload[..|f.payload| - 4] && encryptedTag == f.payload[|f.payload| - 4..];
    var providedTag, plaintext := EncryptDecrypt(E, key, nonce, encryptedTag, ciphertext);
    var macTag := ComputeFrameMac(E, key, f.header, aux, nonce, plaintext);
    if providedTag != macTag {
      return Err(InvalidTag);
    }
    return Ok(Frame(f.header, f.auxHeader, plaintext, false));
  }

  // When decrypting what was read stops the program

  /**
   Decrypting a frame that was read stops the program exactly when it is secured and either no source address came with
   it or its payload cannot hold a tag; the reader sees to everything else.
   */
  lemma ReceivedCanDecrypt(b: seq<byte>)
    requires FromBytes(b).Parsed?
    ensures var f := FromBytes(b).value;
            && (f.encrypted ==> f.auxHeader.Some?)
            && (CanDecrypt(f) <==>
                !f.encrypted || (SourceFor(f.header, f.auxHeader.value).Some? && |f.payload| >= 4))
  {
    hide FromBytes, ToBytes;
    var f := FromBytes(b).value;
    PrintParse(b);
    NwkCodec.ReadsLeaveNothing(b);
    CodecExact(b, f);
    if f.header.sourceRoute.Some? {
      NwkRoutines.WellFormedIsPrintable(f);
    }
  }

  // What the two operations are for

  /**
   A frame decrypts to `f` exactly when it is the encryption of `f`: nothing else is accepted, and re-encrypting what
   was accepted gives back every byte, tag and on-air level included.
   */
  lemma DecryptIsInverse(E: Cipher, key: Key, c: Frame, f: Frame)
    requires CanDecrypt(c) && CanEncrypt(f)
    ensures Decrypt(E, key, c) == Ok(f) <==> Encrypt(E, key, f) == Ok(c)
  {
    hide Mac, NonceOf, CryptTag, CryptData, PrintHeader, PrintAux;
    if Decrypt(E, key, c) == Ok(f) {
      var n := |c.payload| - 4;
      CryptTwice(E, key, FrameNonce(c), c.payload[..n], c.payload[n..]);
      assert c.payload == c.payload[..n] + c.payload[n..];
    }
    if Encrypt(E, key, f) == Ok(c) {
      var tag := TagFor(E, key, f, f.payload);
      CryptTwice(E, key, FrameNonce(f), f.payload, tag);
      var n := |f.payload|;
      assert c.payload[..n] == CryptData(E, key, FrameNonce(f), f.payload);
      assert c.payload[n..] == CryptTag(E, key, FrameNonce(f), tag);
    }
  }

  /**
   Which error is reported when: encrypting refuses exactly the encrypted; decrypting refuses what is not encrypted as
   such, and as badly tagged exactly the encrypted frames that no encryption under the key makes.
   */
  lemma RefusedExactly(E: Cipher, key: Key, c: Frame)
    ensures CanEncrypt(c) ==> (Encrypt(E, key, c) == Err(AlreadyEncrypted) <==> c.encrypted)
    ensures CanEncrypt(c) ==> (Encrypt(E, key, c).Ok? <==> !c.encrypted)
    ensures CanDecrypt(c) ==> (Decrypt(E, key, c) == Err(NotEncrypted) <==> !c.encrypted)
    ensures CanDecrypt(c) ==> (Decrypt(E, key, c) == Err(InvalidTag) <==>
                               c.encrypted && forall f: Frame :: CanEncrypt(f) ==> Encrypt(E, key, f) != Ok(c))
  {
    hide FrameNonce, TagFor, CryptData, CryptTag, Securable;
    if CanDecrypt(c) && c.encrypted {
      forall f: Frame | CanEncrypt(f)
        ensures Encrypt(E, key, f) == Ok(c) <==> Decrypt(E, key, c) == Ok(f)
      {
        DecryptIsInverse(E, key, c, f);
      }
      if Decrypt(E, key, c).Ok? {
        DecryptedCanEncrypt(E, key, c);
      }
    }
  }

  lemma DecryptedCanEncrypt(E: Cipher, key: Key, c: Frame)
    requires CanDecrypt(c) && Decrypt(E, key, c).Ok?
    ensures CanEncrypt(Decrypt(E, key, c).value)
  {
    hide FrameNonce, TagFor, CryptData, CryptTag;
  }

  /** A frame that can be sent secured: well formed, not yet encrypted, security announced, a source address at hand. */
  predicate Sendable(f: Frame) {
    WellFormed(f) && !f.encrypted && f.header.frameControl.security && SourceFor(f.header, f.auxHeader.value).Some?
  }

  lemma SendableIsSecurable(f: Frame)
    requires Sendable(f)
    ensures Securable(f)
  {
    if f.header.sourceRoute.Some? {
      NwkRoutines.WellFormedIsPrintable(f);
    }
  }

  /**
   Over the wire: bytes are read and decrypted to `f` exactly when `f` can be sent and the bytes are the writing of its
   encryption.
   */
  lemma SecuredWire(E: Cipher, key: Key, b: seq<byte>, f: Frame)
    requires CanEncrypt(f)
    requires FromBytes(b).Parsed? ==> CanDecrypt(FromBytes(b).value)
    ensures FromBytes(b).Parsed? && Decrypt(E, key, FromBytes(b).value) == Ok(f) <==>
            Sendable(f) && b == ToBytes(Encrypt(E, key, f).value)
  {
    if FromBytes(b).Parsed? && Decrypt(E, key, FromBytes(b).value) == Ok(f) {
      var c := FromBytes(b).value;
      DecryptIsInverse(E, key, c, f);
      PrintParse(b);
    }
    if Sendable(f) && b == ToBytes(Encrypt(E, key, f).value) {
      var c := Encrypt(E, key, f).value;
      CodecExact(b, c);
      DecryptIsInverse(E, key, c, f);
    }
  }

  /** Reading a secured frame back cannot stop the program, so the round trip holds outright. */
  lemma SecuredWireRoundTrip(E: Cipher, key: Key, f: Frame)
    requires Sendable(f)
    ensures CanEncrypt(f) && Encrypt(E, key, f).Ok?
    ensures var c := Encrypt(E, key, f).value;
            && FromBytes(ToBytes(c)) == Parsed(c, [])
            && CanDecrypt(c)
            && Decrypt(E, key, c) == Ok(f)
  {
    SendableIsSecurable(f);
    var c := Encrypt(E, key, f).value;
    CodecExact(ToBytes(c), c);
    DecryptIsInverse(E, key, c, f);
  }

  function Relabelled(f: Frame, level: SecurityLevel): Frame
    requires f.auxHeader.Some?
  {
    f.(auxHeader := Some(WithLevel(f.auxHeader.value, level)))
  }

  /** The level on the air is carried along and otherwise without effect: it changes neither tag nor ciphertext. */
  lemma LevelIsOnlyCarried(E: Cipher, key: Key, f: Frame, level: SecurityLevel)
    requires !f.encrypted && Securable(f)
    ensures Securable(Relabelled(f, level))
    ensures var c := Encrypt(E, key, f).value;
            Encrypt(E, key, Relabelled(f, level)) == Ok(Relabelled(c, level))
  {
    assert ModifiedAux(Relabelled(f, level)) == ModifiedAux(f);
    hide Mac, NonceOf, CryptTag, CryptData, PrintHeader, PrintAux, ModifiedAux;
  }

  /** A nonce determines the source, the frame counter and the security control that made it. */
  lemma NonceIsInjective(s1: Eui64, n1: bv32, c1: SecurityControl, s2: Eui64, n2: bv32, c2: SecurityControl)
    requires c1.reserved < 2 && c2.reserved < 2
    requires NonceOf(s1, n1, c1) == NonceOf(s2, n2, c2)
    ensures s1 == s2 && n1 == n2 && c1 == c2
  {
    hide Le32, ControlByte;
    var x, y := NonceOf(s1, n1, c1), NonceOf(s2, n2, c2);
    assert x[..8] == s1.bytes && y[..8] == s2.bytes;
    assert x[8..12] == Le32(n1) && y[8..12] == Le32(n2);
    assert x[12..] == [ControlByte(c1)] && y[12..] == [ControlByte(c2)];
    Le32Injective(n1, n2);
    assert ControlByte(c1) == x[12] == y[12] == ControlByte(c2);
    assert [ControlByte(c1)] + [] == [ControlByte(c1)];
    ControlExact([ControlByte(c1)], c1, []);
    ControlExact([ControlByte(c2)], c2, []);
  }

  // The nonce, byte by byte

  /**
   Where the extended source stands in a written header: after the fixed bytes and the destination, if there is one.
   */
  function SourcePosition(h: Header): nat {
    if h.destinationIeee.Some? then 16 else 8
  }

  lemma HeaderHoldsSource(h: Header)
    requires h.sourceIeee.Some?
    ensures var w, k := PrintHeader(h), SourcePosition(h);
            |w| >= k + 8 && w[k..k + 8] == h.sourceIeee.value.bytes
  {
    PrintFixedLength(FixedOf(h));
    hide PrintFixed, PrintMulticast, PrintOptionalRoute;
    var d, s := PrintOptionalEui64(h.destinationIeee), PrintOptionalEui64(h.sourceIeee);
    var rest := PrintMulticast(h.multicastControl) + PrintOptionalRoute(h.sourceRoute);
    assert PrintHeader(h) == PrintFixed(FixedOf(h)) + (d + (s + rest));
    var w, k := PrintHeader(h), SourcePosition(h);
    assert |PrintFixed(FixedOf(h)) + d| == k;
    Associate3(PrintFixed(FixedOf(h)), d, s + rest);
    assert w[k..k + 8] == s;
  }

  /**
   The nonce in terms of what goes over the air: the extended source (of the auxiliary header where it has one, whatever
   the network header says, and of the network header otherwise), then the frame counter and then the security control,
   both as the modified auxiliary header writes them.
   */
  lemma NonceLayout(f: Frame)
    requires Securable(f)
    ensures |PrintAux(ModifiedAux(f))| >= 6
    ensures var w := PrintAux(ModifiedAux(f));
            if f.auxHeader.value.extendedSource.Some? then
              |w| >= 13 && FrameNonce(f) == w[5..13] + w[1..5] + w[..1]
            else
              var h, k := PrintHeader(f.header), SourcePosition(f.header);
              |h| >= k + 8 && FrameNonce(f) == h[k..k + 8] + w[1..5] + w[..1]
  {
    var a := ModifiedAux(f);
    AuxLayout(a);
    if a.extendedSource.None? {
      HeaderHoldsSource(f.header);
    }
    hide PrintHeader, PrintAux, Le32, ControlByte;
  }

  lemma AuxLayout(a: AuxHeader)
    ensures var w := PrintAux(a);
            && |w| >= 6 && w[..1] == [ControlByte(a.securityControl)] && w[1..5] == Le32(a.frameCounter)
            && (a.extendedSource.Some? ==> |w| >= 13 && w[5..13] == a.extendedSource.value.bytes)
  {
    hide Le32, ControlByte;
  }

  /** Its last byte is the security control on the air with the level, its lowest three bits, replaced by 5. */
  lemma NonceLevel(f: Frame)
    requires Securable(f)
    ensures FrameNonce(f)[12] == (ControlByte(f.auxHeader.value.securityControl) & 0xF8) | 5
  {
    var c := f.auxHeader.value.securityControl;
    LevelBits(LevelCode(c.securityLevel), KeyCode(c.keyId), c.extendedSource, c.requireVerifiedFrameCounter,
              c.reserved);
    hide PackControl, Le32, LevelCode, KeyCode;
    assert LevelCode(EncMic32) == 5 by {
      FiveIsEncMic32();
    }
    assert FrameNonce(f)[12] == ControlByte(ModifiedAux(f).securityControl);
  }

  lemma FiveIsEncMic32()
    ensures LevelCode(EncMic32) == 5
  {
  }

  lemma LevelBits(l: byte, k: byte, e: bool, v: bool, r: byte)
    ensures (PackControl(l, k, e, v, r) & 0xF8) | 5 == PackControl(5, k, e, v, r)
  {
  }

  // The secured payload, byte by byte

  const M := 4
  const L := 2

  /** Counter block A_i of section 2.3 of RFC 3610. */
  function CounterBlockOfRfc3610(nonce: Nonce, i: nat): Block {
    [U8(L - 1)] + nonce + BigEndian(i, L)
  }

  lemma CounterBlockIsRfc3610(nonce: Nonce, i: nat)
    ensures CounterBlock(nonce, i) == CounterBlockOfRfc3610(nonce, i)
  {
    BigEndianOfTwo(i);
    OneAsByte();
    hide U8, Be16, BigEndian;
  }

  lemma OneAsByte()
    ensures U8(1) == 0x01
  {
    assert Narrow(0, 7) == 0;
    assert Narrow(1, 8) == 1;
  }

  /** The blocks B_0 ... B_n: over the header as written and the auxiliary header as written with level 5. */
  function ReferenceBlocks(f: Frame): (blocks: seq<Block>)
    requires Securable(f)
    ensures blocks != []
  {
    AuthenticationBlocks(FrameNonce(f), PrintHeader(f.header) + PrintAux(WithLevel(f.auxHeader.value, EncMic32)),
                         f.payload)
  }

  /**
   Byte `i` of a secured payload as RFC 3610 gives it: of the message, masked by the blocks from A_1 on, or after it of
   the first four bytes of the chain over B_0 ... B_n, masked by A_0.
   */
  function ReferenceByte(E: Cipher, key: Key, f: Frame, i: nat): byte
    requires Securable(f) && i < |f.payload| + M
  {
    var n, nonce, blocks := |f.payload|, FrameNonce(f), ReferenceBlocks(f);
    if i < n then Xor8(E(key, CounterBlockOfRfc3610(nonce, 1 + i / 16))[i % 16], f.payload[i])
    else Xor8(E(key, CounterBlockOfRfc3610(nonce, 0))[i - n], Chained(E, key, blocks, |blocks|)[i - n])
  }

  /** Securing changes the payload and the mark only, and makes every byte of the payload the one RFC 3610 gives. */
  lemma SecuredIsRfc3610(E: Cipher, key: Key, f: Frame)
    requires HeaderWellFormed(f.header) && Securable(f) && !f.encrypted
    ensures var c := Encrypt(E, key, f);
            && c.Ok? && c.value == f.(encrypted := true, payload := c.value.payload)
            && |c.value.payload| == |f.payload| + M
            && forall i :: 0 <= i < |f.payload| + M ==> c.value.payload[i] == ReferenceByte(E, key, f, i)
  {
    var n := |f.payload|;
    hide FrameNonce, TagFor, CryptData, CryptTag, Encrypt, Securable, HeaderWellFormed, ReferenceByte;
    SecuredForm(E, key, f);
    forall i | 0 <= i < n + M
      ensures Encrypt(E, key, f).value.payload[i] == ReferenceByte(E, key, f, i)
    {
      if i < n {
        MaskedByte(E, key, f, i);
      } else {
        MaskedTagByte(E, key, f, i - n);
      }
    }
  }

  lemma SecuredForm(E: Cipher, key: Key, f: Frame)
    requires Securable(f) && !f.encrypted
    ensures var nonce := FrameNonce(f);
            var masked := CryptData(E, key, nonce, f.payload) + CryptTag(E, key, nonce, TagFor(E, key, f, f.payload));
            Encrypt(E, key, f) == Ok(f.(encrypted := true, payload := masked))
  {
    hide FrameNonce, TagFor, CryptData, CryptTag;
  }

  lemma MaskedByte(E: Cipher, key: Key, f: Frame, i: nat)
    requires Securable(f) && i < |f.payload|
    ensures CryptData(E, key, FrameNonce(f), f.payload)[i] == ReferenceByte(E, key, f, i)
  {
    CounterBlockIsRfc3610(FrameNonce(f), 1 + i / 16);
    hide Xor8, CounterBlock, CounterBlockOfRfc3610, FrameNonce, ReferenceBlocks, Securable;
  }

  lemma MaskedTagByte(E: Cipher, key: Key, f: Frame, i: nat)
    requires HeaderWellFormed(f.header) && Securable(f) && i < M
    ensures CryptTag(E, key, FrameNonce(f), TagFor(E, key, f, f.payload))[i] ==
            ReferenceByte(E, key, f, |f.payload| + i)
  {
    CounterBlockIsRfc3610(FrameNonce(f), 0);
    TagByte(E, key, f, i);
    hide Xor8, CounterBlock, CounterBlockOfRfc3610, FrameNonce, ReferenceBlocks, Securable, TagFor, Chained;
  }

  lemma TagByte(E: Cipher, key: Key, f: Frame, i: nat)
    requires HeaderWellFormed(f.header) && Securable(f) && i < M
    ensures var blocks := ReferenceBlocks(f);
            TagFor(E, key, f, f.payload)[i] == Chained(E, key, blocks, |blocks|)[i]
  {
    TagIsRfc3610(E, key, f, f.payload);
    hide Chained, FrameNonce, TagFor, PrintHeader, PrintAux, AuthenticationBlocks;
  }

  // What the tag covers

  /** The authenticated bytes determine header, modified auxiliary header and plaintext. */
  lemma AuthenticatedContent(f: Frame, g: Frame)
    requires Sendable(f) && Sendable(g) && Securable(f) && Securable(g)
    requires FormattedBlocks(FrameNonce(f), AuthData(f), f.payload) ==
             FormattedBlocks(FrameNonce(g), AuthData(g), g.payload)
    ensures f.header == g.header && ModifiedAux(f) == ModifiedAux(g) && f.payload == g.payload
  {
    HeaderSize(f.header, ModifiedAux(f));
    HeaderSize(g.header, ModifiedAux(g));
    hide FormattedBlocks, PrintHeader, PrintAux, NonceOf;
    FormattingIsInjective(FrameNonce(f), AuthData(f), f.payload, FrameNonce(g), AuthData(g), g.payload);
    HeaderExact(AuthData(f), f.header, PrintAux(ModifiedAux(f)));
    HeaderExact(AuthData(g), g.header, PrintAux(ModifiedAux(g)));
    assert PrintAux(ModifiedAux(f)) + [] == PrintAux(ModifiedAux(f));
    assert PrintAux(ModifiedAux(g)) + [] == PrintAux(ModifiedAux(g));
    AuxExact(PrintAux(ModifiedAux(f)), ModifiedAux(f), []);
    AuxExact(PrintAux(ModifiedAux(g)), ModifiedAux(g), []);
  }

  /**
   The tag of every well-formed frame is the CBC-MAC of section 2.2 of RFC 3610; the two-byte length form is the right
   one.
   */
  lemma TagIsRfc3610(E: Cipher, key: Key, f: Frame, plaintext: seq<byte>)
    requires HeaderWellFormed(f.header) && Securable(f)
    ensures TagFor(E, key, f, plaintext) == CbcMac(E, key, AuthenticationBlocks(FrameNonce(f), AuthData(f), plaintext))
  {
    HeaderSize(f.header, ModifiedAux(f));
    FormattingIsRfc3610(FrameNonce(f), AuthData(f), plaintext);
    hide FormattedBlocks, AuthenticationBlocks, CbcMac, PrintHeader, PrintAux, NonceOf;
  }
}
