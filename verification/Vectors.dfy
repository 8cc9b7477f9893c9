/**
 The byte strings of the program's own tests, and a few more that reach the fields those leave empty. They fix the
 layout that the exactness lemmas leave open: which bit and which byte every field occupies, and in which order.
 */
module Vectors {
  import opened Bytes
  import opened Addresses
  import Fcs
  import Hdlc
  import Ieee802154
  import NwkCodec
  import NwkSecurity
  import Ccm
  import Packed21
  import SpinelFrame

  // Words

  lemma WordOrder()
    ensures Le16(0x1234) == [0x34, 0x12] && FromLe16(0x34, 0x12) == 0x1234
    ensures Le32(0x12345678) == [0x78, 0x56, 0x34, 0x12] && FromLe32(0x78, 0x56, 0x34, 0x12) == 0x12345678
  {
  }

  // Spinel

  lemma PackedInteger()
    ensures Packed21.Encode(0x1FD7FC) == [0xFC, 0xAF, 0x7F]
    ensures Packed21.Decode([0xFC, 0xAF, 0x7F, 0xAB, 0xCD]) == Some((0x1FD7FC, [0xAB, 0xCD]))
  {
    var value: bv32 := 0x1FD7FC;
    Packed21.EncodeForms(value);
    Packed21.RoundTrip(value, [0xAB, 0xCD]);
    hide Packed21.Encode, Packed21.Decode;
    assert Packed21.Encode(value) == [0xFC, 0xAF, 0x7F];
    assert [0xFC, 0xAF, 0x7F] + [0xAB, 0xCD] == [0xFC, 0xAF, 0x7F, 0xAB, 0xCD];
  }

  lemma SpinelBytes()
    ensures SpinelFrame.ToBytes(SpinelFrame.Frame(SpinelFrame.Header(2, 0, 1), 2, [2])) == [0x81, 0x02, 0x02]
    ensures SpinelFrame.ToBytes(SpinelFrame.Frame(SpinelFrame.Header(2, 3, 5), 6, [9])) == [0xB5, 0x06, 0x09]
  {
  }

  lemma HdlcBytes(crc: Hdlc.Crc)
    requires crc([0x81, 0x02, 0x02]) == 0x805E
    ensures Hdlc.WithFlags(crc, [0x81, 0x02, 0x02]) == [0x7E, 0x81, 0x02, 0x02, 0x5E, 0x80, 0x7E]
  {
    var data: seq<byte> := [0x81, 0x02, 0x02];
    assert Le16(0x805E) == [0x5E, 0x80];
    assert data + [0x5E, 0x80] == [0x81, 0x02, 0x02, 0x5E, 0x80];
    Hdlc.PlainBytesStay([0x81, 0x02, 0x02, 0x5E, 0x80]);
    hide Hdlc.Stuff, Le16;
  }

  // IEEE 802.15.4

  lemma AckFcs()
    ensures Fcs.Fcs([0x02, 0x00, 0xD1]) == 0x72BC
  {
    var data: seq<byte> := [0x02, 0x00, 0xD1];
    Fcs.CrcOfNextByte(0, data);
    var a := Fcs.NibbleStep(Fcs.NibbleStep(0, 0x02), 0x02 >> 4);
    var b := Fcs.NibbleStep(Fcs.NibbleStep(a, 0x00), 0x00 >> 4);
    var c := Fcs.NibbleStep(Fcs.NibbleStep(b, 0xD1), 0xD1 >> 4);
    assert data[1..] == [0x00, 0xD1] && data[1..][1..] == [0xD1] && data[1..][1..][1..] == [];
    Fcs.CrcOfNextByte(a, data[1..]);
    Fcs.CrcOfNextByte(b, data[1..][1..]);
    assert c == 0x72BC;
  }

  const ACK := Ieee802154.Frame(
    Ieee802154.FrameControl(Ieee802154.Ack, false, false, false, false, false, false, false,
                            Ieee802154.NoAddress, 0, Ieee802154.NoAddress),
    Some(209), None, None, None, None, [], 0x72BC)

  lemma AckBody()
    ensures Ieee802154.PrintBody(ACK) == [0x02, 0x00, 0xD1] && Ieee802154.WellFormed(ACK)
  {
  }

  lemma AckFrame()
    ensures Ieee802154.FromBytes([0x02, 0x00, 0xD1, 0xBC, 0x72]) == Parsed(ACK, [])
  {
    AckBody();
    AckFcs();
    assert Le16(0x72BC) == [0xBC, 0x72];
    hide Fcs.Fcs, Le16, Ieee802154.PrintBody, Ieee802154.WellFormed, Ieee802154.FromBytes;
    assert [0x02, 0x00, 0xD1] + [0xBC, 0x72] == [0x02, 0x00, 0xD1, 0xBC, 0x72];
    Ieee802154.CodecExact([0x02, 0x00, 0xD1, 0xBC, 0x72], ACK);
  }

  const DATA := Ieee802154.Frame(
    Ieee802154.FrameControl(Ieee802154.Data, false, false, true, true, false, false, false,
                            Ieee802154.Short, 0, Ieee802154.Short),
    Some(52), Some(PanId(0xBEEF)), Some(Ieee802154.ShortAddress(Nwk(0x9D90))),
    Some(PanId(0xBEEF)), Some(Ieee802154.ShortAddress(Nwk(0x3E44))), [0x48, 0x02], 0)

  lemma DataFrame()
    ensures Ieee802154.PrintBody(DATA) ==
            [0x61, 0x88, 0x34, 0xEF, 0xBE, 0x90, 0x9D, 0x44, 0x3E, 0x48, 0x02]
  {
  }

  /** An extended and a short address, both networks written out, and the control bits that the tests leave clear. */
  const LONG := Ieee802154.Frame(
    Ieee802154.FrameControl(Ieee802154.Data, true, true, false, false, true, false, true,
                            Ieee802154.Long, 1, Ieee802154.Short),
    Some(7), Some(PanId(0x1A62)), Some(Ieee802154.LongAddress(Eui64([1, 2, 3, 4, 5, 6, 7, 8]))),
    Some(PanId(0x2B73)), Some(Ieee802154.ShortAddress(Nwk(0x3C84))), [0xAA], 0)

  lemma LongFrame()
    ensures Ieee802154.PrintBody(LONG) ==
            [0x99, 0x9E, 7, 0x62, 0x1A, 1, 2, 3, 4, 5, 6, 7, 8, 0x73, 0x2B, 0x84, 0x3C, 0xAA]
  {
  }

  lemma MacCodes()
    ensures Ieee802154.TypeCode(Ieee802154.Beacon) == 0 && Ieee802154.TypeCode(Ieee802154.Data) == 1
    ensures Ieee802154.TypeCode(Ieee802154.Ack) == 2 && Ieee802154.TypeCode(Ieee802154.Command) == 3
    ensures Ieee802154.ModeCode(Ieee802154.NoAddress) == 0
    ensures Ieee802154.ModeCode(Ieee802154.Short) == 2 && Ieee802154.ModeCode(Ieee802154.Long) == 3
  {
  }

  // The network layer

  lemma NetworkCodes()
    ensures NwkCodec.FrameTypeCode(NwkCodec.Data) == 0 && NwkCodec.FrameTypeCode(NwkCodec.Command) == 1
    ensures NwkCodec.FrameTypeCode(NwkCodec.Interpan) == 3
    ensures NwkCodec.DiscoveryCode(NwkCodec.Suppress) == 0 && NwkCodec.DiscoveryCode(NwkCodec.Enable) == 1
    ensures NwkCodec.DiscoveryCode(NwkCodec.WithMulticast) == 2
    ensures NwkCodec.KeyCode(NwkCodec.DataKey) == 0 && NwkCodec.KeyCode(NwkCodec.NetworkKey) == 1
    ensures NwkCodec.KeyCode(NwkCodec.KeyTransportKey) == 2 && NwkCodec.KeyCode(NwkCodec.KeyLoadKey) == 3
    ensures NwkCodec.LevelCode(NwkCodec.NoSecurity) == 0 && NwkCodec.LevelCode(NwkCodec.Mic32) == 1
    ensures NwkCodec.LevelCode(NwkCodec.Mic64) == 2 && NwkCodec.LevelCode(NwkCodec.Mic128) == 3
    ensures NwkCodec.LevelCode(NwkCodec.Enc) == 4 && NwkCodec.LevelCode(NwkCodec.EncMic32) == 5
    ensures NwkCodec.LevelCode(NwkCodec.EncMic64) == 6 && NwkCodec.LevelCode(NwkCodec.EncMic128) == 7
  {
  }

  const UNICAST_HEADER := NwkCodec.Header(
    NwkCodec.FrameControl(NwkCodec.Data, 2, NwkCodec.Suppress, false, true, false, false, false, false, 0),
    Nwk(0x6B42), Nwk(0x0000), 15, 46, None, None, None, None)

  const UNICAST_AUX := NwkCodec.AuxHeader(
    NwkCodec.SecurityControl(NwkCodec.NoSecurity, NwkCodec.NetworkKey, true, false, 0),
    2682, Some(Eui64([0xA8, 0xEF, 0x17, 0x1E, 0x00, 0x4B, 0x12, 0x00])), 0)

  const UNICAST_PAYLOAD: seq<byte> :=
    [0xF7, 0xA7, 0xE3, 0x7B, 0x47, 0xAD, 0xB4, 0x75, 0x93, 0xC8, 0xA3, 0x75, 0xC9, 0x8B, 0xA6]

  const UNICAST_HEADER_BYTES: seq<byte> := [0x08, 0x02, 0x42, 0x6B, 0x00, 0x00, 0x0F, 0x2E]

  const UNICAST_AUX_BYTES: seq<byte> :=
    [0x28, 0x7A, 0x0A, 0x00, 0x00, 0xA8, 0xEF, 0x17, 0x1E, 0x00, 0x4B, 0x12, 0x00, 0x00]

  lemma UnicastHeader()
    ensures NwkCodec.PrintHeader(UNICAST_HEADER) == UNICAST_HEADER_BYTES
  {
    assert NwkCodec.PrintOptions(NwkCodec.OptionsOf(UNICAST_HEADER)) == [];
    assert NwkCodec.PrintFixed(NwkCodec.FixedOf(UNICAST_HEADER)) == UNICAST_HEADER_BYTES;
    hide NwkCodec.PrintOptions, NwkCodec.PrintFixed, UNICAST_HEADER_BYTES;
  }

  lemma UnicastAux()
    ensures NwkCodec.PrintAux(UNICAST_AUX) == UNICAST_AUX_BYTES
  {
    assert NwkCodec.ControlByte(UNICAST_AUX.securityControl) == 0x28;
    assert Le32(2682) == [0x7A, 0x0A, 0x00, 0x00];
    hide NwkCodec.ControlByte, Le32;
  }

  /** The secured unicast frame is read as it is to be, headers and payload. */
  lemma UnicastFrame()
    ensures NwkCodec.FromBytes(UNICAST_HEADER_BYTES + (UNICAST_AUX_BYTES + UNICAST_PAYLOAD)) ==
            Parsed(NwkCodec.Frame(UNICAST_HEADER, Some(UNICAST_AUX), UNICAST_PAYLOAD, true), [])
  {
    UnicastHeader();
    UnicastAux();
    var f := NwkCodec.Frame(UNICAST_HEADER, Some(UNICAST_AUX), UNICAST_PAYLOAD, true);
    assert NwkCodec.WellFormed(f);
    hide NwkCodec.PrintHeader, NwkCodec.PrintAux, NwkCodec.FromBytes;
    hide UNICAST_PAYLOAD, UNICAST_HEADER_BYTES, UNICAST_AUX_BYTES;
    NwkCodec.CodecExact(UNICAST_HEADER_BYTES + (UNICAST_AUX_BYTES + UNICAST_PAYLOAD), f);
  }

  lemma UnicastNonce(f: NwkCodec.Frame)
    requires f.header == UNICAST_HEADER && f.auxHeader == Some(UNICAST_AUX)
    ensures NwkSecurity.FrameNonce(f) ==
            [0xA8, 0xEF, 0x17, 0x1E, 0x00, 0x4B, 0x12, 0x00, 0x7A, 0x0A, 0x00, 0x00, 0x2D]
  {
  }

  const B0: Ccm.Block :=
    [0x49, 0xA8, 0xEF, 0x17, 0x1E, 0x00, 0x4B, 0x12, 0x00, 0x7A, 0x0A, 0x00, 0x00, 0x2D, 0x00, 0x0A]
  const B1: Ccm.Block :=
    [0x00, 0x16, 0x08, 0x02, 0x42, 0x6B, 0x00, 0x00, 0x0F, 0x2E, 0x2D, 0x7A, 0x0A, 0x00, 0x00, 0xA8]
  const B2: Ccm.Block :=
    [0xEF, 0x17, 0x1E, 0x00, 0x4B, 0x12, 0x00, 0x00, 0x00, 0x00, 0x00, 0x00, 0x00, 0x00, 0x00, 0x00]
  const B3: Ccm.Block :=
    [0x00, 0x01, 0x06, 0x00, 0x04, 0x01, 0x01, 0xA9, 0x01, 0x57, 0x00, 0x00, 0x00, 0x00, 0x00, 0x00]

  /** The blocks that authenticate the ten bytes of its plaintext. */
  lemma UnicastBlocks(f: NwkCodec.Frame)
    requires f.header == UNICAST_HEADER && f.auxHeader == Some(UNICAST_AUX)
    requires f.payload == [0x00, 0x01, 0x06, 0x00, 0x04, 0x01, 0x01, 0xA9, 0x01, 0x57]
    ensures Ccm.FormattedBlocks(NwkSecurity.FrameNonce(f), NwkSecurity.AuthData(f), f.payload) == [B0, B1, B2, B3]
  {
    UnicastFirst(f);
    UnicastSecond(f);
    UnicastThird(f.payload);
    hide NwkSecurity.FrameNonce, NwkSecurity.AuthData, Be16, Ccm.PaddedBlocks, Ccm.FormattedBlocks;
    hide B0, B1, B2, B3, UNICAST_HEADER, UNICAST_AUX;
    FourBlocks(NwkSecurity.FrameNonce(f), NwkSecurity.AuthData(f), f.payload, B0, B1, B2, B3);
  }

  lemma UnicastFirst(f: NwkCodec.Frame)
    requires f.header == UNICAST_HEADER && f.auxHeader == Some(UNICAST_AUX)
    ensures NwkSecurity.Securable(f) && [0x49] + NwkSecurity.FrameNonce(f) + Be16(10) == B0
  {
    UnicastNonce(f);
    SmallLengths();
    hide NwkSecurity.FrameNonce, Be16;
  }

  lemma UnicastSecond(f: NwkCodec.Frame)
    requires f.header == UNICAST_HEADER && f.auxHeader == Some(UNICAST_AUX)
    ensures var auth := NwkSecurity.AuthData(f); Ccm.PaddedBlocks(Be16(|auth|) + auth) == [B1, B2]
  {
    UnicastAuthData(f);
    SmallLengths();
    UnicastAuthBlocks();
    hide NwkSecurity.AuthData, Be16, Ccm.PaddedBlocks, B1, B2;
    assert |NwkSecurity.AuthData(f)| == 22;
  }

  lemma UnicastThird(data: seq<byte>)
    requires data == [0x00, 0x01, 0x06, 0x00, 0x04, 0x01, 0x01, 0xA9, 0x01, 0x57]
    ensures Ccm.PaddedBlocks(data) == [B3]
  {
    OneBlock(data);
    hide Ccm.PaddedBlocks;
    assert data + [0, 0, 0, 0, 0, 0] == B3;
  }

  lemma FourBlocks(
    nonce: Ccm.Nonce, auth: seq<byte>, message: seq<byte>, b0: Ccm.Block, b1: Ccm.Block, b2: Ccm.Block, b3: Ccm.Block)
    requires [0x49] + nonce + Be16(|message|) == b0
    requires Ccm.PaddedBlocks(Be16(|auth|) + auth) == [b1, b2]
    requires Ccm.PaddedBlocks(message) == [b3]
    ensures Ccm.FormattedBlocks(nonce, auth, message) == [b0, b1, b2, b3]
  {
    hide Be16, Ccm.PaddedBlocks;
    assert [b0] + [b1, b2] + [b3] == [b0, b1, b2, b3];
  }

  lemma OneBlock(data: seq<byte>)
    requires |data| == 10
    ensures Ccm.PaddedBlocks(data) == [data + [0, 0, 0, 0, 0, 0]]
  {
    assert Ccm.BlockAt(data, 0) == data + [0, 0, 0, 0, 0, 0];
    assert Ccm.PaddedBlocks(data) == [Ccm.BlockAt(data, 0)];
  }

  lemma TwoBlocks(data: seq<byte>)
    requires |data| == 24
    ensures Ccm.PaddedBlocks(data) == [data[..16], data[16..] + [0, 0, 0, 0, 0, 0, 0, 0]]
  {
    assert Ccm.BlockAt(data, 0) == data[..16];
    assert Ccm.BlockAt(data, 1) == data[16..] + [0, 0, 0, 0, 0, 0, 0, 0];
    assert Ccm.PaddedBlocks(data) == [Ccm.BlockAt(data, 0), Ccm.BlockAt(data, 1)];
  }

  lemma UnicastAuthBlocks()
    ensures Ccm.PaddedBlocks([0x00, 0x16] + (UNICAST_HEADER_BYTES + [0x2D] + UNICAST_AUX_BYTES[1..])) == [B1, B2]
  {
    var second: seq<byte> := [0xEF, 0x17, 0x1E, 0x00, 0x4B, 0x12, 0x00, 0x00];
    var data := [0x00, 0x16] + (UNICAST_HEADER_BYTES + [0x2D] + UNICAST_AUX_BYTES[1..]);
    assert data == B1 + second;
    TwoBlocks(data);
    hide Ccm.PaddedBlocks;
    assert data[..16] == B1 && data[16..] == second;
    assert second + [0, 0, 0, 0, 0, 0, 0, 0] == B2;
  }

  lemma UnicastAuthData(f: NwkCodec.Frame)
    requires f.header == UNICAST_HEADER && f.auxHeader == Some(UNICAST_AUX)
    ensures NwkSecurity.AuthData(f) == UNICAST_HEADER_BYTES + [0x2D] + UNICAST_AUX_BYTES[1..]
  {
    UnicastHeader();
    UnicastAux();
    var a := NwkSecurity.ModifiedAux(f);
    assert NwkCodec.ControlByte(a.securityControl) == 0x2D;
    assert NwkCodec.PrintAux(a) == [0x2D] + NwkCodec.PrintAux(UNICAST_AUX)[1..] by {
      hide NwkCodec.ControlByte, Le32;
    }
    hide NwkCodec.PrintHeader, NwkCodec.PrintAux, UNICAST_HEADER_BYTES, UNICAST_AUX_BYTES;
    Associate3(UNICAST_HEADER_BYTES, [0x2D], UNICAST_AUX_BYTES[1..]);
  }

  lemma SmallLengths()
    ensures Be16(22) == [0x00, 0x16] && Be16(10) == [0x00, 0x0A]
  {
    assert Narrow(0, 8) == 0;
    assert Narrow(2, 5) == 2;
    assert Narrow(5, 6) == 5;
    assert Narrow(11, 7) == 11;
    assert Narrow(22, 8) == 0x16;
    assert Narrow(10, 8) == 0x0A;
  }

  /** The header of the source-routed frame of the tests. */
  const ROUTED_HEADER := NwkCodec.Header(
    NwkCodec.FrameControl(NwkCodec.Data, 2, NwkCodec.Suppress, false, true, true, false, false, false, 0),
    Nwk(0x3CE7), Nwk(0x5F37), 29, 204, None, None, None, Some(NwkCodec.SourceRoute(1, 0, [Nwk(0xF939)])))

  lemma RoutedHeader()
    ensures NwkCodec.PrintHeader(ROUTED_HEADER) ==
            [0x08, 0x06, 0xE7, 0x3C, 0x37, 0x5F, 0x1D, 0xCC, 0x01, 0x00, 0x39, 0xF9]
  {
    assert [Nwk(0xF939)][1..] == [];
  }

  const DESTINATION: EightBytes := [1, 2, 3, 4, 5, 6, 7, 8]
  const SOURCE: EightBytes := [11, 12, 13, 14, 15, 16, 17, 18]

  /** Every optional field, and every control bit the tests leave clear. */
  const FULL_HEADER := NwkCodec.Header(
    NwkCodec.FrameControl(NwkCodec.Command, 5, NwkCodec.WithMulticast, true, false, true, true, true, true, 2),
    Nwk(0x1122), Nwk(0x3344), 5, 6, Some(Eui64(DESTINATION)), Some(Eui64(SOURCE)),
    Some(0x99), Some(NwkCodec.SourceRoute(2, 1, [Nwk(0x5566), Nwk(0x7788)])))

  lemma FullHeader()
    ensures NwkCodec.PrintHeader(FULL_HEADER) ==
            [0x95, 0xBD, 0x22, 0x11, 0x44, 0x33, 5, 6] +
            (DESTINATION + (SOURCE + ([0x99] + [2, 1, 0x66, 0x55, 0x88, 0x77])))
  {
    FullFixed();
    FullOptions();
    hide NwkCodec.PrintFixed, NwkCodec.PrintOptions, DESTINATION, SOURCE;
  }

  lemma FullFixed()
    ensures NwkCodec.PrintFixed(NwkCodec.FixedOf(FULL_HEADER)) == [0x95, 0xBD, 0x22, 0x11, 0x44, 0x33, 5, 6]
  {
  }

  lemma FullOptions()
    ensures NwkCodec.PrintOptions(NwkCodec.OptionsOf(FULL_HEADER)) ==
            DESTINATION + (SOURCE + ([0x99] + [2, 1, 0x66, 0x55, 0x88, 0x77]))
  {
    TwoRelays();
    hide NwkCodec.PrintRelays, Le16, DESTINATION, SOURCE;
    assert [2, 1] + [0x66, 0x55, 0x88, 0x77] == [2, 1, 0x66, 0x55, 0x88, 0x77];
  }

  lemma TwoRelays()
    ensures NwkCodec.PrintRelays([Nwk(0x5566), Nwk(0x7788)]) == [0x66, 0x55, 0x88, 0x77]
  {
    var relays := [Nwk(0x5566), Nwk(0x7788)];
    assert relays[1..] == [Nwk(0x7788)] && relays[1..][1..] == [];
    assert NwkCodec.PrintRelays(relays[1..]) == [0x88, 0x77];
  }

  lemma FullAux()
    ensures NwkCodec.PrintAux(NwkCodec.AuxHeader(
              NwkCodec.SecurityControl(NwkCodec.Enc, NwkCodec.KeyLoadKey, false, true, 1), 0x12345678, None, 9)) ==
            [0xDC, 0x78, 0x56, 0x34, 0x12, 9]
  {
  }
}
