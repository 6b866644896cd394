/** The relay as configured: three floats per inbound "/accel" message, four
    messages per blob, forwarded to "/accel" under a 1400-byte MTU guard. */
module Scenario {
  import opened Results
  import opened Bytes
  import opened Osc
  import opened Layout
  import opened OutboundPrefix
  import opened Chunking
  import opened Relay

  /** "/accel" in ASCII. */
  const ACCEL: seq<byte> := [0x2F, 0x61, 0x63, 0x63, 0x65, 0x6C]

  /** The configuration macros as shipped. */
  const CONFIGURED: Shape := Shape(ACCEL, ACCEL, 3, 4, 1400)

  /** The layout of the shipped configuration: an "/accel" ,fff message has its
      floats at bytes 16..27, and an "/accel" ,b packet is 64 bytes with the
      blob size at 12 and the blob at 16. */
  const CONFIGURED_LAYOUT: PacketLayout :=
    PacketLayout(
      inAddrBlock := 8, inTypeBlock := 8, inArgsOffset := 16, inArgsBytes := 12,
      inMinBytes := 28, outAddrBlock := 8, outTypeBlock := 4, readsPerBlob := 4,
      accumBytes := 48, blobBytes := 48, outPacketBytes := 64,
      blobSizeOffset := 12, blobDataOffset := 16, outBufBytes := 1400)

  /** The shipped configuration passes every startup guard with that layout. */
  lemma ConfiguredStartup()
    ensures CONFIGURED.Valid()
    ensures Startup(CONFIGURED) == Success(CONFIGURED_LAYOUT)
  {
    assert IsCString(ACCEL);
    assert CONFIGURED.PacketBytes() == 8 + 4 + 4 + 48;
  }

  /** The prefix written into out_buf at startup is "/accel\0\0,b\0\0". */
  lemma ConfiguredPrefix()
    ensures OutPrefix(ACCEL)
            == [0x2F, 0x61, 0x63, 0x63, 0x65, 0x6C, 0, 0, 0x2C, 0x62, 0, 0]
  {
    assert OscString(ACCEL) == ACCEL + [0, 0];
    assert OscString(BLOB_TAGS) == BLOB_TAGS + [0, 0];
  }

  /** The configured decoder takes datagrams of 28 bytes or more, bytes 16..27. */
  lemma ConfiguredDecode(p: seq<byte>)
    ensures Decode(CONFIGURED_LAYOUT, Received(p)).Some? <==> |p| >= 28
    ensures |p| >= 28 ==> Decode(CONFIGURED_LAYOUT, Received(p)) == Some(p[16..28])
  {
  }

  /** The datagrams an "/accel" sender produces, one ,fff message per block of
      three big-endian floats. */
  function AccelMessages(blocks: seq<seq<byte>>): (ds: seq<Datagram>)
    requires forall i | 0 <= i < |blocks| :: |blocks[i]| == 12
    ensures |ds| == |blocks|
  {
    seq(|blocks|, i requires 0 <= i < |blocks| => Received(EncodeFloatMessage(ACCEL, blocks[i])))
  }

  /** The configured decoder accepts every "/accel" ,fff message and takes
      exactly its floats, so the accepted blocks are the sent blocks. */
  lemma {:induction false} ConfiguredAcceptsAll(blocks: seq<seq<byte>>)
    requires forall i | 0 <= i < |blocks| :: |blocks[i]| == 12
    ensures Accepted(CONFIGURED_LAYOUT, AccelMessages(blocks)) == blocks
    decreases |blocks|
  {
    if blocks != [] {
      var n := |blocks|;
      var ds := AccelMessages(blocks);
      var init, last := blocks[..n - 1], blocks[n - 1];
      ConfiguredAcceptsAll(init);
      assert ds[..n - 1] == AccelMessages(init);
      assert ds[n - 1] == Received(EncodeFloatMessage(ACCEL, last));
      assert Decode(CONFIGURED_LAYOUT, ds[n - 1]) == Some(last) by {
        ConfiguredStartup();
        assert FloatTags(3) == FLOAT3_TAGS;
        DecodeFloatMessage(CONFIGURED, CONFIGURED_LAYOUT, last, []);
        assert EncodeFloatMessage(ACCEL, last) + [] == EncodeFloatMessage(ACCEL, last);
      }
      assert Accepted(CONFIGURED_LAYOUT, ds) == Accepted(CONFIGURED_LAYOUT, ds[..n - 1]) + [last];
      assert blocks == init + [last];
    }
  }

  /** Four blocks laid end to end behind a header. */
  lemma ConcatFour(head: seq<byte>, a0: seq<byte>, a1: seq<byte>, a2: seq<byte>, a3: seq<byte>)
    ensures head + Concat([a0, a1, a2, a3]) == head + a0 + a1 + a2 + a3
  {
    assert Concat([a0]) == a0 by { assert [a0][..0] == []; }
    assert Concat([a0, a1]) == a0 + a1 by { assert [a0, a1][..1] == [a0]; }
    assert Concat([a0, a1, a2]) == a0 + a1 + a2 by { assert [a0, a1, a2][..2] == [a0, a1]; }
    assert [a0, a1, a2, a3][..3] == [a0, a1, a2];
  }

  /** The configured relay sends its first packet on the fourth "/accel"
      message: the 12-byte prefix, the size 48 big-endian, and the four
      argument blocks in arrival order. */
  lemma ConfiguredFirstPacket(accum0: seq<byte>, outBuf0: seq<byte>,
                              a0: seq<byte>, a1: seq<byte>, a2: seq<byte>, a3: seq<byte>)
    requires |accum0| == 48 && |outBuf0| == 1400
    requires |a0| == 12 && |a1| == 12 && |a2| == 12 && |a3| == 12
    ensures CONFIGURED.Valid() && Startup(CONFIGURED) == Success(CONFIGURED_LAYOUT)
    ensures Run(CONFIGURED_LAYOUT, Start(CONFIGURED, CONFIGURED_LAYOUT, accum0, outBuf0),
                AccelMessages([a0, a1, a2, a3])).packets
            == [OutPrefix(ACCEL) + [0, 0, 0, 48] + a0 + a1 + a2 + a3]
  {
    ConfiguredStartup();
    var A := [a0, a1, a2, a3];
    var ds := AccelMessages(A);
    var st := Start(CONFIGURED, CONFIGURED_LAYOUT, accum0, outBuf0);
    ConfiguredAcceptsAll(A);
    OneGroupOnePacket(CONFIGURED, CONFIGURED_LAYOUT, st, ds);
    var prefix, size := OutPrefix(ACCEL), BigEndian32(CONFIGURED_LAYOUT.blobBytes);
    assert Run(CONFIGURED_LAYOUT, st, ds).packets == [prefix + size + Concat(A)];
    ConcatFour(prefix + size, a0, a1, a2, a3);
    BlobSizeField();
  }

  /** The blob-size field of the configured packet: 48 as a big-endian int32. */
  lemma BlobSizeField()
    ensures BigEndian32(CONFIGURED_LAYOUT.blobBytes) == [0, 0, 0, 48]
  {
  }

  /** Two floats per read, otherwise as shipped. */
  const TWO_FLOATS: Shape := Shape(ACCEL, ACCEL, 2, 4, 1400)

  /** With two floats per read startup still succeeds, and the fixed ",fff"
      block puts the floats at byte 16 and the minimum at 24. */
  lemma TwoFloatStartup()
    ensures TWO_FLOATS.Valid() && Startup(TWO_FLOATS).Success?
    ensures Startup(TWO_FLOATS).value.inArgsOffset == 16
    ensures Startup(TWO_FLOATS).value.inMinBytes == 24
  {
    assert IsCString(ACCEL);
    assert |OscString(ACCEL)| == 8 && |OscString(FLOAT3_TAGS)| == 8;
    assert TWO_FLOATS.PacketBytes() == 8 + 4 + 4 + 32;
  }

  /** The inbound type-tag block is always the one of ",fff". Configured for
      two floats per read, the relay expects 24-byte messages, while a well-formed
      "/accel" ,ff message is 20 bytes long, so every such message is dropped. */
  lemma TwoFloatMessagesRejected(L: PacketLayout, args: seq<byte>)
    requires TWO_FLOATS.Valid() && Startup(TWO_FLOATS) == Success(L)
    requires |args| == 8
    ensures L.inMinBytes == 24
    ensures |EncodeFloatMessage(ACCEL, args)| == 20
    ensures Decode(L, Received(EncodeFloatMessage(ACCEL, args))).None?
  {
    TwoFloatStartup();
    assert |OscString(ACCEL)| == 8;
    assert |OscString(FloatTags(2))| == 4;
  }
}
