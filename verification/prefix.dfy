/** The constant front of every outbound packet: the address block and the
    type-tag block, built once at startup and copied to the head of out_buf. */
module OutboundPrefix {
  import opened Results
  import opened Bytes
  import opened Osc
  import opened Layout

  /** What the first bytes of every outbound packet should be. */
  function OutPrefix(address: seq<byte>): seq<byte>
  {
    OscString(address) + OscString(BLOB_TAGS)
  }

  /** A block of `len` zero bytes with `s` copied over its front, as
      memset(block, 0, len) followed by memcpy(block, s, strlen(s)) builds it. */
  function PadBlock(s: seq<byte>, len: nat): (r: seq<byte>)
    requires |s| <= len
    ensures |r| == len && r[..|s|] == s && AllZero(r[|s|..])
  {
    Overwrite(Zeros(len), 0, s)
  }

  /** The outbound address block built at startup is the address as an OSC-string. */
  lemma AddressBlockIsOscString(s: Shape, L: PacketLayout)
    requires s.Valid() && Startup(s) == Success(L)
    ensures |s.outAddress| < L.outAddrBlock
    ensures PadBlock(s.outAddress, L.outAddrBlock) == OscString(s.outAddress)
  {
    var b := PadBlock(s.outAddress, L.outAddrBlock);
    assert b[..|s.outAddress|] == s.outAddress;
    assert b[|s.outAddress|..] == Zeros(L.outAddrBlock)[|s.outAddress|..];
    assert b == b[..|s.outAddress|] + b[|s.outAddress|..];
  }

  /** The outbound type-tag block built at startup is ",b" as an OSC-string. */
  lemma TypeBlockIsOscString(s: Shape, L: PacketLayout)
    requires s.Valid() && Startup(s) == Success(L)
    ensures PadBlock(BLOB_TAGS, L.outTypeBlock) == OscString(BLOB_TAGS) == [0x2C, 0x62, 0, 0]
  {
    assert PadBlock(BLOB_TAGS, L.outTypeBlock) == BLOB_TAGS + Zeros(2);
  }

  /** out_buf after startup: whatever the uninitialised stack array held, with
      the address block and then the type-tag block copied over its front. */
  function InitOutBuf(s: Shape, L: PacketLayout, garbage: seq<byte>): (r: seq<byte>)
    requires s.Valid() && Startup(s) == Success(L) && |garbage| == L.outBufBytes
    ensures |r| == L.outBufBytes
    ensures r[..L.blobSizeOffset] == OutPrefix(s.outAddress)
    ensures r[L.blobSizeOffset..] == garbage[L.blobSizeOffset..]
  {
    AddressBlockIsOscString(s, L);
    TypeBlockIsOscString(s, L);
    var withAddress := Overwrite(garbage, 0, PadBlock(s.outAddress, L.outAddrBlock));
    var r := Overwrite(withAddress, L.outAddrBlock, PadBlock(BLOB_TAGS, L.outTypeBlock));
    assert r[..L.blobSizeOffset] == r[..L.outAddrBlock] + r[L.outAddrBlock..L.blobSizeOffset];
    r
  }
}
