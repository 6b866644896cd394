/** The layout calculator: every offset and size the relay uses, computed once
    at startup from the configured message shape, and the startup guards that
    refuse a shape the fixed buffers cannot hold. */
module Layout {
  import opened Results
  import opened Bytes
  import opened Osc
  import opened Arith

  /** Values of the 64-bit size_t the layout is computed in lie below this. */
  const SIZE_T_LIMIT: nat := 0x1_0000_0000_0000_0000

  /** One past the largest value of a C int, the type of the configuration macros. */
  const INT_LIMIT: nat := 0x8000_0000

  /** Capacity of the addr_block and in_addr_check stack buffers. */
  const ADDR_BLOCK_CAPACITY: nat := 64

  /** Width of the blob-size field that precedes the blob data. */
  const BLOB_SIZE_FIELD: nat := 4

  /** pad4: rounds up to a multiple of four with `(n + 3u) & ~3u`. The mask
      `~3u` is an unsigned int, so it widens to the 64-bit size_t as
      0x0000_0000_FFFF_FFFC: the result keeps bits 2..31 of the wrapped sum and
      drops everything from bit 32 up. It rounds up only while n + 3 < 2^32. */
  function Pad4(n: nat): (r: nat)
    requires n < SIZE_T_LIMIT
    ensures r % 4 == 0 && r < TWO_32
    ensures n + 3 < TWO_32 ==> n <= r < n + 4
  {
    (n + 3) % SIZE_T_LIMIT % TWO_32 / 4 * 4
  }

  /** Within its exact range, padding a padded length changes nothing. */
  lemma Pad4Idempotent(n: nat)
    requires n + 3 < TWO_32
    ensures Pad4(Pad4(n)) == Pad4(n)
  {
    var r := Pad4(n);
    assert r + 3 < TWO_32;
  }

  /** Outside that range the mask discards the carry into bit 32. */
  lemma Pad4DropsHighBits()
    ensures Pad4(TWO_32 - 3) == 0
  {
  }

  /** The padded block of a string and its terminator is exactly its OSC-string. */
  lemma Pad4IsOscStringLength(s: seq<byte>)
    requires |s| + 4 < TWO_32
    ensures Pad4(|s| + 1) == |OscString(s)|
  {
  }

  /** An address block fits the 64-byte stack buffer exactly when the address
      has at most 63 characters. */
  lemma OscStringFitsAddressBlock(a: seq<byte>)
    ensures |OscString(a)| <= ADDR_BLOCK_CAPACITY <==> |a| < ADDR_BLOCK_CAPACITY
  {
  }

  /** The configuration macros: addresses, floats per inbound message, inbound
      messages per blob and the MTU guard. */
  datatype Shape = Shape(
    inAddress: seq<byte>,
    outAddress: seq<byte>,
    floatsPerRead: nat,
    readsPerBlob: nat,
    maxPacketBytes: nat)
  {
    /** What the C source needs of its macros to compile to this layout: C
        string addresses short enough for pad4's exact range, positive array
        sizes, and int-typed counts. */
    predicate Valid() {
      && IsCString(inAddress) && |inAddress| + 4 < TWO_32
      && IsCString(outAddress) && |outAddress| + 4 < TWO_32
      && 1 <= floatsPerRead < INT_LIMIT
      && 1 <= readsPerBlob < INT_LIMIT
      && maxPacketBytes < INT_LIMIT
    }

    /** The true outbound packet length: blocks, size field and all blob data. */
    function PacketBytes(): nat {
      |OscString(outAddress)| + |OscString(BLOB_TAGS)| + BLOB_SIZE_FIELD
        + 4 * floatsPerRead * readsPerBlob
    }
  }

  /** Every offset and size the relay loop uses. */
  datatype PacketLayout = PacketLayout(
    inAddrBlock: nat,
    inTypeBlock: nat,
    inArgsOffset: nat,
    inArgsBytes: nat,
    inMinBytes: nat,
    outAddrBlock: nat,
    outTypeBlock: nat,
    readsPerBlob: nat,
    accumBytes: nat,
    blobBytes: nat,
    outPacketBytes: nat,
    blobSizeOffset: nat,
    blobDataOffset: nat,
    outBufBytes: nat)
  {
    /** The relations between the sizes that the relay loop relies on. */
    predicate WellFormed() {
      && inArgsBytes > 0 && inArgsBytes % 4 == 0
      && inMinBytes == inArgsOffset + inArgsBytes
      && readsPerBlob > 0 && accumBytes == inArgsBytes * readsPerBlob
      && blobBytes == accumBytes && blobBytes < INT32_LIMIT && blobBytes % 4 == 0
      && blobSizeOffset == outAddrBlock + outTypeBlock
      && blobDataOffset == blobSizeOffset + BLOB_SIZE_FIELD
      && outPacketBytes == blobDataOffset + blobBytes
      && outPacketBytes <= outBufBytes
    }

    /** The layout is the one the OSC format prescribes for `s`. */
    predicate Describes(s: Shape) {
      && inAddrBlock == |OscString(s.inAddress)|
      && inTypeBlock == |OscString(FLOAT3_TAGS)|
      && inArgsOffset == inAddrBlock + inTypeBlock
      && inArgsBytes == 4 * s.floatsPerRead
      && outAddrBlock == |OscString(s.outAddress)|
      && outTypeBlock == |OscString(BLOB_TAGS)|
      && readsPerBlob == s.readsPerBlob
      && accumBytes == 4 * s.floatsPerRead * s.readsPerBlob
      && outBufBytes == s.maxPacketBytes
    }
  }

  /** Startup failures; each makes the process exit before any network I/O. */
  datatype StartupError =
    | PacketTooLarge
    | AddressBlockTooLarge
    | InboundAddressBlockTooLarge

  /** The constants as the source computes them, with `blobBytes` given. */
  function LayoutWith(s: Shape, blobBytes: nat): (L: PacketLayout)
    requires s.Valid()
    ensures L.Describes(s) && L.blobBytes == blobBytes
    ensures L.inMinBytes == L.inArgsOffset + L.inArgsBytes
    ensures L.blobSizeOffset == L.outAddrBlock + L.outTypeBlock
    ensures L.blobDataOffset == L.blobSizeOffset + BLOB_SIZE_FIELD
    ensures L.outPacketBytes == L.blobDataOffset + blobBytes
  {
    Pad4IsOscStringLength(s.inAddress);
    Pad4IsOscStringLength(s.outAddress);
    Pad4IsOscStringLength(BLOB_TAGS);
    Pad4IsOscStringLength(FLOAT3_TAGS);
    var inAddrBlock := Pad4(|s.inAddress| + 1);
    var inTypeBlock := Pad4(|FLOAT3_TAGS| + 1);
    var inArgsOffset := inAddrBlock + inTypeBlock;
    var inArgsBytes := 4 * s.floatsPerRead;
    var outAddrBlock := Pad4(|s.outAddress| + 1);
    var outTypeBlock := Pad4(|BLOB_TAGS| + 1);
    var blobSizeOffset := outAddrBlock + outTypeBlock;
    PacketLayout(
      inAddrBlock, inTypeBlock, inArgsOffset, inArgsBytes, inArgsOffset + inArgsBytes,
      outAddrBlock, outTypeBlock, s.readsPerBlob, 4 * s.floatsPerRead * s.readsPerBlob,
      blobBytes, blobSizeOffset + BLOB_SIZE_FIELD + blobBytes,
      blobSizeOffset, blobSizeOffset + BLOB_SIZE_FIELD, s.maxPacketBytes)
  }

  /** The three startup guards, in the order the source tests them. */
  function Guards(s: Shape, L: PacketLayout): (r: Result<PacketLayout, StartupError>)
    ensures r == Failure(PacketTooLarge) <==> L.outPacketBytes > s.maxPacketBytes
    ensures r == Failure(AddressBlockTooLarge) <==>
              L.outPacketBytes <= s.maxPacketBytes && L.outAddrBlock > ADDR_BLOCK_CAPACITY
    ensures r == Failure(InboundAddressBlockTooLarge) <==>
              && L.outPacketBytes <= s.maxPacketBytes && L.outAddrBlock <= ADDR_BLOCK_CAPACITY
              && L.inAddrBlock > ADDR_BLOCK_CAPACITY
    ensures r.Success? ==> r.value == L
  {
    if L.outPacketBytes > s.maxPacketBytes then Failure(PacketTooLarge)
    else if L.outAddrBlock > ADDR_BLOCK_CAPACITY then Failure(AddressBlockTooLarge)
    else if L.inAddrBlock > ADDR_BLOCK_CAPACITY then Failure(InboundAddressBlockTooLarge)
    else Success(L)
  }

  /** The blob length of the shape: four bytes per float, every float of every
      read. It needs no OSC blob padding. */
  function BlobBytes(s: Shape): (n: nat)
    ensures n == 4 * s.floatsPerRead * s.readsPerBlob
    ensures BlobPadding(n) == 0
  {
    var product := s.floatsPerRead * s.readsPerBlob;
    assert 4 * s.floatsPerRead * s.readsPerBlob == 4 * product;
    4 * product
  }

  /** Startup as written: the blob length is narrowed to uint32_t before the
      MTU guard sees it, while the accumulator keeps its full size. */
  function StartupAsWritten(s: Shape): (r: Result<PacketLayout, StartupError>)
    requires s.Valid()
    ensures var truncated := s.PacketBytes() - BlobBytes(s) + BlobBytes(s) % TWO_32;
            && (r.Success? <==> truncated <= s.maxPacketBytes
                                && |s.outAddress| < ADDR_BLOCK_CAPACITY
                                && |s.inAddress| < ADDR_BLOCK_CAPACITY)
            && (r == Failure(PacketTooLarge) <==> truncated > s.maxPacketBytes)
            && (r == Failure(AddressBlockTooLarge) <==>
                  truncated <= s.maxPacketBytes && |s.outAddress| >= ADDR_BLOCK_CAPACITY)
            && (r == Failure(InboundAddressBlockTooLarge) <==>
                  && truncated <= s.maxPacketBytes && |s.outAddress| < ADDR_BLOCK_CAPACITY
                  && |s.inAddress| >= ADDR_BLOCK_CAPACITY)
    ensures r.Success? ==> r.value.Describes(s) && r.value.blobBytes == r.value.accumBytes % TWO_32
  {
    OscStringFitsAddressBlock(s.inAddress);
    OscStringFitsAddressBlock(s.outAddress);
    Guards(s, LayoutWith(s, BlobBytes(s) % TWO_32))
  }

  /** The layout with the blob length at full width has every relation the
      relay loop relies on, except the bound the MTU guard establishes. */
  lemma FullWidthLayout(s: Shape)
    requires s.Valid()
    ensures var L := LayoutWith(s, BlobBytes(s));
            && L.outPacketBytes == s.PacketBytes()
            && (L.outPacketBytes <= s.maxPacketBytes ==> L.WellFormed())
  {
    var F := s.floatsPerRead;
    assert 4 * F % 4 == 0 by {
      DivModUnique(F, 0, 4);
    }
  }

  /** Startup with the blob length kept at full width, so that the MTU guard
      bounds the packet that is actually sent. */
  function Startup(s: Shape): (r: Result<PacketLayout, StartupError>)
    requires s.Valid()
    ensures r == Failure(PacketTooLarge) <==> s.PacketBytes() > s.maxPacketBytes
    ensures r == Failure(AddressBlockTooLarge) <==>
              s.PacketBytes() <= s.maxPacketBytes && |s.outAddress| >= ADDR_BLOCK_CAPACITY
    ensures r == Failure(InboundAddressBlockTooLarge) <==>
              && s.PacketBytes() <= s.maxPacketBytes && |s.outAddress| < ADDR_BLOCK_CAPACITY
              && |s.inAddress| >= ADDR_BLOCK_CAPACITY
    ensures r.Success? <==>
              && s.PacketBytes() <= s.maxPacketBytes
              && |s.outAddress| < ADDR_BLOCK_CAPACITY && |s.inAddress| < ADDR_BLOCK_CAPACITY
    ensures r.Success? ==> r.value.WellFormed() && r.value.Describes(s)
    ensures r.Success? ==> r.value.outPacketBytes == s.PacketBytes() <= s.maxPacketBytes
  {
    OscStringFitsAddressBlock(s.inAddress);
    OscStringFitsAddressBlock(s.outAddress);
    FullWidthLayout(s);
    Guards(s, LayoutWith(s, BlobBytes(s)))
  }

  /** While the blob length fits 32 bits the narrowing cast changes nothing:
      the startup the program runs and the corrected one agree. */
  lemma StartupAgrees(s: Shape)
    requires s.Valid() && BlobBytes(s) < TWO_32
    ensures StartupAsWritten(s) == Startup(s)
  {
    assert BlobBytes(s) % TWO_32 == BlobBytes(s);
    assert LayoutWith(s, BlobBytes(s) % TWO_32) == LayoutWith(s, BlobBytes(s));
  }

  /** The fixed stack buffers hold everything written into them: the address
      block fits addr_block, the packet fits out_buf, and the blob length fits
      the signed 32-bit size field. */
  lemma StartupBuffersFit(s: Shape)
    requires s.Valid() && Startup(s).Success?
    ensures var L := Startup(s).value;
            && L.outAddrBlock <= ADDR_BLOCK_CAPACITY && L.inAddrBlock <= ADDR_BLOCK_CAPACITY
            && L.outPacketBytes <= L.outBufBytes
            && L.blobBytes == L.accumBytes < INT32_LIMIT
  {
  }

  /** The narrowing cast lets a shape through whose blob the packet cannot
      carry: with one float per read and 2^30 reads per blob the accumulator
      holds 2^32 bytes, yet the guard sees a 12-byte packet and the size field
      announces an empty blob. Inbound messages of 16 bytes are accepted, so
      that packet is sent after every 2^30 of them. */
  lemma BlobLengthTruncated()
    ensures var s := Shape([0x2F, 0x61], [0x2F, 0x61], 1, 0x4000_0000, 1400);
            && s.Valid()
            && StartupAsWritten(s).Success?
            && StartupAsWritten(s).value.inMinBytes == 16
            && StartupAsWritten(s).value.accumBytes == TWO_32
            && StartupAsWritten(s).value.blobBytes == 0
            && StartupAsWritten(s).value.outPacketBytes == 12
            && Startup(s) == Failure(PacketTooLarge)
  {
    var s := Shape([0x2F, 0x61], [0x2F, 0x61], 1, 0x4000_0000, 1400);
    assert |OscString(s.outAddress)| == 4;
    assert |OscString(s.inAddress)| == 4;
    assert |OscString(FLOAT3_TAGS)| == 8;
    assert |OscString(BLOB_TAGS)| == 4;
  }
}
