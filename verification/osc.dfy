/** The parts of the OSC 1.0 wire format that the relay reads and writes:
    OSC-strings, big-endian int32, float messages and blob messages. These are
    reference encoders and parsers written from the format itself, so that the
    relay's fixed-offset code can be checked against them. */
module Osc {
  import opened Results
  import opened Bytes

  /** The type-tag string ",b": one blob argument. */
  const BLOB_TAGS: seq<byte> := [0x2C, 0x62]

  /** The type-tag string ",fff": three float arguments. */
  const FLOAT3_TAGS: seq<byte> := [0x2C, 0x66, 0x66, 0x66]

  /** One past the largest value of an OSC int32. */
  const INT32_LIMIT: nat := 0x8000_0000

  /** An OSC-string: the characters, one NUL, then NULs up to a multiple of four bytes. */
  function OscString(s: seq<byte>): (r: seq<byte>)
    ensures |r| % 4 == 0 && |s| < |r| <= |s| + 4
    ensures r[..|s|] == s && AllZero(r[|s|..])
  {
    s + Zeros(4 - |s| % 4)
  }

  /** The type-tag string of a message with `count` float arguments. */
  function FloatTags(count: nat): (r: seq<byte>)
    ensures |r| == count + 1 && IsCString(r)
  {
    [0x2C] + seq(count, _ => 0x66)
  }

  /** The position of the first NUL at or after `i`, if any. */
  function FindNul(p: seq<byte>, i: nat): (r: Option<nat>)
    requires i <= |p|
    ensures r.Some? ==> i <= r.value < |p| && p[r.value] == 0 && IsCString(p[i..r.value])
    ensures r.None? ==> IsCString(p[i..])
    decreases |p| - i
  {
    if i == |p| then None
    else if p[i] == 0 then Some(i)
    else
      var r := FindNul(p, i + 1);
      assert r.Some? ==> p[i..r.value] == [p[i]] + p[i + 1..r.value];
      assert p[i..] == [p[i]] + p[i + 1..];
      r
  }

  /** Reads the OSC-string at `off`: its characters and the offset just past its padding. */
  function ReadString(p: seq<byte>, off: nat): (r: Option<(seq<byte>, nat)>)
    requires off <= |p|
    ensures r.Some? ==> off < r.value.1 <= |p| && IsCString(r.value.0)
                        && p[off..r.value.1] == OscString(r.value.0)
  {
    match FindNul(p, off)
    case None => None
    case Some(z) =>
      var end := off + ((z - off) / 4 + 1) * 4;
      if end <= |p| && AllZero(p[z..end]) then
        assert p[z..end] == Zeros(end - z);
        assert p[off..end] == p[off..z] + p[z..end];
        Some((p[off..z], end))
      else None
  }

  /** FindNul stops at the first NUL. */
  lemma {:induction false} FindNulAt(p: seq<byte>, i: nat, z: nat)
    requires i <= z < |p| && p[z] == 0
    requires forall j | i <= j < z :: p[j] != 0
    ensures FindNul(p, i) == Some(z)
    decreases z - i
  {
    if i < z {
      FindNulAt(p, i + 1, z);
    }
  }

  /** An OSC-string written at `|pre|` reads back as the same characters. */
  lemma ReadStringOfOscString(pre: seq<byte>, s: seq<byte>, post: seq<byte>)
    requires IsCString(s)
    ensures ReadString(pre + OscString(s) + post, |pre|) == Some((s, |pre| + |OscString(s)|))
  {
    var p := pre + OscString(s) + post;
    var z := |pre| + |s|;
    var end := |pre| + |OscString(s)|;
    forall j | |pre| <= j < z
      ensures p[j] != 0
    {
      assert p[j] == s[j - |pre|];
    }
    assert p[z] == OscString(s)[|s|];
    FindNulAt(p, |pre|, z);
    assert p[|pre|..z] == s;
    assert p[z..end] == OscString(s)[|s|..];
    assert end == |pre| + ((z - |pre|) / 4 + 1) * 4;
  }

  /** Reads a big-endian two's-complement int32 at `off`. */
  function ReadInt32(p: seq<byte>, off: nat): (r: Option<(int, nat)>)
    requires off <= |p|
    ensures r.Some? <==> off + 4 <= |p|
    ensures r.Some? ==> r.value.1 == off + 4 && -(INT32_LIMIT as int) <= r.value.0 < INT32_LIMIT
  {
    if off + 4 <= |p| then
      var u := FromBigEndian32(p[off..off + 4]);
      Some((if u < INT32_LIMIT then u else u - TWO_32, off + 4))
    else None
  }

  /** Zero bytes after blob data of `n` bytes, up to a multiple of four. */
  function BlobPadding(n: nat): (k: nat)
    ensures k < 4 && (n + k) % 4 == 0
  {
    (4 - n % 4) % 4
  }

  /** A message with one blob argument. */
  datatype BlobMessage = BlobMessage(address: seq<byte>, blob: seq<byte>)

  function EncodeBlobMessage(m: BlobMessage): (r: seq<byte>)
    requires |m.blob| < INT32_LIMIT
  {
    OscString(m.address) + OscString(BLOB_TAGS) + BigEndian32(|m.blob|) + m.blob
      + Zeros(BlobPadding(|m.blob|))
  }

  /** Reads a blob argument at `off` that must run to the end of the datagram:
      an int32 size, that many data bytes, then zero padding to a multiple of four. */
  function ReadBlob(p: seq<byte>, off: nat): (r: Option<seq<byte>>)
    requires off <= |p|
  {
    var size := ReadInt32(p, off);
    if size.None? then None
    else
      var (n, start) := size.value;
      if n < 0 || start + n + BlobPadding(n) != |p| || !AllZero(p[start + n..]) then None
      else Some(p[start..start + n])
  }

  /** Parses a whole datagram as a blob message; any deviation from the format is None. */
  function ParseBlobMessage(p: seq<byte>): (r: Option<BlobMessage>)
  {
    var address := ReadString(p, 0);
    if address.None? then None
    else
      var tags := ReadString(p, address.value.1);
      if tags.None? || tags.value.0 != BLOB_TAGS then None
      else
        var blob := ReadBlob(p, tags.value.1);
        if blob.None? then None else Some(BlobMessage(address.value.0, blob.value))
  }

  /** A blob argument written at the end of a datagram reads back as the same data. */
  lemma ReadBlobOfEncoding(pre: seq<byte>, blob: seq<byte>)
    requires |blob| < INT32_LIMIT
    ensures ReadBlob(pre + BigEndian32(|blob|) + blob + Zeros(BlobPadding(|blob|)), |pre|) == Some(blob)
  {
    var n := |blob|;
    var p := pre + BigEndian32(n) + blob + Zeros(BlobPadding(n));
    var start := |pre| + 4;
    assert p[|pre|..start] == BigEndian32(n);
    assert ReadInt32(p, |pre|) == Some((n, start));
    assert p[start..start + n] == blob;
    assert p[start + n..] == Zeros(BlobPadding(n));
  }

  /** An OSC-string at the front of a datagram reads back, whatever follows it. */
  lemma LeadingStringRead(address: seq<byte>, rest: seq<byte>)
    requires IsCString(address)
    ensures ReadString(OscString(address) + rest, 0) == Some((address, |OscString(address)|))
  {
    assert OscString(address) + rest == [] + OscString(address) + rest;
    ReadStringOfOscString([], address, rest);
  }

  /** The address and ",b" OSC-strings at the front of a datagram read back,
      whatever follows them. */
  lemma BlobHeadersRead(address: seq<byte>, rest: seq<byte>)
    requires IsCString(address)
    ensures var a, t := OscString(address), OscString(BLOB_TAGS);
            && ReadString(a + t + rest, 0) == Some((address, |a|))
            && ReadString(a + t + rest, |a|) == Some((BLOB_TAGS, |a| + |t|))
  {
    var a, t := OscString(address), OscString(BLOB_TAGS);
    assert a + t + rest == a + (t + rest);
    LeadingStringRead(address, t + rest);
    ReadStringOfOscString(a, BLOB_TAGS, rest);
  }

  /** Encoding then parsing a blob message gives the message back. */
  lemma BlobMessageRoundTrip(m: BlobMessage)
    requires IsCString(m.address) && |m.blob| < INT32_LIMIT
    ensures ParseBlobMessage(EncodeBlobMessage(m)) == Some(m)
  {
    var a, t := OscString(m.address), OscString(BLOB_TAGS);
    var n := |m.blob|;
    var tail := BigEndian32(n) + m.blob + Zeros(BlobPadding(n));
    var p := EncodeBlobMessage(m);
    assert p == a + t + tail;
    BlobHeadersRead(m.address, tail);
    assert p == (a + t) + BigEndian32(n) + m.blob + Zeros(BlobPadding(n));
    ReadBlobOfEncoding(a + t, m.blob);
  }


  /** A blob argument the reader accepts is the size field, the data and the
      padding, to the end of the datagram. */
  lemma ReadBlobIsEncoding(p: seq<byte>, off: nat)
    requires off <= |p| && ReadBlob(p, off).Some?
    ensures var blob := ReadBlob(p, off).value;
            && |blob| < INT32_LIMIT
            && p[off..] == BigEndian32(|blob|) + blob + Zeros(BlobPadding(|blob|))
  {
    var (n, start) := ReadInt32(p, off).value;
    var blob := ReadBlob(p, off).value;
    assert |blob| == n;
    BigEndian32OfValue(p[off..start]);
    assert p[off..start] == BigEndian32(n);
    assert p[start + n..] == Zeros(BlobPadding(n));
    assert p[off..] == p[off..start] + p[start..start + n] + p[start + n..];
  }

  /** Every datagram the parser accepts is exactly the encoding of what it returned. */
  lemma ParsedBlobMessageIsEncoding(p: seq<byte>)
    requires ParseBlobMessage(p).Some?
    ensures var m := ParseBlobMessage(p).value;
            IsCString(m.address) && |m.blob| < INT32_LIMIT && EncodeBlobMessage(m) == p
  {
    var (address, o1) := ReadString(p, 0).value;
    var (tags, o2) := ReadString(p, o1).value;
    var m := ParseBlobMessage(p).value;
    assert m.blob == ReadBlob(p, o2).value;
    ReadBlobIsEncoding(p, o2);
    assert p[..o1] == OscString(m.address);
    assert p[o1..o2] == OscString(BLOB_TAGS);
    assert p == p[..o1] + p[o1..o2] + p[o2..];
  }

  /** A message with float arguments, the floats given as their 4-byte big-endian images. */
  function EncodeFloatMessage(address: seq<byte>, args: seq<byte>): (r: seq<byte>)
    requires |args| % 4 == 0
  {
    OscString(address) + OscString(FloatTags(|args| / 4)) + args
  }
}
