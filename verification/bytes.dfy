/** Byte sequences as the relay manipulates them: zero fill (memset), copy at
    an offset (memcpy), big-endian 32-bit words (htonl) and C strings. */
module Bytes {

  newtype byte = x: int | 0 <= x < 0x100

  const TWO_32: nat := 0x1_0000_0000

  predicate AllZero(s: seq<byte>) {
    forall i | 0 <= i < |s| :: s[i] == 0
  }

  /** The bytes strlen counts: a C string holds no NUL before its terminator. */
  predicate IsCString(s: seq<byte>) {
    forall i | 0 <= i < |s| :: s[i] != 0
  }

  /** `n` zero bytes, what memset(p, 0, n) leaves behind. */
  function Zeros(n: nat): (r: seq<byte>)
    ensures |r| == n && AllZero(r)
  {
    seq(n, _ => 0)
  }

  /** memcpy(buf + off, src, |src|) into a buffer of fixed length. */
  function Overwrite(buf: seq<byte>, off: nat, src: seq<byte>): (r: seq<byte>)
    requires off + |src| <= |buf|
    ensures |r| == |buf|
    ensures r[..off] == buf[..off]
    ensures r[off..off + |src|] == src
    ensures r[off + |src|..] == buf[off + |src|..]
  {
    buf[..off] + src + buf[off + |src|..]
  }

  /** The unsigned value of four bytes read most significant first. */
  function FromBigEndian32(b: seq<byte>): (x: nat)
    requires |b| == 4
    ensures x < TWO_32
  {
    ((b[0] as nat * 0x100 + b[1] as nat) * 0x100 + b[2] as nat) * 0x100 + b[3] as nat
  }

  /** htonl followed by a 4-byte memcpy: the bytes of `x`, most significant first. */
  function BigEndian32(x: nat): (r: seq<byte>)
    requires x < TWO_32
    ensures |r| == 4 && FromBigEndian32(r) == x
  {
    var x1 := x / 0x100;
    var x2 := x1 / 0x100;
    assert x2 < 0x1_0000;
    [(x2 / 0x100) as byte, (x2 % 0x100) as byte, (x1 % 0x100) as byte, (x % 0x100) as byte]
  }

  /** Four bytes are the big-endian encoding of the value they denote. */
  lemma BigEndian32OfValue(b: seq<byte>)
    requires |b| == 4
    ensures BigEndian32(FromBigEndian32(b)) == b
  {
    var b0, b1, b2, b3 := b[0] as nat, b[1] as nat, b[2] as nat, b[3] as nat;
    var x2 := b0 * 0x100 + b1;
    var x1 := x2 * 0x100 + b2;
    var x := x1 * 0x100 + b3;
    assert x == FromBigEndian32(b);
    assert x / 0x100 == x1 && x % 0x100 == b3;
    assert x1 / 0x100 == x2 && x1 % 0x100 == b2;
    assert x2 / 0x100 == b0 && x2 % 0x100 == b1;
  }

  /** The parts laid end to end, first part first. */
  function Concat<T>(parts: seq<seq<T>>): (r: seq<T>)
  {
    if parts == [] then [] else Concat(parts[..|parts| - 1]) + parts[|parts| - 1]
  }

  lemma {:induction false} ConcatUniform<T>(parts: seq<seq<T>>, width: nat)
    requires forall i | 0 <= i < |parts| :: |parts[i]| == width
    ensures |Concat(parts)| == |parts| * width
  {
    if parts != [] {
      var init, k := parts[..|parts| - 1], |parts| - 1;
      assert forall i | 0 <= i < |init| :: init[i] == parts[i];
      ConcatUniform(init, width);
      assert |Concat(parts)| == |Concat(init)| + |parts[k]|;
      assert (k + 1) * width == k * width + width;
    }
  }

  /** Laying a part in front of the others puts its elements first. */
  lemma {:induction false} ConcatCons<T>(first: seq<T>, rest: seq<seq<T>>)
    ensures Concat([first] + rest) == first + Concat(rest)
    decreases |rest|
  {
    if rest != [] {
      var init := rest[..|rest| - 1];
      ConcatCons(first, init);
      assert ([first] + rest)[..|rest|] == [first] + init;
    }
  }
}
