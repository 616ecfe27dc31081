/** The envelope framing of the encoder: a four-byte length prefix followed by the
    deflated payload. The prefix is the byte view of a one-element Uint32Array: the
    length reduced modulo 2^32 (ToUint32), in the platform's byte order, which is
    least significant byte first on the little-endian platforms browsers run on. */
module Framing {
  import opened Bytes

  const TWO32: nat := 0x1_0000_0000

  /** 256 to the power `count`. */
  function Pow256(count: nat): (p: nat)
    ensures p > 0
  {
    if count == 0 then 1 else 256 * Pow256(count - 1)
  }

  /** The lowest `count` bytes of n, least significant first. */
  function LittleEndian(n: nat, count: nat): (b: seq<Byte>)
    ensures |b| == count
  {
    if count == 0 then [] else [n % 256] + LittleEndian(n / 256, count - 1)
  }

  /** The number whose bytes, least significant first, are b. */
  function ValueOf(b: seq<Byte>): (n: nat)
  {
    if b == [] then 0 else b[0] + 256 * ValueOf(b[1..])
  }

  /** Remainder modulo 256 * p, taken a byte at a time. */
  lemma ModSplit(n: nat, p: nat)
    requires p > 0
    ensures n % (256 * p) == n % 256 + 256 * (n / 256 % p)
  {
    var r, q := n % 256, n / 256;
    var a, t := q / p, q % p;
    assert q == p * a + t;
    assert n == (256 * p) * a + (256 * t + r);
    DivMod(n, 256 * p, a, 256 * t + r);
  }

  /** A number spelled out in `count` bytes is below 256^count. */
  lemma {:induction false} ValueBound(b: seq<Byte>)
    ensures ValueOf(b) < Pow256(|b|)
  {
    if b != [] {
      ValueBound(b[1..]);
    }
  }

  /** Reading back the lowest `count` bytes of n gives n modulo 256^count. */
  lemma {:induction false} ValueOfLittleEndian(n: nat, count: nat)
    ensures ValueOf(LittleEndian(n, count)) == n % Pow256(count)
  {
    if count > 0 {
      var b := LittleEndian(n, count);
      assert b[1..] == LittleEndian(n / 256, count - 1);
      ValueOfLittleEndian(n / 256, count - 1);
      ModSplit(n, Pow256(count - 1));
    }
  }

  /** Spelling out the value of b in |b| bytes gives b back. */
  lemma {:induction false} LittleEndianOfValue(b: seq<Byte>)
    ensures LittleEndian(ValueOf(b), |b|) == b
  {
    if b != [] {
      LittleEndianOfValue(b[1..]);
      DivMod(ValueOf(b), 256, ValueOf(b[1..]), b[0]);
    }
  }

  /** The four bytes of `new Uint32Array([n]).buffer`. Keeping only the lowest four
      bytes is the ToUint32 reduction. */
  function U32LE(n: nat): (b: seq<Byte>)
    ensures |b| == 4
  {
    LittleEndian(n, 4)
  }

  /** The first element of a Uint32Array laid over four bytes. */
  function ReadU32LE(b: seq<Byte>): (n: nat)
    requires |b| == 4
    ensures n < TWO32
  {
    ValueBound(b);
    assert Pow256(4) == TWO32;
    ValueOf(b)
  }

  /** Reading the prefix back recovers the length modulo 2^32. */
  lemma PrefixRoundTrip(n: nat)
    ensures ReadU32LE(U32LE(n)) == n % TWO32
  {
    ValueOfLittleEndian(n, 4);
    assert Pow256(4) == TWO32;
  }

  /** Every four-byte prefix is the encoding of the length it declares, so a decoder
      reading a prefix sees exactly one possible length. */
  lemma PrefixOfRead(b: seq<Byte>)
    requires |b| == 4
    ensures U32LE(ReadU32LE(b)) == b
  {
    LittleEndianOfValue(b);
  }

  /** The envelope written into the pixels: prefix, then the deflated bytes. */
  function Envelope(deflated: seq<Byte>): (env: seq<Byte>)
    ensures |env| == 4 + |deflated|
  {
    U32LE(|deflated|) + deflated
  }

  /** The envelope starts with the prefix of the payload length and carries the payload
      unchanged after it; reading the prefix gives the length modulo 2^32. */
  lemma EnvelopeLayout(deflated: seq<Byte>)
    ensures Envelope(deflated)[..4] == U32LE(|deflated|)
    ensures Envelope(deflated)[4..] == deflated
    ensures ReadU32LE(Envelope(deflated)[..4]) == |deflated| % TWO32
  {
    PrefixRoundTrip(|deflated|);
  }
}
