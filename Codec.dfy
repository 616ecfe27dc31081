/** The two halves of the codec over a mutable sample buffer (the `data` of an
    ImageData): `Encode` frames the deflated payload, checks capacity and packs the
    envelope two bits per colour sample; `GetByte` and `Decode` walk the same cursor
    and read it back. */
module Codec {
  import opened Bytes
  import opened Framing
  import opened Slots
  import opened Packing

  datatype Outcome = Encoded | ImageTooSmall

  /** The encoder's capacity test `data.length / 4 < length * 8 / 6`, multiplied out
      over the rationals: fewer pixels than an envelope of this length needs at six
      payload bits per pixel. */
  predicate TooSmall(sampleCount: nat, envelopeLength: nat)
  {
    3 * sampleCount < 16 * envelopeLength
  }

  /** On a buffer of p whole RGBA pixels the test reads 3p < 4L: three usable slots per
      pixel against four slots per envelope byte. */
  lemma TooSmallInPixels(p: nat, envelopeLength: nat)
    ensures TooSmall(4 * p, envelopeLength) <==> 3 * p < 4 * envelopeLength
  {
  }

  /** When the test passes, each of the 4L slot writes lands inside the buffer. */
  lemma CapacityCoversWrites(sampleCount: nat, envelopeLength: nat, k: nat)
    requires !TooSmall(sampleCount, envelopeLength)
    requires k < 4 * envelopeLength
    ensures SlotIndex(k) < sampleCount
  {
    SlotWithinSamples(k, sampleCount);
  }

  /** On whole pixels the test is exact: it passes precisely when the last slot of a
      non-empty envelope fits in the buffer. */
  lemma CapacityIsTight(p: nat, envelopeLength: nat)
    requires envelopeLength > 0
    ensures !TooSmall(4 * p, envelopeLength) <==> SlotIndex(4 * envelopeLength - 1) < 4 * p
  {
    SlotWithinPixels(4 * envelopeLength - 1, p);
  }

  /** The `forEach` callback of `encode`: the four pairs of one byte, low pair first,
      each written into the sample under the shared cursor, which the callback moves
      past alpha after every write. The cursor is passed in and handed back; m is the
      index of the byte in the envelope env being written over orig. */
  method PackByte(pixels: array<Byte>, byte: Byte, pixel: nat,
                  ghost orig: seq<Byte>, ghost env: seq<Byte>, ghost m: nat, ghost n: nat) returns (next: nat)
    requires m < |env| && byte == env[m] && n == 4 * m && |orig| == pixels.Length
    requires pixel == SlotIndex(n) && 4 * (n + 3) < 3 * pixels.Length
    requires pixels[..] == Written(orig, env, n)
    modifies pixels
    ensures pixels[..] == Written(orig, env, n + 4)
    ensures next == SlotIndex(n + 4)
  {
    next := pixel;
    ghost var done := n;
    for i := 0 to 4
      invariant done == n + i
      invariant next == SlotIndex(done)
      invariant pixels[..] == Written(orig, env, done)
    {
      SlotWithinSamples(done, pixels.Length);
      ghost var before := pixels[..];
      WriteStep(orig, env, done, m, i, before, next, byte);
      pixels[next] := Embed(pixels[next], Pair(byte, i));
      assert pixels[..] == before[next := Embed(before[next], Pair(byte, i))];
      assert pixels[..] == Written(orig, env, done + 1);
      next := Advance(next);
      done := done + 1;
    }
  }

  /** The framing and packing half of `encode`. Fails, leaving the samples untouched,
      exactly when the capacity test fails; otherwise every slot of the envelope is
      written and nothing else changes. */
  method Encode(pixels: array<Byte>, deflated: seq<Byte>) returns (outcome: Outcome)
    modifies pixels
    ensures outcome == ImageTooSmall <==> TooSmall(pixels.Length, 4 + |deflated|)
    ensures outcome == ImageTooSmall ==> pixels[..] == old(pixels[..])
    ensures outcome == Encoded ==>
      pixels[..] == Written(old(pixels[..]), Envelope(deflated), 4 * (4 + |deflated|))
  {
    var bytes := Envelope(deflated);
    var length := |bytes|;
    if TooSmall(pixels.Length, length) {
      return ImageTooSmall;
    }
    ghost var orig := pixels[..];
    var pixel := 0;
    var m := 0;
    ghost var done := 0;
    while m < length
      invariant m <= length && done == 4 * m
      invariant pixel == SlotIndex(done)
      invariant pixels[..] == Written(orig, bytes, done)
    {
      pixel := PackByte(pixels, bytes[m], pixel, orig, bytes, m, done);
      m := m + 1;
      done := done + 4;
    }
    return Encoded;
  }

  /** `getByte`: four reads along the cursor, low pair first; a read past the end of
      the buffer contributes `undefined & 3`, that is 0. The closure's shared cursor is
      passed in and handed back; k is the slot it stands on. */
  method GetByte(pixels: array<Byte>, pixel: nat, ghost k: nat) returns (byte: Byte, next: nat)
    requires pixel == SlotIndex(k)
    ensures byte == Gather(pixels[..], k, 4)
    ensures next == SlotIndex(k + 4)
  {
    var acc := 0;
    next := pixel;
    ghost var at := k;
    for i := 0 to 4
      invariant at == k + i
      invariant next == SlotIndex(at)
      invariant acc == Gather(pixels[..], k, i)
    {
      var bits := if next < pixels.Length then Low2(pixels[next]) else 0;
      GatherStep(pixels[..], k, i);
      SlotIndexNext(at);
      acc := OrPair(acc, bits, i);
      assert acc == Gather(pixels[..], k, i + 1);
      next := Advance(next);
      at := at + 1;
    }
    byte := acc;
  }

  /** The length statement of `decode`: four `getByte` calls from the start of the
      buffer, read as the one element of a Uint32Array laid over them. The cursor is
      handed back standing on slot 16. */
  method ReadLength(pixels: array<Byte>) returns (length: nat, pixel: nat)
    ensures length == ReadU32LE(ReadBytes(pixels[..], 0, 4))
    ensures pixel == SlotIndex(16)
  {
    pixel := 0;
    var b0, b1, b2, b3;
    b0, pixel := GetByte(pixels, pixel, 0);
    b1, pixel := GetByte(pixels, pixel, 4);
    b2, pixel := GetByte(pixels, pixel, 8);
    b3, pixel := GetByte(pixels, pixel, 12);
    ReadPrefix(pixels[..]);
    length := ReadU32LE([b0, b1, b2, b3]);
  }

  /** The body loop of `decode`: `count` bytes read with `GetByte` along the cursor,
      starting at slot `k`. */
  method GetBytes(pixels: array<Byte>, pixel: nat, ghost k: nat, count: nat) returns (bytes: seq<Byte>)
    requires pixel == SlotIndex(k)
    ensures bytes == ReadBytes(pixels[..], k, count)
  {
    var out := new Byte[count];
    var next := pixel;
    ghost var at := k;
    for i := 0 to count
      invariant at == k + 4 * i
      invariant next == SlotIndex(at)
      invariant forall j :: 0 <= j < i ==> out[j] == Gather(pixels[..], k + 4 * j, 4)
    {
      var b;
      b, next := GetByte(pixels, next, at);
      out[i] := b;
      at := at + 4;
    }
    ReadBytesEach(pixels[..], k, out[..]);
    bytes := out[..];
  }

  /** The unpacking half of `decode`: the length from the first four bytes, then that
      many bytes along the same cursor. */
  method Decode(pixels: array<Byte>) returns (deflated: seq<Byte>)
    ensures deflated == Decoded(pixels[..])
  {
    var length, pixel := ReadLength(pixels);
    deflated := GetBytes(pixels, pixel, 16, length);
  }

  /** Decoding what encode wrote returns the deflated bytes, in order, provided the
      capacity test passed and the length fits the 32-bit prefix. */
  lemma RoundTrip(orig: seq<Byte>, deflated: seq<Byte>)
    requires |deflated| < TWO32
    requires !TooSmall(|orig|, 4 + |deflated|)
    ensures Decoded(Written(orig, Envelope(deflated), 4 * (4 + |deflated|))) == deflated
  {
    var env := Envelope(deflated);
    EnvelopeReadsBack(orig, env);
    DecodesEnvelope(Written(orig, env, 4 * |env|), deflated);
  }

  /** Any samples whose slots hold the envelope of a payload, byte m in slots 4m to
      4m + 3, decode to that payload. */
  lemma DecodesEnvelope(s: seq<Byte>, deflated: seq<Byte>)
    requires |deflated| < TWO32
    requires forall m :: 0 <= m < 4 + |deflated| ==> Gather(s, 4 * m, 4) == Envelope(deflated)[m]
    ensures Decoded(s) == deflated
  {
    var env := Envelope(deflated);
    EnvelopeLayout(deflated);
    ReadBytesBack(s, env, 0, 4);
    ReadBytesBack(s, env, 4, |deflated|);
    assert env[0..4] == env[..4];
    assert env[4..4 + |deflated|] == env[4..];
    DecodedFromPrefix(s, deflated);
  }

  /** When the capacity test passes, every byte of the envelope reads back, with
      `getByte`'s arithmetic, from the four slots it was written to. */
  lemma EnvelopeReadsBack(orig: seq<Byte>, env: seq<Byte>)
    requires !TooSmall(|orig|, |env|)
    ensures forall m :: 0 <= m < |env| ==> Gather(Written(orig, env, 4 * |env|), 4 * m, 4) == env[m]
  {
    forall m | 0 <= m < |env|
      ensures Gather(Written(orig, env, 4 * |env|), 4 * m, 4) == env[m]
    {
      CapacityCoversWrites(|orig|, |env|, 4 * m + 3);
      ReadBack(orig, env, 4 * |env|, m);
    }
  }
}
