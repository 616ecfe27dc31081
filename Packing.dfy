/** The two-bit packing of the codec, as functions of the sample sequence: what the
    encoder's write loop leaves in the buffer, and what `getByte` reads back. */
module Packing {
  import opened Bytes
  import opened Framing
  import opened Slots

  /** The samples once the encoder has made its first n slot writes over orig: write k
      embeds pair k % 4 of envelope byte k / 4 into the sample at SlotIndex(k). A write
      past the end of a typed array is dropped, as JavaScript drops it. */
  function Written(orig: seq<Byte>, env: seq<Byte>, n: nat): (w: seq<Byte>)
    requires n <= 4 * |env|
    ensures |w| == |orig|
  {
    if n == 0 then orig
    else
      var w := Written(orig, env, n - 1);
      var j := SlotIndex(n - 1);
      if j < |w| then w[j := Embed(w[j], Pair(env[(n - 1) / 4], (n - 1) % 4))] else w
  }

  /** Write n, the i-th write of envelope byte m when n = 4m + i, in the encoder's
      terms: when the samples are those after the first n writes and the cursor stands
      on slot n, embedding pair i of the byte into the sample under the cursor gives
      the samples after n + 1 writes, and advancing the cursor gives the next slot. */
  lemma WriteStep(orig: seq<Byte>, env: seq<Byte>, n: nat, m: nat, i: nat, before: seq<Byte>, at: nat, byte: Byte)
    requires i < 4 && n == 4 * m + i && m < |env| && byte == env[m]
    requires before == Written(orig, env, n) && at == SlotIndex(n) && at < |orig|
    ensures before[at := Embed(before[at], Pair(byte, i))] == Written(orig, env, n + 1)
    ensures Advance(at) == SlotIndex(n + 1)
  {
    assert n / 4 == m && n % 4 == i;
  }

  /** Sample j after n writes, in closed form: the sample that holds a slot k below n
      carries pair k % 4 of byte k / 4 in its two low bits; every other sample is as
      it was. */
  function WrittenSample(orig: seq<Byte>, env: seq<Byte>, n: nat, j: nat): (r: Byte)
    requires j < |orig| && n <= 4 * |env|
  {
    if j % 4 != 3 && SlotOf(j) < n then Embed(orig[j], Pair(env[SlotOf(j) / 4], SlotOf(j) % 4))
    else orig[j]
  }

  /** The writes agree with the closed form: no sample is written twice, so each
      written sample embeds its pair into the original value. */
  lemma {:induction false} WrittenAt(orig: seq<Byte>, env: seq<Byte>, n: nat, j: nat)
    requires j < |orig| && n <= 4 * |env|
    ensures Written(orig, env, n)[j] == WrittenSample(orig, env, n, j)
  {
    if n > 0 {
      WrittenAt(orig, env, n - 1, j);
      var j0 := SlotIndex(n - 1);
      SlotOfIndex(n - 1);
      if j == j0 {
        assert SlotOf(j) == n - 1;
      } else if j % 4 != 3 {
        assert SlotOf(j) != n - 1;
      }
    }
  }

  /** Slot k below n, when it fits, holds pair k % 4 of envelope byte k / 4. */
  lemma WrittenSlot(orig: seq<Byte>, env: seq<Byte>, n: nat, k: nat)
    requires n <= 4 * |env| && k < n && SlotIndex(k) < |orig|
    ensures Low2(Written(orig, env, n)[SlotIndex(k)]) == Pair(env[k / 4], k % 4)
  {
    SlotOfIndex(k);
    WrittenAt(orig, env, n, SlotIndex(k));
  }

  /** Only the two low bits of a sample can differ from orig, and alpha never does;
      slot k below n holds pair k % 4 of envelope byte k / 4; every sample that holds
      no slot below n (alpha, or a slot still to come) is as it was. */
  lemma WrittenContents(orig: seq<Byte>, env: seq<Byte>, n: nat)
    requires n <= 4 * |env|
    ensures forall j :: 0 <= j < |orig| ==> Written(orig, env, n)[j] / 4 == orig[j] / 4
    ensures forall j :: 0 <= j < |orig| && j % 4 == 3 ==> Written(orig, env, n)[j] == orig[j]
    ensures forall k: nat :: k < n && SlotIndex(k) < |orig| ==>
      Low2(Written(orig, env, n)[SlotIndex(k)]) == Pair(env[k / 4], k % 4)
    ensures forall j :: 0 <= j < |orig| && (j % 4 == 3 || SlotOf(j) >= n) ==>
      Written(orig, env, n)[j] == orig[j]
  {
    forall j | 0 <= j < |orig|
      ensures Written(orig, env, n)[j] == WrittenSample(orig, env, n, j)
    {
      WrittenAt(orig, env, n, j);
    }
    forall k: nat | k < n && SlotIndex(k) < |orig|
      ensures Low2(Written(orig, env, n)[SlotIndex(k)]) == Pair(env[k / 4], k % 4)
    {
      WrittenSlot(orig, env, n, k);
    }
  }

  /** The low two bits of the sample that holds slot k. A read past the end of the
      buffer gives `undefined`, and `undefined & 3` is 0. */
  function SlotBits(s: seq<Byte>, k: nat): (p: nat)
    ensures p < 4
  {
    if SlotIndex(k) < |s| then Low2(s[SlotIndex(k)]) else 0
  }

  /** The byte `getByte` has assembled after i rounds, starting at slot k; after four
      rounds, the byte it returns. */
  function Gather(s: seq<Byte>, k: nat, i: nat): (b: nat)
    requires i <= 4
    ensures b < Pow4(i)
  {
    if i == 0 then 0 else OrPair(Gather(s, k, i - 1), SlotBits(s, k + i - 1), i - 1)
  }

  /** One round of `getByte` ORs the pair of slot k + i into position i. */
  lemma GatherStep(s: seq<Byte>, k: nat, i: nat)
    requires i < 4
    ensures Gather(s, k, i + 1) == OrPair(Gather(s, k, i), SlotBits(s, k + i), i)
  {
  }

  /** `getByte` returns the four slot pairs from k, each at its own weight. */
  lemma GatherSum(s: seq<Byte>, k: nat)
    ensures Gather(s, k, 4)
      == SlotBits(s, k) + 4 * SlotBits(s, k + 1) + 16 * SlotBits(s, k + 2) + 64 * SlotBits(s, k + 3)
  {
    assert Gather(s, k, 1) == SlotBits(s, k);
    assert Gather(s, k, 2) == SlotBits(s, k) + 4 * SlotBits(s, k + 1);
    assert Gather(s, k, 3) == SlotBits(s, k) + 4 * SlotBits(s, k + 1) + 16 * SlotBits(s, k + 2);
  }

  /** When the four slots from k hold the four pairs of b, `getByte` returns b. */
  lemma GatherPairs(s: seq<Byte>, k: nat, b: Byte)
    requires SlotBits(s, k) == Pair(b, 0) && SlotBits(s, k + 1) == Pair(b, 1)
    requires SlotBits(s, k + 2) == Pair(b, 2) && SlotBits(s, k + 3) == Pair(b, 3)
    ensures Gather(s, k, 4) == b
  {
    GatherSum(s, k);
    PairsReassemble(b);
  }

  /** Slot i of written byte m reads back as pair i of that byte. */
  lemma ReadBackSlot(orig: seq<Byte>, env: seq<Byte>, n: nat, m: nat, i: nat)
    requires n <= 4 * |env| && 4 * m + 4 <= n && i < 4
    requires SlotIndex(4 * m + 3) < |orig|
    ensures SlotBits(Written(orig, env, n), 4 * m + i) == Pair(env[m], i)
  {
    if i < 3 {
      SlotIndexMonotone(4 * m + i, 4 * m + 3);
    }
    assert (4 * m + i) / 4 == m && (4 * m + i) % 4 == i;
    WrittenSlot(orig, env, n, 4 * m + i);
  }

  /** `getByte` undoes the four writes of one envelope byte: once byte m is written and
      its four slots fit in the buffer, reading from slot 4m gives that byte. */
  lemma ReadBack(orig: seq<Byte>, env: seq<Byte>, n: nat, m: nat)
    requires n <= 4 * |env| && 4 * m + 4 <= n
    requires SlotIndex(4 * m + 3) < |orig|
    ensures Gather(Written(orig, env, n), 4 * m, 4) == env[m]
  {
    var k := 4 * m;
    ReadBackSlot(orig, env, n, m, 0);
    ReadBackSlot(orig, env, n, m, 1);
    ReadBackSlot(orig, env, n, m, 2);
    ReadBackSlot(orig, env, n, m, 3);
    assert k + 0 == k;  // the first slot, in the form GatherPairs states it
    GatherPairs(Written(orig, env, n), k, env[m]);
  }

  /** The `count` bytes that successive `getByte` calls return when the cursor starts
      at slot k. */
  function ReadBytes(s: seq<Byte>, k: nat, count: nat): (b: seq<Byte>)
    ensures |b| == count
  {
    if count == 0 then [] else ReadBytes(s, k, count - 1) + [Gather(s, k + 4 * (count - 1), 4)]
  }

  /** One more read appends the byte at the next four slots. */
  lemma ReadBytesStep(s: seq<Byte>, k: nat, count: nat)
    ensures ReadBytes(s, k, count + 1) == ReadBytes(s, k, count) + [Gather(s, k + 4 * count, 4)]
  {
  }

  /** A sequence whose element j is the byte read at slot k + 4j is the run of reads
      from slot k. */
  lemma {:induction false} ReadBytesEach(s: seq<Byte>, k: nat, b: seq<Byte>)
    requires forall j :: 0 <= j < |b| ==> b[j] == Gather(s, k + 4 * j, 4)
    ensures b == ReadBytes(s, k, |b|)
  {
    if b != [] {
      var n := |b| - 1;
      ReadBytesEach(s, k, b[..n]);
      ReadBytesStep(s, k, n);
      assert b == b[..n] + [b[n]];
    }
  }

  /** The four prefix reads, spelled out. */
  lemma ReadPrefix(s: seq<Byte>)
    ensures ReadBytes(s, 0, 4) == [Gather(s, 0, 4), Gather(s, 4, 4), Gather(s, 8, 4), Gather(s, 12, 4)]
  {
    assert ReadBytes(s, 0, 1) == [Gather(s, 0, 4)];
    assert ReadBytes(s, 0, 2) == [Gather(s, 0, 4), Gather(s, 4, 4)];
    assert ReadBytes(s, 0, 3) == [Gather(s, 0, 4), Gather(s, 4, 4), Gather(s, 8, 4)];
  }

  /** When each byte from slot 4m on reads back as the matching element of env, a run
      of reads returns that part of env in order. */
  lemma {:induction false} ReadBytesBack(s: seq<Byte>, env: seq<Byte>, m: nat, count: nat)
    requires m + count <= |env|
    requires forall j :: m <= j < m + count ==> Gather(s, 4 * j, 4) == env[j]
    ensures ReadBytes(s, 4 * m, count) == env[m..m + count]
  {
    if count > 0 {
      ReadBytesBack(s, env, m, count - 1);
      var last := m + count - 1;
      assert 4 * m + 4 * (count - 1) == 4 * last;
      assert Gather(s, 4 * last, 4) == env[last];
      assert env[m..m + count] == env[m..last] + [env[last]];
    }
  }

  /** What decode recovers from a sample buffer: the length read from the first four
      bytes, then that many bytes from slot 16 on. */
  function Decoded(s: seq<Byte>): (d: seq<Byte>)
    ensures |d| < TWO32
  {
    ReadBytes(s, 16, ReadU32LE(ReadBytes(s, 0, 4)))
  }

  /** A buffer whose first four bytes are the prefix of a length below 2^32, followed by
      that many bytes, decodes to those bytes. */
  lemma DecodedFromPrefix(s: seq<Byte>, deflated: seq<Byte>)
    requires |deflated| < TWO32
    requires ReadBytes(s, 0, 4) == U32LE(|deflated|)
    requires ReadBytes(s, 16, |deflated|) == deflated
    ensures Decoded(s) == deflated
  {
    var n := |deflated|;
    PrefixRoundTrip(n);
    DivMod(n, TWO32, 0, n);
    assert ReadU32LE(ReadBytes(s, 0, 4)) == n;
  }
}
