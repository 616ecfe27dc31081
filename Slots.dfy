/** The cursor that both halves of the codec walk over the RGBA samples. Every payload
    byte takes four two-bit slots, and slot k lives in sample SlotIndex(k): the cursor
    visits the red, green and blue samples of each pixel in turn and never stops on
    alpha (a sample index that is 3 modulo 4). */
module Slots {

  /** One step of the cursor: `pixel++`, and one more when it lands on alpha. */
  function Advance(pixel: nat): (next: nat)
  {
    if (pixel + 1) % 4 == 3 then pixel + 2 else pixel + 1
  }

  /** The cursor after k steps from sample 0: the sample that holds slot k. */
  function SlotIndex(k: nat): (j: nat)
  {
    if k == 0 then 0 else Advance(SlotIndex(k - 1))
  }

  /** Slot k + 1 is one cursor step after slot k. */
  lemma SlotIndexNext(k: nat)
    ensures SlotIndex(k + 1) == Advance(SlotIndex(k))
  {
  }

  /** Sample 4q + c is channel c of pixel q. */
  lemma PixelChannel(q: nat, c: nat)
    requires c < 4
    ensures (4 * q + c) % 4 == c && (4 * q + c) / 4 == q
  {
  }

  /** Slot 3q + c sits in pixel q, channel c. */
  lemma {:induction false} SlotIndexAt(q: nat, c: nat)
    requires c < 3
    ensures SlotIndex(3 * q + c) == 4 * q + c
    decreases 3 * q + c
  {
    if c > 0 {
      SlotIndexAt(q, c - 1);
      PixelChannel(q, c);
    } else if q > 0 {
      SlotIndexAt(q - 1, 2);
      PixelChannel(q - 1, 3);
    }
  }

  /** Closed form of the cursor: slot k sits in pixel k / 3, channel k % 3. */
  lemma {:induction false} SlotIndexClosed(k: nat)
    ensures SlotIndex(k) == 4 * (k / 3) + k % 3
  {
    SlotIndexAt(k / 3, k % 3);
  }

  /** The cursor never stands on an alpha sample. */
  lemma {:induction false} SlotIndexNotAlpha(k: nat)
    ensures SlotIndex(k) % 4 != 3
  {
    SlotIndexClosed(k);
  }

  /** The slot stored in a colour sample: the inverse of SlotIndex. */
  function SlotOf(j: nat): (k: nat)
    requires j % 4 != 3
    ensures SlotIndex(k) == j
  {
    var k := 3 * (j / 4) + j % 4;
    SlotIndexClosed(k);
    k
  }

  /** SlotOf undoes SlotIndex, so distinct slots never share a sample. */
  lemma {:induction false} SlotOfIndex(k: nat)
    ensures SlotIndex(k) % 4 != 3 && SlotOf(SlotIndex(k)) == k
  {
    SlotIndexClosed(k);
  }

  /** Later slots live in later samples. */
  lemma {:induction false} SlotIndexMonotone(k1: nat, k2: nat)
    requires k1 < k2
    ensures SlotIndex(k1) < SlotIndex(k2)
  {
    SlotIndexClosed(k1);
    SlotIndexClosed(k2);
    assert k1 / 3 <= k2 / 3;
  }

  /** A buffer of p pixels holds exactly the slots below 3 * p. */
  lemma {:induction false} SlotWithinPixels(k: nat, p: nat)
    ensures SlotIndex(k) < 4 * p <==> k < 3 * p
  {
    SlotIndexClosed(k);
  }

  /** A slot below three quarters of the sample count lands inside the buffer, whether
      or not the sample count is a multiple of four. */
  lemma {:induction false} SlotWithinSamples(k: nat, len: nat)
    requires 4 * k < 3 * len
    ensures SlotIndex(k) < len
  {
    SlotIndexClosed(k);
    var q, r := k / 3, k % 3;
    assert k == 3 * q + r;
    assert 3 * SlotIndex(k) == 4 * k - r;
  }
}
