/** Bytes as the codec handles them: JavaScript numbers between 0 and 255 held in a
    Uint8Array or in the Uint8ClampedArray of an ImageData. The bitwise expressions of
    the codec are written here as arithmetic on those numbers, and each one is proved
    equal to the 8-bit operation it stands for. */
module Bytes {

  type Byte = x: int | 0 <= x < 256

  /** 4 to the power i: the weight of bit pair i in a byte. */
  function Pow4(i: nat): (p: nat)
    requires i <= 4
    ensures p > 0
  {
    if i == 0 then 1 else if i == 1 then 4 else if i == 2 then 16 else if i == 3 then 64 else 256
  }

  /** `x & 3`: the two low bits of a sample. */
  function Low2(x: Byte): (p: nat)
    ensures p < 4
  {
    x % 4
  }

  /** `(x & ~3) | p`: a sample with its two low bits replaced by p. */
  function Embed(x: Byte, p: nat): (r: Byte)
    requires p < 4
    ensures Low2(r) == p
    ensures r / 4 == x / 4
  {
    x - x % 4 + p
  }

  /** `(b >> (i * 2)) & 3`: bit pair i of a byte, low pair first. */
  function Pair(b: Byte, i: nat): (p: nat)
    requires i < 4
    ensures p < 4
  {
    if i == 0 then b % 4 else if i == 1 then b / 4 % 4 else if i == 2 then b / 4 / 4 % 4 else b / 4 / 4 / 4
  }

  /** `acc | (p << (i * 2))` for an accumulator that holds only pairs below i: pair p
      moved up to position i and added in. */
  function OrPair(acc: nat, p: nat, i: nat): (r: nat)
    requires i < 4 && acc < Pow4(i) && p < 4
    ensures acc <= r < Pow4(i + 1)
  {
    if i == 0 then acc + p else if i == 1 then acc + 4 * p else if i == 2 then acc + 16 * p else acc + 64 * p
  }

  /** The four pairs of a byte, put back in their places, give the byte. */
  lemma PairsReassemble(b: Byte)
    ensures Pair(b, 0) + 4 * Pair(b, 1) + 16 * Pair(b, 2) + 64 * Pair(b, 3) == b
  {
  }

  /** A multiple of d strictly between -d and d is zero. */
  lemma SmallMultiple(d: int, k: int)
    requires d > 0 && -d < d * k < d
    ensures k == 0
  {
  }

  /** Division by a positive d of a value given as d * q + r with r below d. */
  lemma DivMod(a: int, d: int, q: int, r: int)
    requires d > 0 && 0 <= r < d && a == d * q + r
    ensures a / d == q && a % d == r
  {
    var q', r' := a / d, a % d;
    assert d * (q - q') == r' - r;
    SmallMultiple(d, q - q');
  }

  /** A byte is four times its value shifted right by two, plus its two low bits. */
  lemma SplitLow(z: bv8)
    ensures z as int == 4 * (z >> 2) as int + (z & 3) as int
    ensures (z & 3) as int < 4
  {
  }

  lemma SplitMid(z: bv8)
    ensures z as int == 16 * (z >> 4) as int + (z & 15) as int
    ensures (z & 15) as int < 16
  {
  }

  lemma SplitHigh(z: bv8)
    ensures z as int == 64 * (z >> 6) as int + (z & 63) as int
    ensures (z & 63) as int < 64
  {
  }

  /** Shifting right by 2 divides by 4, and `& 3` is the remainder by 4. */
  lemma ShiftIsDiv(y: bv8)
    ensures (y >> 2) as int == y as int / 4
    ensures (y & 3) as int == y as int % 4
  {
    SplitLow(y);
    DivMod(y as int, 4, (y >> 2) as int, (y & 3) as int);
  }

  /** Low2 is the decoder's `& 3`. */
  lemma Low2IsAnd(y: bv8)
    ensures (y & 3) as int == Low2(y as int)
  {
    ShiftIsDiv(y);
  }

  /** Embedding p into a sample 4t + u gives 4t + p. */
  lemma EmbedParts(x: Byte, t: int, u: int, p: nat)
    requires 0 <= u < 4 && x == 4 * t + u && p < 4
    ensures Embed(x, p) == 4 * t + p
  {
    DivMod(x, 4, t, u);
  }

  /** Embed is the encoder's `(x & ~3) | p`. */
  lemma EmbedIsBitwise(y: bv8, q: bv8)
    requires q < 4
    ensures ((y & !3) | q) as int == Embed(y as int, q as int)
  {
    var r := (y & !3) | q;
    assert r >> 2 == y >> 2 && r & 3 == q;
    SplitLow(r);
    SplitLow(y);
    EmbedParts(y as int, (y >> 2) as int, (y & 3) as int, q as int);
  }

  /** Pair is the encoder's `(b >> (i * 2)) & 3`. */
  lemma PairIsShift(y: bv8, i: nat)
    requires i < 4
    ensures ((y >> (2 * i)) & 3) as int == Pair(y as int, i)
  {
    var y2, y4, y6 := y >> 2, y >> 4, y >> 6;
    assert y4 == y2 >> 2 && y6 == y4 >> 2;
    ShiftIsDiv(y);
    ShiftIsDiv(y2);
    ShiftIsDiv(y4);
    ShiftIsDiv(y6);
    if i == 3 {
      assert y6 & 3 == y6;
    }
  }

  /** A byte whose value is below 4, 16 or 64 has no bits above position 2, 4 or 6. */
  lemma SmallByte(z: bv8)
    ensures z as int < 4 ==> z >> 2 == 0
    ensures z as int < 16 ==> z >> 4 == 0
    ensures z as int < 64 ==> z >> 6 == 0
  {
    SplitLow(z);
    SplitMid(z);
    SplitHigh(z);
    assert (z >> 2) as int == 0 ==> z >> 2 == 0;
    assert (z >> 4) as int == 0 ==> z >> 4 == 0;
    assert (z >> 6) as int == 0 ==> z >> 6 == 0;
  }

  /** ORing pair q into position 1, 2 or 3 above bits that lie below it adds it. */
  lemma OrAbove(acc: bv8, q: bv8)
    requires q < 4
    ensures acc >> 2 == 0 ==> (acc | (q << 2)) as int == acc as int + 4 * q as int
    ensures acc >> 4 == 0 ==> (acc | (q << 4)) as int == acc as int + 16 * q as int
    ensures acc >> 6 == 0 ==> (acc | (q << 6)) as int == acc as int + 64 * q as int
  {
    var r2, r4, r6 := acc | (q << 2), acc | (q << 4), acc | (q << 6);
    if acc >> 2 == 0 {
      assert r2 >> 2 == q && r2 & 3 == acc;
      SplitLow(r2);
    }
    if acc >> 4 == 0 {
      assert r4 >> 4 == q && r4 & 15 == acc;
      SplitMid(r4);
    }
    if acc >> 6 == 0 {
      assert r6 >> 6 == q && r6 & 63 == acc;
      SplitHigh(r6);
    }
  }

  /** OrPair is the decoder's `acc | (p << (i * 2))` while acc holds only the pairs
      below i. */
  lemma OrPairIsBitwise(acc: bv8, q: bv8, i: nat)
    requires i < 4 && acc as int < Pow4(i) && q < 4
    ensures (acc | (q << (2 * i))) as int == OrPair(acc as int, q as int, i)
  {
    SmallByte(acc);
    OrAbove(acc, q);
    if i == 0 {
      assert acc == 0;
    }
  }
}
