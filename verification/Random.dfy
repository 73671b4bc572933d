/** The linear feedback shift registers of random.h. */
module Random {
  import opened Iteration

  const TAPS_32: bv32 := 0x80200003
  const TAPS_64: bv64 := 0xd800000000000000

  // ----- the 32-bit register

  /** lfsr_next: the taps are masked by minus the low bit. */
  function Next32(x: bv32): bv32 {
    (x >> 1) ^ ((0 - (x & 1)) & TAPS_32)
  }

  /** Undo one step: the top tap is set, so the top bit tells whether the taps were applied. */
  function Prev32(y: bv32): bv32 {
    if y & 0x80000000 != 0 then ((y ^ TAPS_32) << 1) | 1 else y << 1
  }

  lemma LowBit32(x: bv32)
    ensures x & 1 == 0 || x & 1 == 1
  {
  }

  lemma TopBit32(x: bv32)
    ensures x & 0x80000000 == 0 || x & 0x80000000 == 0x80000000
  {
  }

  lemma PrevOdd32(x: bv32, y: bv32)
    requires x & 1 == 1 && y == (x >> 1) ^ 0x80200003
    ensures Prev32(y) == x
  {
  }

  lemma PrevEven32(x: bv32, y: bv32)
    requires x & 1 == 0 && y == x >> 1
    ensures Prev32(y) == x
  {
  }

  lemma NextHigh32(x: bv32, y: bv32)
    requires y & 0x80000000 == 0x80000000 && x == ((y ^ 0x80200003) << 1) | 1
    ensures Next32(x) == y
  {
  }

  lemma NextLow32(x: bv32, y: bv32)
    requires y & 0x80000000 == 0 && x == y << 1
    ensures Next32(x) == y
  {
  }

  lemma NextOdd32(x: bv32)
    requires x & 1 == 1
    ensures Next32(x) == (x >> 1) ^ 0x80200003
  {
  }

  lemma NextEven32(x: bv32)
    requires x & 1 == 0
    ensures Next32(x) == x >> 1
  {
  }

  lemma PrevOfNext32(x: bv32)
    ensures Prev32(Next32(x)) == x
  {
    LowBit32(x);
    if x & 1 == 0 {
      NextEven32(x);
      PrevEven32(x, Next32(x));
    } else {
      NextOdd32(x);
      PrevOdd32(x, Next32(x));
    }
  }

  lemma NextOfPrev32(y: bv32)
    ensures Next32(Prev32(y)) == y
  {
    TopBit32(y);
    if y & 0x80000000 == 0 {
      NextLow32(Prev32(y), y);
    } else {
      NextHigh32(Prev32(y), y);
    }
  }

  // ----- the 64-bit register

  /** lfsr_next: the taps are masked by minus the low bit. */
  function Next64(x: bv64): bv64 {
    (x >> 1) ^ ((0 - (x & 1)) & TAPS_64)
  }

  /** Undo one step: the top tap is set, so the top bit tells whether the taps were applied. */
  function Prev64(y: bv64): bv64 {
    if y & 0x8000000000000000 != 0 then ((y ^ TAPS_64) << 1) | 1 else y << 1
  }

  lemma LowBit64(x: bv64)
    ensures x & 1 == 0 || x & 1 == 1
  {
  }

  lemma TopBit64(x: bv64)
    ensures x & 0x8000000000000000 == 0 || x & 0x8000000000000000 == 0x8000000000000000
  {
  }

  lemma PrevOdd64(x: bv64, y: bv64)
    requires x & 1 == 1 && y == (x >> 1) ^ 0xd800000000000000
    ensures Prev64(y) == x
  {
  }

  lemma PrevEven64(x: bv64, y: bv64)
    requires x & 1 == 0 && y == x >> 1
    ensures Prev64(y) == x
  {
  }

  lemma NextHigh64(x: bv64, y: bv64)
    requires y & 0x8000000000000000 == 0x8000000000000000 && x == ((y ^ 0xd800000000000000) << 1) | 1
    ensures Next64(x) == y
  {
  }

  lemma NextLow64(x: bv64, y: bv64)
    requires y & 0x8000000000000000 == 0 && x == y << 1
    ensures Next64(x) == y
  {
  }

  lemma NextOdd64(x: bv64)
    requires x & 1 == 1
    ensures Next64(x) == (x >> 1) ^ 0xd800000000000000
  {
  }

  lemma NextEven64(x: bv64)
    requires x & 1 == 0
    ensures Next64(x) == x >> 1
  {
  }

  lemma PrevOfNext64(x: bv64)
    ensures Prev64(Next64(x)) == x
  {
    LowBit64(x);
    if x & 1 == 0 {
      NextEven64(x);
      PrevEven64(x, Next64(x));
    } else {
      NextOdd64(x);
      PrevOdd64(x, Next64(x));
    }
  }

  lemma NextOfPrev64(y: bv64)
    ensures Next64(Prev64(y)) == y
  {
    TopBit64(y);
    if y & 0x8000000000000000 == 0 {
      NextLow64(Prev64(y), y);
    } else {
      NextHigh64(Prev64(y), y);
    }
  }

  // ----- streams

  /** The state after k draws with a step; lfsrandom32 and lfsrandom64 return each new state. */
  function Draw<T>(next: T -> T, seed: T, k: nat): T {
    Iterate(next, seed, k)
  }

  ghost predicate Invertible<T(!new)>(next: T -> T, prev: T -> T) {
    forall x :: prev(next(x)) == x && next(prev(x)) == x
  }

  /** Both registers step through a bijection: no state has two successors or none. */
  lemma StepsAreBijections()
    ensures Invertible(Next32, Prev32) && Invertible(Next64, Prev64)
  {
    forall x: bv32
      ensures Prev32(Next32(x)) == x && Next32(Prev32(x)) == x
    {
      PrevOfNext32(x);
      NextOfPrev32(x);
    }
    forall x: bv64
      ensures Prev64(Next64(x)) == x && Next64(Prev64(x)) == x
    {
      PrevOfNext64(x);
      NextOfPrev64(x);
    }
  }

  /** No tail: when a state recurs in a stream, the seed recurs as often apart. */
  lemma {:induction false} PurelyPeriodic<T(!new)>(next: T -> T, prev: T -> T, seed: T, i: nat, j: nat)
    requires Invertible(next, prev) && i <= j && Draw(next, seed, i) == Draw(next, seed, j)
    ensures Draw(next, seed, j - i) == seed
  {
    if i > 0 {
      assert prev(next(Draw(next, seed, i - 1))) == Draw(next, seed, i - 1);
      assert prev(next(Draw(next, seed, j - 1))) == Draw(next, seed, j - 1);
      PurelyPeriodic(next, prev, seed, i - 1, j - 1);
    }
  }

  /** A fixed point is never entered or left. */
  lemma {:induction false} FixedPointApart<T(!new)>(next: T -> T, prev: T -> T, z: T, seed: T, k: nat)
    requires Invertible(next, prev) && next(z) == z
    ensures Draw(next, seed, k) == z <==> seed == z
  {
    if k > 0 {
      FixedPointApart(next, prev, z, seed, k - 1);
      assert prev(next(Draw(next, seed, k - 1))) == Draw(next, seed, k - 1) && prev(next(z)) == z;
    }
  }

  /** A stream of lfsrandom32 or lfsrandom64 contains zero exactly when its seed is zero, and then
      nothing else. */
  lemma ZeroIffSeedZero(seed: bv32, seed': bv64, k: nat)
    ensures Draw(Next32, seed, k) == 0 <==> seed == 0
    ensures Draw(Next64, seed', k) == 0 <==> seed' == 0
  {
    StepsAreBijections();
    NextEven32(0);
    NextEven64(0);
    FixedPointApart(Next32, Prev32, 0, seed, k);
    FixedPointApart(Next64, Prev64, 0, seed', k);
  }
}
