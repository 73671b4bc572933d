/**
 The 32-bit register of random.h has the longest period a register of its width can have.  Its powers are
 computed on the register itself, up to the power 2^32 - 1, which is the identity; and no quotient of
 that number by a prime factor gives a power that fixes anything but zero.
 */
module Register32 {
  import opened Iteration
  import opened Primes
  import opened Random
  import opened LinearRegisters

  function Plus(x: bv32, y: bv32): bv32 { x ^ y }
  function Left(x: bv32): bv32 { x << 1 }

  /** A state of the register.  Wrapped, so that the algebra below is not done bit by bit. */
  datatype Word = Word(bits: bv32)

  function Step(x: Word): Word { Word(Next32(x.bits)) }
  function Xor(x: Word, y: Word): Word { Word(Plus(x.bits, y.bits)) }
  function Shift(x: Word): Word { Word(Left(x.bits)) }
  predicate IsTop(x: Word) { x.bits & 0x80000000 != 0 }

  const UNIT := Word(0x80000000)

  function Lfsr(): Register<Word> {
    Register(Step, Xor, Word(0), IsTop, Shift)
  }

  // ----- the laws of the register

  lemma NextOfXor(x: bv32, y: bv32)
    ensures Next32(x ^ y) == Next32(x) ^ Next32(y)
  {
    LowBit32(x);
    LowBit32(y);
  }

  lemma NextAdds(x: bv32, y: bv32)
    ensures Next32(Plus(x, y)) == Plus(Next32(x), Next32(y))
  {
    NextOfXor(x, y);
  }

  lemma PlusLeft(x: bv32, y: bv32, z: bv32)
    ensures Plus(Plus(x, y), z) == x ^ y ^ z
  {
  }

  lemma PlusRight(x: bv32, y: bv32, z: bv32)
    ensures Plus(x, Plus(y, z)) == x ^ y ^ z
  {
  }

  lemma PlusAssociates(x: bv32, y: bv32, z: bv32)
    ensures Plus(Plus(x, y), z) == Plus(x, Plus(y, z))
  {
    PlusLeft(x, y, z);
    PlusRight(x, y, z);
  }

  lemma Associative(x: Word, y: Word, z: Word)
    ensures Xor(Xor(x, y), z) == Xor(x, Xor(y, z))
  {
    PlusAssociates(x.bits, y.bits, z.bits);
  }

  lemma XorLaws(x: Word, y: Word)
    ensures Xor(x, y) == Xor(y, x) && Xor(x, x) == Word(0) && Xor(x, Word(0)) == x
  {
  }

  lemma StepAdds(x: Word, y: Word)
    ensures Step(Xor(x, y)) == Xor(Step(x), Step(y))
  {
    NextAdds(x.bits, y.bits);
  }

  lemma LawsHold(x: Word, y: Word, z: Word)
    ensures Laws(Lfsr(), x, y, z)
  {
    Associative(x, y, z);
    XorLaws(x, y);
    StepAdds(x, y);
  }

  lemma IsLinear()
    ensures Linear(Lfsr())
  {
    NextEven32(0);
    forall x, y, z
      ensures Laws(Lfsr(), x, y, z)
    {
      LawsHold(x, y, z);
    }
  }

  lemma DropTop(a: bv32)
    ensures Left(a) & 1 == 0 && (a & 0x80000000) ^ (Left(a) >> 1) == a
  {
  }

  lemma TopFirst(a: bv32)
    ensures Plus(if a & 0x80000000 != 0 then 0x80000000 else 0, Next32(Left(a))) == a
  {
    TopBit32(a);
    DropTop(a);
    NextEven32(Left(a));
  }

  lemma TopAndRest(a: Word)
    ensures Xor(if IsTop(a) then UNIT else Word(0), Step(Shift(a))) == a
  {
    TopFirst(a.bits);
  }

  lemma IsHorner()
    ensures Horner(Lfsr(), UNIT)
  {
    forall a: Word
      ensures Lfsr().add(Scale(Lfsr(), Lfsr().top(a), UNIT), Lfsr().next(Lfsr().shift(a))) == a
    {
      TopAndRest(a);
    }
  }

  // ----- products of powers on the bits, unfolded for constants

  function Left1(a: bv32): bv32 { a << 1 }

  function Pick(a: bv32, b: bv32): bv32 { if a & 0x80000000 != 0 then b else 0 }

  lemma PickIs(a: bv32, b: bv32)
    ensures Multiply(Lfsr(), 0, Word(a), Word(b)) == Word(Pick(a, b))
    ensures Repeat(Shift, 0, Word(a)) == Word(Left1(a)) && Repeat(Step, 0, Word(b)) == Word(Next32(b))
  {
  }

  function Two(a: bv32, b: bv32): bv32 { Plus(Pick(a, b), Pick(a << 1, Next32(b))) }
  function Left2(a: bv32): bv32 { a << 2 }
  function Jump2(b: bv32): bv32 { Next32(Next32(b)) }

  lemma Lefts2(a: bv32)
    ensures Left1(Left1(a)) == Left2(a)
  {
  }

  lemma TwoIs(a: bv32, b: bv32)
    ensures Multiply(Lfsr(), 1, Word(a), Word(b)) == Word(Two(a, b))
    ensures Repeat(Shift, 1, Word(a)) == Word(Left2(a)) && Repeat(Step, 1, Word(b)) == Word(Jump2(b))
  {
    var c, d := Left1(a), Next32(b);
    PickIs(a, b);
    PickIs(c, d);
    Lefts2(a);
    assert Two(a, b) == Plus(Pick(a, b), Pick(c, d));
  }

  function Four(a: bv32, b: bv32): bv32 { Plus(Two(a, b), Two(a << 2, Jump2(b))) }
  function Left4(a: bv32): bv32 { a << 4 }
  function Jump4(b: bv32): bv32 { Jump2(Jump2(b)) }

  lemma Lefts4(a: bv32)
    ensures Left2(Left2(a)) == Left4(a)
  {
  }

  lemma FourIs(a: bv32, b: bv32)
    ensures Multiply(Lfsr(), 2, Word(a), Word(b)) == Word(Four(a, b))
    ensures Repeat(Shift, 2, Word(a)) == Word(Left4(a)) && Repeat(Step, 2, Word(b)) == Word(Jump4(b))
  {
    var c, d := Left2(a), Jump2(b);
    TwoIs(a, b);
    TwoIs(c, d);
    Lefts4(a);
    assert Four(a, b) == Plus(Two(a, b), Two(c, d));
  }

  function Eight(a: bv32, b: bv32): bv32 { Plus(Four(a, b), Four(a << 4, Jump4(b))) }
  function Left8(a: bv32): bv32 { a << 8 }
  function Jump8(b: bv32): bv32 { Jump4(Jump4(b)) }

  lemma Lefts8(a: bv32)
    ensures Left4(Left4(a)) == Left8(a)
  {
  }

  lemma EightIs(a: bv32, b: bv32)
    ensures Multiply(Lfsr(), 3, Word(a), Word(b)) == Word(Eight(a, b))
    ensures Repeat(Shift, 3, Word(a)) == Word(Left8(a)) && Repeat(Step, 3, Word(b)) == Word(Jump8(b))
  {
    var c, d := Left4(a), Jump4(b);
    FourIs(a, b);
    FourIs(c, d);
    Lefts8(a);
    assert Eight(a, b) == Plus(Four(a, b), Four(c, d));
  }

  function Sixteen(a: bv32, b: bv32): bv32 { Plus(Eight(a, b), Eight(a << 8, Jump8(b))) }
  function Left16(a: bv32): bv32 { a << 16 }
  function Jump16(b: bv32): bv32 { Jump8(Jump8(b)) }

  lemma Lefts16(a: bv32)
    ensures Left8(Left8(a)) == Left16(a)
  {
  }

  lemma SixteenIs(a: bv32, b: bv32)
    ensures Multiply(Lfsr(), 4, Word(a), Word(b)) == Word(Sixteen(a, b))
    ensures Repeat(Shift, 4, Word(a)) == Word(Left16(a)) && Repeat(Step, 4, Word(b)) == Word(Jump16(b))
  {
    var c, d := Left8(a), Jump8(b);
    EightIs(a, b);
    EightIs(c, d);
    Lefts16(a);
    assert Sixteen(a, b) == Plus(Eight(a, b), Eight(c, d));
  }

  function Mul(a: bv32, b: bv32): bv32 { Plus(Sixteen(a, b), Sixteen(a << 16, Jump16(b))) }
  function Left32(a: bv32): bv32 { 0 }
  function Jump32(b: bv32): bv32 { Jump16(Jump16(b)) }

  lemma Lefts32(a: bv32)
    ensures Left16(Left16(a)) == Left32(a)
  {
  }

  lemma MulIs(a: bv32, b: bv32)
    ensures Multiply(Lfsr(), 5, Word(a), Word(b)) == Word(Mul(a, b))
    ensures Repeat(Shift, 5, Word(a)) == Word(Left32(a)) && Repeat(Step, 5, Word(b)) == Word(Jump32(b))
  {
    var c, d := Left16(a), Jump16(b);
    SixteenIs(a, b);
    SixteenIs(c, d);
    Lefts32(a);
    assert Mul(a, b) == Plus(Sixteen(a, b), Sixteen(c, d));
  }

  lemma IsCyclic(l: nat)
    requires l == 5
    ensures Cyclic(Lfsr(), UNIT, l)
  {
    IsLinear();
    IsHorner();
    forall a: Word
      ensures Repeat(Lfsr().shift, l, a) == Lfsr().zero
    {
      MulIs(a.bits, a.bits);
    }
    CyclicWhen(Lfsr(), UNIT, l);
  }

  // ----- powers of the step

  /** k steps after the unit the register holds p. */
  ghost predicate At(k: nat, p: bv32) {
    Pow(Lfsr(), UNIT, k, Word(p))
  }

  lemma Multiplied(j: nat, p: bv32, k: nat, q: bv32, r: bv32)
    requires At(j, p) && At(k, q) && Mul(p, q) == r
    ensures At(j + k, r)
  {
    IsCyclic(5);
    MulIs(p, q);
    ProductPower(Lfsr(), UNIT, 5, j, Word(p), k, Word(q));
  }

  lemma Stepped(k: nat, p: bv32)
    requires At(k, p)
    ensures At(k + 1, Next32(p))
  {
    NextPower(Lfsr(), UNIT, k, Word(p));
  }

  function Back(x: Word): Word { Word(Prev32(x.bits)) }

  lemma BackUndoes()
    ensures Undoes(Lfsr(), Back)
  {
    forall x: Word
      ensures Back(Lfsr().next(x)) == x
    {
      PrevOfNext32(x.bits);
    }
  }

  lemma Divided(j: nat, r: bv32, k: nat, q: bv32, p: bv32)
    requires At(j + k, p) && At(k, q) && Mul(r, q) == p
    ensures At(j, r)
  {
    IsCyclic(5);
    BackUndoes();
    MulIs(r, q);
    QuotientPower(Lfsr(), UNIT, 5, Back, j, Word(r), k, Word(q));
  }

  /** The k-th power plus one has the inverse u. */
  lemma Inverted(k: nat, p: bv32, u: bv32)
    requires At(k, p) && Mul(u, Plus(p, UNIT.bits)) == UNIT.bits
    ensures Moves(Lfsr(), UNIT, 5, k)
  {
    InverseIs(p, u);
    assert Pow(Lfsr(), UNIT, k, Word(p));
  }

  lemma InverseIs(p: bv32, u: bv32)
    requires Mul(u, Plus(p, UNIT.bits)) == UNIT.bits
    ensures Multiply(Lfsr(), 5, Word(u), Lfsr().add(Word(p), UNIT)) == UNIT
  {
    MulIs(u, Plus(p, UNIT.bits));
  }

  lemma {:induction false} SameStream(s: bv32, k: nat)
    ensures Iterate(Lfsr().next, Word(s), k) == Word(Draw(Next32, s, k))
  {
    if k > 0 {
      SameStream(s, k - 1);
    }
  }


  // ----- the powers that decide the period

  // Each from earlier ones: up to the whole period, and down to its quotients by the prime factors.

  lemma P0()
    ensures At(1, 0x40000000)
  {
    FirstPower(Lfsr(), UNIT);
  }

  lemma P1()
    ensures At(0x2, 0x20000000)
  {
    P0();
    Multiplied(0x1, 0x40000000, 0x1, 0x40000000, 0x20000000);
  }

  lemma P2()
    ensures At(0x4, 0x08000000)
  {
    P1();
    Multiplied(0x2, 0x20000000, 0x2, 0x20000000, 0x08000000);
  }

  lemma P3()
    ensures At(0x8, 0x00800000)
  {
    P2();
    Multiplied(0x4, 0x08000000, 0x4, 0x08000000, 0x00800000);
  }

  lemma P4()
    ensures At(0x10, 0x00008000)
  {
    P3();
    Multiplied(0x8, 0x00800000, 0x8, 0x00800000, 0x00008000);
  }

  lemma P5()
    ensures At(0x20, 0x80200003)
  {
    P4();
    Multiplied(0x10, 0x00008000, 0x10, 0x00008000, 0x80200003);
  }

  lemma P6()
    ensures At(0x40, 0xc5279ed9)
  {
    P5();
    Multiplied(0x20, 0x80200003, 0x20, 0x80200003, 0xc5279ed9);
  }

  lemma P7()
    ensures At(0x80, 0xa241c6c9)
  {
    P6();
    Multiplied(0x40, 0xc5279ed9, 0x40, 0xc5279ed9, 0xa241c6c9);
  }

  lemma P8()
    ensures At(0x100, 0x6abe638e)
  {
    P7();
    Multiplied(0x80, 0xa241c6c9, 0x80, 0xa241c6c9, 0x6abe638e);
  }

  lemma P9()
    ensures At(0x200, 0x92a58a73)
  {
    P8();
    Multiplied(0x100, 0x6abe638e, 0x100, 0x6abe638e, 0x92a58a73);
  }

  lemma P10()
    ensures At(0x400, 0x1c41c6fa)
  {
    P9();
    Multiplied(0x200, 0x92a58a73, 0x200, 0x92a58a73, 0x1c41c6fa);
  }

  lemma P11()
    ensures At(0x800, 0x93e72d8c)
  {
    P10();
    Multiplied(0x400, 0x1c41c6fa, 0x400, 0x1c41c6fa, 0x93e72d8c);
  }

  lemma P12()
    ensures At(0x1000, 0x097e4b44)
  {
    P11();
    Multiplied(0x800, 0x93e72d8c, 0x800, 0x93e72d8c, 0x097e4b44);
  }

  lemma P13()
    ensures At(0x2000, 0x2508f126)
  {
    P12();
    Multiplied(0x1000, 0x097e4b44, 0x1000, 0x097e4b44, 0x2508f126);
  }

  lemma P14()
    ensures At(0x4000, 0x92df03d6)
  {
    P13();
    Multiplied(0x2000, 0x2508f126, 0x2000, 0x2508f126, 0x92df03d6);
  }

  lemma P15()
    ensures At(0x8000, 0x7b58c29e)
  {
    P14();
    Multiplied(0x4000, 0x92df03d6, 0x4000, 0x92df03d6, 0x7b58c29e);
  }

  lemma P16()
    ensures At(0x10000, 0xfe6722b7)
    ensures At(0x10001, 0xff139158)
  {
    P15();
    Multiplied(0x8000, 0x7b58c29e, 0x8000, 0x7b58c29e, 0xfe6722b7);
    Stepped(0x10000, 0xfe6722b7);
  }

  lemma P17()
    ensures At(0x20002, 0x0a598f67)
  {
    P16();
    Multiplied(0x10001, 0xff139158, 0x10001, 0xff139158, 0x0a598f67);
  }

  lemma P18()
    ensures At(0x40004, 0x36e60262)
  {
    P17();
    Multiplied(0x20002, 0x0a598f67, 0x20002, 0x0a598f67, 0x36e60262);
  }

  lemma P19()
    ensures At(0x80008, 0x36ff90f3)
  {
    P18();
    Multiplied(0x40004, 0x36e60262, 0x40004, 0x36e60262, 0x36ff90f3);
  }

  lemma P20()
    ensures At(0x100010, 0x2279e911)
  {
    P19();
    Multiplied(0x80008, 0x36ff90f3, 0x80008, 0x36ff90f3, 0x2279e911);
  }

  lemma P21()
    ensures At(0x200020, 0x7f153103)
  {
    P20();
    Multiplied(0x100010, 0x2279e911, 0x100010, 0x2279e911, 0x7f153103);
  }

  lemma P22()
    ensures At(0x400040, 0x6c3b797b)
  {
    P21();
    Multiplied(0x200020, 0x7f153103, 0x200020, 0x7f153103, 0x6c3b797b);
  }

  lemma P23()
    ensures At(0x800080, 0xf54cc488)
  {
    P22();
    Multiplied(0x400040, 0x6c3b797b, 0x400040, 0x6c3b797b, 0xf54cc488);
  }

  lemma P24()
    ensures At(0x1000100, 0x5cc97899)
  {
    P23();
    Multiplied(0x800080, 0xf54cc488, 0x800080, 0xf54cc488, 0x5cc97899);
  }

  lemma P25()
    ensures At(0x1010101, 0x518c1b99)
  {
    P24();
    P16();
    Multiplied(0x1000100, 0x5cc97899, 0x10001, 0xff139158, 0x518c1b99);
  }

  lemma P26()
    ensures At(0xff00ff, 0x35eb4869)
  {
    P24();
    P16();
    Divided(0xff00ff, 0x35eb4869, 0x10001, 0xff139158, 0x5cc97899);
  }

  lemma P27()
    ensures At(0x2020202, 0xa04c2d18)
  {
    P25();
    Multiplied(0x1010101, 0x518c1b99, 0x1010101, 0x518c1b99, 0xa04c2d18);
  }

  lemma P28()
    ensures At(0x4040404, 0xc6f34317)
  {
    P27();
    Multiplied(0x2020202, 0xa04c2d18, 0x2020202, 0xa04c2d18, 0xc6f34317);
  }

  lemma P29()
    ensures At(0x8080808, 0x40933ceb)
  {
    P28();
    Multiplied(0x4040404, 0xc6f34317, 0x4040404, 0xc6f34317, 0x40933ceb);
  }

  lemma P30()
    ensures At(0x10101010, 0xab2fcf84)
  {
    P29();
    Multiplied(0x8080808, 0x40933ceb, 0x8080808, 0x40933ceb, 0xab2fcf84);
  }

  lemma P31()
    ensures At(0x11111111, 0xbb97ab84)
  {
    P30();
    P25();
    Multiplied(0x10101010, 0xab2fcf84, 0x1010101, 0x518c1b99, 0xbb97ab84);
  }

  lemma P32()
    ensures At(0xf0f0f0f, 0x8f321acb)
  {
    P30();
    P25();
    Divided(0xf0f0f0f, 0x8f321acb, 0x1010101, 0x518c1b99, 0xab2fcf84);
  }

  lemma P33()
    ensures At(0x22222222, 0xfaa3d41d)
  {
    P31();
    Multiplied(0x11111111, 0xbb97ab84, 0x11111111, 0xbb97ab84, 0xfaa3d41d);
  }

  lemma P34()
    ensures At(0x44444444, 0x3b97ab84)
  {
    P33();
    Multiplied(0x22222222, 0xfaa3d41d, 0x22222222, 0xfaa3d41d, 0x3b97ab84);
  }

  lemma P35()
    ensures At(0x55555555, 0x41347f99)
  {
    P34();
    P31();
    Multiplied(0x44444444, 0x3b97ab84, 0x11111111, 0xbb97ab84, 0x41347f99);
  }

  lemma P36()
    ensures At(0x33333333, 0xf7a0497d)
  {
    P34();
    P31();
    Divided(0x33333333, 0xf7a0497d, 0x11111111, 0xbb97ab84, 0x3b97ab84);
  }

  lemma P37()
    ensures At(0xaaaaaaaa, 0xc1347f99)
  {
    P35();
    Multiplied(0x55555555, 0x41347f99, 0x55555555, 0x41347f99, 0xc1347f99);
  }

  lemma P38()
    ensures At(0xffffffff, 0x80000000)
  {
    P37();
    P35();
    Multiplied(0xaaaaaaaa, 0xc1347f99, 0x55555555, 0x41347f99, 0x80000000);
  }

  lemma P39()
    ensures At(0xffff, 0xfc8e4569)
  {
    P16();
    P0();
    Divided(0xffff, 0xfc8e4569, 0x1, 0x40000000, 0xfe6722b7);
  }

  // For each prime factor: the power of the period divided by it, plus one, is invertible.

  lemma Third(k: nat)
    requires k == 0x55555555
    ensures Moves(Lfsr(), UNIT, 5, k)
  {
    P35();
    Inverted(k, 0x41347f99, 0x41347f99);
  }

  lemma Fifth(k: nat)
    requires k == 0x33333333
    ensures Moves(Lfsr(), UNIT, 5, k)
  {
    P36();
    Inverted(k, 0xf7a0497d, 0xbb97ab84);
  }

  lemma Part17(k: nat)
    requires k == 0xf0f0f0f
    ensures Moves(Lfsr(), UNIT, 5, k)
  {
    P32();
    Inverted(k, 0x8f321acb, 0x2ce8f30a);
  }

  lemma Part257(k: nat)
    requires k == 0xff00ff
    ensures Moves(Lfsr(), UNIT, 5, k)
  {
    P26();
    Inverted(k, 0x35eb4869, 0xee51ab6f);
  }

  lemma Part65537(k: nat)
    requires k == 0xffff
    ensures Moves(Lfsr(), UNIT, 5, k)
  {
    P39();
    Inverted(k, 0xfc8e4569, 0x74fdbc86);
  }

  // ----- the period

  /** The prime factors of 2^32 - 1. */
  const FACTORS: seq<nat> := [3, 5, 17, 257, 65537]

  lemma FactorsProduct()
    ensures Product(FACTORS) == 0xffffffff
  {
    assert FACTORS[0..][0] == 3 && FACTORS[0..][1..] == FACTORS[1..];
    assert FACTORS[1..][0] == 5 && FACTORS[1..][1..] == FACTORS[2..];
    assert FACTORS[2..][0] == 17 && FACTORS[2..][1..] == FACTORS[3..];
    assert FACTORS[3..][0] == 257 && FACTORS[3..][1..] == FACTORS[4..];
    assert FACTORS[4..][0] == 65537 && FACTORS[4..][1..] == FACTORS[5..];
    assert Product(FACTORS[5..]) == 1;
    assert FACTORS[0..] == FACTORS;
  }

  lemma FactorDecides(p: nat, k: nat)
    requires p in FACTORS && k == 0xffffffff / p
    ensures Prime(p) && Moves(Lfsr(), UNIT, 5, k)
  {
    if p == 3 {
      Small(p);
      Third(k);
    } else if p == 5 {
      Small(p);
      Fifth(k);
    } else if p == 17 {
      Small(p);
      Part17(k);
    } else if p == 257 {
      Prime257();
      Part257(k);
    } else if p == 65537 {
      Prime65537();
      Part65537(k);
    }
  }

  /** A non-zero seed is back exactly after the multiples of 2^32 - 1 steps. */
  lemma SeedReturns(seed: bv32, k: nat)
    requires seed != 0
    ensures Draw(Next32, seed, k) == seed <==> k % 0xffffffff == 0
  {
    var l, n := 5, Product(FACTORS);
    IsCyclic(l);
    FactorsProduct();
    P38();
    forall p | p in FACTORS
      ensures Prime(p) && Moves(Lfsr(), UNIT, l, n / p)
    {
      FactorDecides(p, n / p);
    }
    CommonPeriod(Lfsr(), UNIT, l, FACTORS, Word(seed), k);
    SameStream(seed, k);
  }

  /** lfsrandom32 has the maximal period: two draws from a non-zero seed are equal exactly when a
      multiple of 2^32 - 1 draws lies between them. */
  lemma MaximalPeriod(seed: bv32, i: nat, j: nat)
    requires seed != 0 && i <= j
    ensures Draw(Next32, seed, i) == Draw(Next32, seed, j) <==> (j - i) % 0xffffffff == 0
  {
    ZeroIffSeedZero(seed, 1, i);
    IterateAdd(Next32, seed, i, j - i);
    SeedReturns(Draw(Next32, seed, i), j - i);
  }
}
