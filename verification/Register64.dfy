/**
 The 64-bit register of random.h has the longest period a register of its width can have.  Its powers are
 computed on the register itself, up to the power 2^64 - 1, which is the identity; and no quotient of
 that number by a prime factor gives a power that fixes anything but zero.
 */
module Register64 {
  import opened Iteration
  import opened Primes
  import opened Random
  import opened LinearRegisters

  function Plus(x: bv64, y: bv64): bv64 { x ^ y }
  function Left(x: bv64): bv64 { x << 1 }

  /** A state of the register.  Wrapped, so that the algebra below is not done bit by bit. */
  datatype Word = Word(bits: bv64)

  function Step(x: Word): Word { Word(Next64(x.bits)) }
  function Xor(x: Word, y: Word): Word { Word(Plus(x.bits, y.bits)) }
  function Shift(x: Word): Word { Word(Left(x.bits)) }
  predicate IsTop(x: Word) { x.bits & 0x8000000000000000 != 0 }

  const UNIT := Word(0x8000000000000000)

  function Lfsr(): Register<Word> {
    Register(Step, Xor, Word(0), IsTop, Shift)
  }

  // ----- the laws of the register

  lemma NextOfXor(x: bv64, y: bv64)
    ensures Next64(x ^ y) == Next64(x) ^ Next64(y)
  {
    LowBit64(x);
    LowBit64(y);
  }

  lemma NextAdds(x: bv64, y: bv64)
    ensures Next64(Plus(x, y)) == Plus(Next64(x), Next64(y))
  {
    NextOfXor(x, y);
  }

  lemma PlusLeft(x: bv64, y: bv64, z: bv64)
    ensures Plus(Plus(x, y), z) == x ^ y ^ z
  {
  }

  lemma PlusRight(x: bv64, y: bv64, z: bv64)
    ensures Plus(x, Plus(y, z)) == x ^ y ^ z
  {
  }

  lemma PlusAssociates(x: bv64, y: bv64, z: bv64)
    ensures Plus(Plus(x, y), z) == Plus(x, Plus(y, z))
  {
    PlusLeft(x, y, z);
    PlusRight(x, y, z);
  }

  lemma Associative(x: Word, y: Word, z: Word)
    ensures Xor(Xor(x, y), z) == Xor(x, Xor(y, z))
  {
    PlusAssociates(x.bits, y.bits, z.bits);
  }

  lemma XorLaws(x: Word, y: Word)
    ensures Xor(x, y) == Xor(y, x) && Xor(x, x) == Word(0) && Xor(x, Word(0)) == x
  {
  }

  lemma StepAdds(x: Word, y: Word)
    ensures Step(Xor(x, y)) == Xor(Step(x), Step(y))
  {
    NextAdds(x.bits, y.bits);
  }

  lemma LawsHold(x: Word, y: Word, z: Word)
    ensures Laws(Lfsr(), x, y, z)
  {
    Associative(x, y, z);
    XorLaws(x, y);
    StepAdds(x, y);
  }

  lemma IsLinear()
    ensures Linear(Lfsr())
  {
    NextEven64(0);
    forall x, y, z
      ensures Laws(Lfsr(), x, y, z)
    {
      LawsHold(x, y, z);
    }
  }

  lemma DropTop(a: bv64)
    ensures Left(a) & 1 == 0 && (a & 0x8000000000000000) ^ (Left(a) >> 1) == a
  {
  }

  lemma TopFirst(a: bv64)
    ensures Plus(if a & 0x8000000000000000 != 0 then 0x8000000000000000 else 0, Next64(Left(a))) == a
  {
    TopBit64(a);
    DropTop(a);
    NextEven64(Left(a));
  }

  lemma TopAndRest(a: Word)
    ensures Xor(if IsTop(a) then UNIT else Word(0), Step(Shift(a))) == a
  {
    TopFirst(a.bits);
  }

  lemma IsHorner()
    ensures Horner(Lfsr(), UNIT)
  {
    forall a: Word
      ensures Lfsr().add(Scale(Lfsr(), Lfsr().top(a), UNIT), Lfsr().next(Lfsr().shift(a))) == a
    {
      TopAndRest(a);
    }
  }

  // ----- products of powers on the bits, unfolded for constants

  function Left1(a: bv64): bv64 { a << 1 }

  function Pick(a: bv64, b: bv64): bv64 { if a & 0x8000000000000000 != 0 then b else 0 }

  lemma PickIs(a: bv64, b: bv64)
    ensures Multiply(Lfsr(), 0, Word(a), Word(b)) == Word(Pick(a, b))
    ensures Repeat(Shift, 0, Word(a)) == Word(Left1(a)) && Repeat(Step, 0, Word(b)) == Word(Next64(b))
  {
  }

  function Two(a: bv64, b: bv64): bv64 { Plus(Pick(a, b), Pick(a << 1, Next64(b))) }
  function Left2(a: bv64): bv64 { a << 2 }
  function Jump2(b: bv64): bv64 { Next64(Next64(b)) }

  lemma Lefts2(a: bv64)
    ensures Left1(Left1(a)) == Left2(a)
  {
  }

  lemma TwoIs(a: bv64, b: bv64)
    ensures Multiply(Lfsr(), 1, Word(a), Word(b)) == Word(Two(a, b))
    ensures Repeat(Shift, 1, Word(a)) == Word(Left2(a)) && Repeat(Step, 1, Word(b)) == Word(Jump2(b))
  {
    var c, d := Left1(a), Next64(b);
    PickIs(a, b);
    PickIs(c, d);
    Lefts2(a);
    assert Two(a, b) == Plus(Pick(a, b), Pick(c, d));
  }

  function Four(a: bv64, b: bv64): bv64 { Plus(Two(a, b), Two(a << 2, Jump2(b))) }
  function Left4(a: bv64): bv64 { a << 4 }
  function Jump4(b: bv64): bv64 { Jump2(Jump2(b)) }

  lemma Lefts4(a: bv64)
    ensures Left2(Left2(a)) == Left4(a)
  {
  }

  lemma FourIs(a: bv64, b: bv64)
    ensures Multiply(Lfsr(), 2, Word(a), Word(b)) == Word(Four(a, b))
    ensures Repeat(Shift, 2, Word(a)) == Word(Left4(a)) && Repeat(Step, 2, Word(b)) == Word(Jump4(b))
  {
    var c, d := Left2(a), Jump2(b);
    TwoIs(a, b);
    TwoIs(c, d);
    Lefts4(a);
    assert Four(a, b) == Plus(Two(a, b), Two(c, d));
  }

  function Eight(a: bv64, b: bv64): bv64 { Plus(Four(a, b), Four(a << 4, Jump4(b))) }
  function Left8(a: bv64): bv64 { a << 8 }
  function Jump8(b: bv64): bv64 { Jump4(Jump4(b)) }

  lemma Lefts8(a: bv64)
    ensures Left4(Left4(a)) == Left8(a)
  {
  }

  lemma EightIs(a: bv64, b: bv64)
    ensures Multiply(Lfsr(), 3, Word(a), Word(b)) == Word(Eight(a, b))
    ensures Repeat(Shift, 3, Word(a)) == Word(Left8(a)) && Repeat(Step, 3, Word(b)) == Word(Jump8(b))
  {
    var c, d := Left4(a), Jump4(b);
    FourIs(a, b);
    FourIs(c, d);
    Lefts8(a);
    assert Eight(a, b) == Plus(Four(a, b), Four(c, d));
  }

  function Sixteen(a: bv64, b: bv64): bv64 { Plus(Eight(a, b), Eight(a << 8, Jump8(b))) }
  function Left16(a: bv64): bv64 { a << 16 }
  function Jump16(b: bv64): bv64 { Jump8(Jump8(b)) }

  lemma Lefts16(a: bv64)
    ensures Left8(Left8(a)) == Left16(a)
  {
  }

  lemma SixteenIs(a: bv64, b: bv64)
    ensures Multiply(Lfsr(), 4, Word(a), Word(b)) == Word(Sixteen(a, b))
    ensures Repeat(Shift, 4, Word(a)) == Word(Left16(a)) && Repeat(Step, 4, Word(b)) == Word(Jump16(b))
  {
    var c, d := Left8(a), Jump8(b);
    EightIs(a, b);
    EightIs(c, d);
    Lefts16(a);
    assert Sixteen(a, b) == Plus(Eight(a, b), Eight(c, d));
  }

  function ThirtyTwo(a: bv64, b: bv64): bv64 { Plus(Sixteen(a, b), Sixteen(a << 16, Jump16(b))) }
  function Left32(a: bv64): bv64 { a << 32 }
  function Jump32(b: bv64): bv64 { Jump16(Jump16(b)) }

  lemma Lefts32(a: bv64)
    ensures Left16(Left16(a)) == Left32(a)
  {
  }

  lemma ThirtyTwoIs(a: bv64, b: bv64)
    ensures Multiply(Lfsr(), 5, Word(a), Word(b)) == Word(ThirtyTwo(a, b))
    ensures Repeat(Shift, 5, Word(a)) == Word(Left32(a)) && Repeat(Step, 5, Word(b)) == Word(Jump32(b))
  {
    var c, d := Left16(a), Jump16(b);
    SixteenIs(a, b);
    SixteenIs(c, d);
    Lefts32(a);
    assert ThirtyTwo(a, b) == Plus(Sixteen(a, b), Sixteen(c, d));
  }

  function Mul(a: bv64, b: bv64): bv64 { Plus(ThirtyTwo(a, b), ThirtyTwo(a << 32, Jump32(b))) }
  function Left64(a: bv64): bv64 { 0 }
  function Jump64(b: bv64): bv64 { Jump32(Jump32(b)) }

  lemma Lefts64(a: bv64)
    ensures Left32(Left32(a)) == Left64(a)
  {
  }

  lemma MulIs(a: bv64, b: bv64)
    ensures Multiply(Lfsr(), 6, Word(a), Word(b)) == Word(Mul(a, b))
    ensures Repeat(Shift, 6, Word(a)) == Word(Left64(a)) && Repeat(Step, 6, Word(b)) == Word(Jump64(b))
  {
    var c, d := Left32(a), Jump32(b);
    ThirtyTwoIs(a, b);
    ThirtyTwoIs(c, d);
    Lefts64(a);
    assert Mul(a, b) == Plus(ThirtyTwo(a, b), ThirtyTwo(c, d));
  }

  lemma IsCyclic(l: nat)
    requires l == 6
    ensures Cyclic(Lfsr(), UNIT, l)
  {
    IsLinear();
    IsHorner();
    forall a: Word
      ensures Repeat(Lfsr().shift, l, a) == Lfsr().zero
    {
      MulIs(a.bits, a.bits);
    }
    CyclicWhen(Lfsr(), UNIT, l);
  }

  // ----- powers of the step

  /** k steps after the unit the register holds p. */
  ghost predicate At(k: nat, p: bv64) {
    Pow(Lfsr(), UNIT, k, Word(p))
  }

  lemma Multiplied(j: nat, p: bv64, k: nat, q: bv64, r: bv64)
    requires At(j, p) && At(k, q) && Mul(p, q) == r
    ensures At(j + k, r)
  {
    IsCyclic(6);
    MulIs(p, q);
    ProductPower(Lfsr(), UNIT, 6, j, Word(p), k, Word(q));
  }

  lemma Stepped(k: nat, p: bv64)
    requires At(k, p)
    ensures At(k + 1, Next64(p))
  {
    NextPower(Lfsr(), UNIT, k, Word(p));
  }

  function Back(x: Word): Word { Word(Prev64(x.bits)) }

  lemma BackUndoes()
    ensures Undoes(Lfsr(), Back)
  {
    forall x: Word
      ensures Back(Lfsr().next(x)) == x
    {
      PrevOfNext64(x.bits);
    }
  }

  lemma Divided(j: nat, r: bv64, k: nat, q: bv64, p: bv64)
    requires At(j + k, p) && At(k, q) && Mul(r, q) == p
    ensures At(j, r)
  {
    IsCyclic(6);
    BackUndoes();
    MulIs(r, q);
    QuotientPower(Lfsr(), UNIT, 6, Back, j, Word(r), k, Word(q));
  }

  /** The k-th power plus one has the inverse u. */
  lemma Inverted(k: nat, p: bv64, u: bv64)
    requires At(k, p) && Mul(u, Plus(p, UNIT.bits)) == UNIT.bits
    ensures Moves(Lfsr(), UNIT, 6, k)
  {
    InverseIs(p, u);
    assert Pow(Lfsr(), UNIT, k, Word(p));
  }

  lemma InverseIs(p: bv64, u: bv64)
    requires Mul(u, Plus(p, UNIT.bits)) == UNIT.bits
    ensures Multiply(Lfsr(), 6, Word(u), Lfsr().add(Word(p), UNIT)) == UNIT
  {
    MulIs(u, Plus(p, UNIT.bits));
  }

  lemma {:induction false} SameStream(s: bv64, k: nat)
    ensures Iterate(Lfsr().next, Word(s), k) == Word(Draw(Next64, s, k))
  {
    if k > 0 {
      SameStream(s, k - 1);
    }
  }


  // ----- the powers that decide the period

  // Each from earlier ones: up to the whole period, and down to its quotients by the prime factors.

  lemma P0()
    ensures At(1, 0x4000000000000000)
  {
    FirstPower(Lfsr(), UNIT);
  }

  lemma P1()
    ensures At(0x2, 0x2000000000000000)
  {
    P0();
    Multiplied(0x1, 0x4000000000000000, 0x1, 0x4000000000000000, 0x2000000000000000);
  }

  lemma P2()
    ensures At(0x4, 0x0800000000000000)
  {
    P1();
    Multiplied(0x2, 0x2000000000000000, 0x2, 0x2000000000000000, 0x0800000000000000);
  }

  lemma P3()
    ensures At(0x8, 0x0080000000000000)
  {
    P2();
    Multiplied(0x4, 0x0800000000000000, 0x4, 0x0800000000000000, 0x0080000000000000);
  }

  lemma P4()
    ensures At(0x10, 0x0000800000000000)
  {
    P3();
    Multiplied(0x8, 0x0080000000000000, 0x8, 0x0080000000000000, 0x0000800000000000);
  }

  lemma P5()
    ensures At(0x20, 0x0000000080000000)
  {
    P4();
    Multiplied(0x10, 0x0000800000000000, 0x10, 0x0000800000000000, 0x0000000080000000);
  }

  lemma P6()
    ensures At(0x40, 0xd800000000000000)
  {
    P5();
    Multiplied(0x20, 0x0000000080000000, 0x20, 0x0000000080000000, 0xd800000000000000);
  }

  lemma P7()
    ensures At(0x80, 0xa280000000000000)
  {
    P6();
    Multiplied(0x40, 0xd800000000000000, 0x40, 0xd800000000000000, 0xa280000000000000);
  }

  lemma P8()
    ensures At(0x100, 0x8808800000000000)
  {
    P7();
    Multiplied(0x80, 0xa280000000000000, 0x80, 0xa280000000000000, 0x8808800000000000);
  }

  lemma P9()
    ensures At(0x200, 0x8080008080000000)
  {
    P8();
    Multiplied(0x100, 0x8808800000000000, 0x100, 0x8808800000000000, 0x8080008080000000);
  }

  lemma P10()
    ensures At(0x400, 0x5800800000008000)
  {
    P9();
    Multiplied(0x200, 0x8080008080000000, 0x200, 0x8080008080000000, 0x5800800000008000);
  }

  lemma P11()
    ensures At(0x800, 0x2280000058000000)
  {
    P10();
    Multiplied(0x400, 0x5800800000008000, 0x400, 0x5800800000008000, 0x2280000058000000);
  }

  lemma P12()
    ensures At(0x1000, 0x3db0800000000000)
  {
    P11();
    Multiplied(0x800, 0x2280000058000000, 0x800, 0x2280000058000000, 0x3db0800000000000);
  }

  lemma P13()
    ensures At(0x2000, 0x0aa28a0080000000)
  {
    P12();
    Multiplied(0x1000, 0x3db0800000000000, 0x1000, 0x3db0800000000000, 0x0aa28a0080000000);
  }

  lemma P14()
    ensures At(0x4000, 0xd888880880880000)
  {
    P13();
    Multiplied(0x2000, 0x0aa28a0080000000, 0x2000, 0x0aa28a0080000000, 0xd888880880880000);
  }

  lemma P15()
    ensures At(0x8000, 0x7a80585880800080)
  {
    P14();
    Multiplied(0x4000, 0xd888880880880000, 0x4000, 0xd888880880880000, 0x7a80585880800080);
  }

  lemma P16()
    ensures At(0x10000, 0xf28858002280fa80)
  {
    P15();
    Multiplied(0x8000, 0x7a80585880800080, 0x8000, 0x7a80585880800080, 0xf28858002280fa80);
  }

  lemma P17()
    ensures At(0x20000, 0xa785d880c2b55800)
  {
    P16();
    Multiplied(0x10000, 0xf28858002280fa80, 0x10000, 0xf28858002280fa80, 0xa785d880c2b55800);
  }

  lemma P18()
    ensures At(0x40000, 0x6627d6f7f7388000)
  {
    P17();
    Multiplied(0x20000, 0xa785d880c2b55800, 0x20000, 0xa785d880c2b55800, 0x6627d6f7f7388000);
  }

  lemma P19()
    ensures At(0x80000, 0xc8f0e6127a28aa2a)
  {
    P18();
    Multiplied(0x40000, 0x6627d6f7f7388000, 0x40000, 0x6627d6f7f7388000, 0xc8f0e6127a28aa2a);
  }

  lemma P20()
    ensures At(0x100000, 0x40b527587d7d8f5d)
  {
    P19();
    Multiplied(0x80000, 0xc8f0e6127a28aa2a, 0x80000, 0xc8f0e6127a28aa2a, 0x40b527587d7d8f5d);
  }

  lemma P21()
    ensures At(0x200000, 0x420dd22fb0caf70d)
  {
    P20();
    Multiplied(0x100000, 0x40b527587d7d8f5d, 0x100000, 0x40b527587d7d8f5d, 0x420dd22fb0caf70d);
  }

  lemma P22()
    ensures At(0x400000, 0xace8ee77c2d0e847)
  {
    P21();
    Multiplied(0x200000, 0x420dd22fb0caf70d, 0x200000, 0x420dd22fb0caf70d, 0xace8ee77c2d0e847);
  }

  lemma P23()
    ensures At(0x800000, 0xe4adc5e04bf01c12)
  {
    P22();
    Multiplied(0x400000, 0xace8ee77c2d0e847, 0x400000, 0xace8ee77c2d0e847, 0xe4adc5e04bf01c12);
  }

  lemma P24()
    ensures At(0x1000000, 0x46f68842a3acab6d)
  {
    P23();
    Multiplied(0x800000, 0xe4adc5e04bf01c12, 0x800000, 0xe4adc5e04bf01c12, 0x46f68842a3acab6d);
  }

  lemma P25()
    ensures At(0x2000000, 0xafa69f4655d6fb65)
  {
    P24();
    Multiplied(0x1000000, 0x46f68842a3acab6d, 0x1000000, 0x46f68842a3acab6d, 0xafa69f4655d6fb65);
  }

  lemma P26()
    ensures At(0x4000000, 0xe7ff0573e29cfb9d)
  {
    P25();
    Multiplied(0x2000000, 0xafa69f4655d6fb65, 0x2000000, 0xafa69f4655d6fb65, 0xe7ff0573e29cfb9d);
  }

  lemma P27()
    ensures At(0x8000000, 0x11a7f124e0141187)
  {
    P26();
    Multiplied(0x4000000, 0xe7ff0573e29cfb9d, 0x4000000, 0xe7ff0573e29cfb9d, 0x11a7f124e0141187);
  }

  lemma P28()
    ensures At(0x10000000, 0x63828b7ca961b018)
  {
    P27();
    Multiplied(0x8000000, 0x11a7f124e0141187, 0x8000000, 0x11a7f124e0141187, 0x63828b7ca961b018);
  }

  lemma P29()
    ensures At(0x20000000, 0xfd51db8b366a2918)
  {
    P28();
    Multiplied(0x10000000, 0x63828b7ca961b018, 0x10000000, 0x63828b7ca961b018, 0xfd51db8b366a2918);
  }

  lemma P30()
    ensures At(0x40000000, 0xa47999572fd1e332)
  {
    P29();
    Multiplied(0x20000000, 0xfd51db8b366a2918, 0x20000000, 0xfd51db8b366a2918, 0xa47999572fd1e332);
  }

  lemma P31()
    ensures At(0x80000000, 0x5d4027e1010cccc7)
  {
    P30();
    Multiplied(0x40000000, 0xa47999572fd1e332, 0x40000000, 0xa47999572fd1e332, 0x5d4027e1010cccc7);
  }

  lemma P32()
    ensures At(0x100000000, 0xa0a140eee6c4463a)
    ensures At(0x100000001, 0x5050a0777362231d)
  {
    P31();
    Multiplied(0x80000000, 0x5d4027e1010cccc7, 0x80000000, 0x5d4027e1010cccc7, 0xa0a140eee6c4463a);
    Stepped(0x100000000, 0xa0a140eee6c4463a);
  }

  lemma P33()
    ensures At(0x200000002, 0x40eef98d058ec9a7)
  {
    P32();
    Multiplied(0x100000001, 0x5050a0777362231d, 0x100000001, 0x5050a0777362231d, 0x40eef98d058ec9a7);
  }

  lemma P34()
    ensures At(0x400000004, 0xa235104bc459351a)
  {
    P33();
    Multiplied(0x200000002, 0x40eef98d058ec9a7, 0x200000002, 0x40eef98d058ec9a7, 0xa235104bc459351a);
  }

  lemma P35()
    ensures At(0x800000008, 0xbe3e3f996cd5433f)
  {
    P34();
    Multiplied(0x400000004, 0xa235104bc459351a, 0x400000004, 0xa235104bc459351a, 0xbe3e3f996cd5433f);
  }

  lemma P36()
    ensures At(0x1000000010, 0x33c6e7fd5ca46c82)
  {
    P35();
    Multiplied(0x800000008, 0xbe3e3f996cd5433f, 0x800000008, 0xbe3e3f996cd5433f, 0x33c6e7fd5ca46c82);
  }

  lemma P37()
    ensures At(0x2000000020, 0xe784759e934472af)
  {
    P36();
    Multiplied(0x1000000010, 0x33c6e7fd5ca46c82, 0x1000000010, 0x33c6e7fd5ca46c82, 0xe784759e934472af);
  }

  lemma P38()
    ensures At(0x4000000040, 0xf144561612cfd7c8)
  {
    P37();
    Multiplied(0x2000000020, 0xe784759e934472af, 0x2000000020, 0xe784759e934472af, 0xf144561612cfd7c8);
  }

  lemma P39()
    ensures At(0x8000000080, 0xa96f4ec02f700cf0)
  {
    P38();
    Multiplied(0x4000000040, 0xf144561612cfd7c8, 0x4000000040, 0xf144561612cfd7c8, 0xa96f4ec02f700cf0);
  }

  lemma P40()
    ensures At(0x10000000100, 0x85e2f04a204640e0)
  {
    P39();
    Multiplied(0x8000000080, 0xa96f4ec02f700cf0, 0x8000000080, 0xa96f4ec02f700cf0, 0x85e2f04a204640e0);
  }

  lemma P41()
    ensures At(0x20000000200, 0x8da29e331c00c308)
  {
    P40();
    Multiplied(0x10000000100, 0x85e2f04a204640e0, 0x10000000100, 0x85e2f04a204640e0, 0x8da29e331c00c308);
  }

  lemma P42()
    ensures At(0x40000000400, 0x832c88086ca6ead2)
  {
    P41();
    Multiplied(0x20000000200, 0x8da29e331c00c308, 0x20000000200, 0x8da29e331c00c308, 0x832c88086ca6ead2);
  }

  lemma P43()
    ensures At(0x80000000800, 0x6364dd1be3d56ded)
  {
    P42();
    Multiplied(0x40000000400, 0x832c88086ca6ead2, 0x40000000400, 0x832c88086ca6ead2, 0x6364dd1be3d56ded);
  }

  lemma P44()
    ensures At(0x100000001000, 0x91842575f9cf81e7)
  {
    P43();
    Multiplied(0x80000000800, 0x6364dd1be3d56ded, 0x80000000800, 0x6364dd1be3d56ded, 0x91842575f9cf81e7);
  }

  lemma P45()
    ensures At(0x200000002000, 0xe0390ec03021a99a)
  {
    P44();
    Multiplied(0x100000001000, 0x91842575f9cf81e7, 0x100000001000, 0x91842575f9cf81e7, 0xe0390ec03021a99a);
  }

  lemma P46()
    ensures At(0x400000004000, 0x7ee00701b5f31bb5)
  {
    P45();
    Multiplied(0x200000002000, 0xe0390ec03021a99a, 0x200000002000, 0xe0390ec03021a99a, 0x7ee00701b5f31bb5);
  }

  lemma P47()
    ensures At(0x800000008000, 0xa67d28eee39c36d7)
  {
    P46();
    Multiplied(0x400000004000, 0x7ee00701b5f31bb5, 0x400000004000, 0x7ee00701b5f31bb5, 0xa67d28eee39c36d7);
  }

  lemma P48()
    ensures At(0x1000000010000, 0xe9a6112c065bc5f0)
  {
    P47();
    Multiplied(0x800000008000, 0xa67d28eee39c36d7, 0x800000008000, 0xa67d28eee39c36d7, 0xe9a6112c065bc5f0);
  }

  lemma P49()
    ensures At(0x1000100010001, 0x999cb6c9fc2c7fb2)
  {
    P48();
    P32();
    Multiplied(0x1000000010000, 0xe9a6112c065bc5f0, 0x100000001, 0x5050a0777362231d, 0x999cb6c9fc2c7fb2);
  }

  lemma P50()
    ensures At(0xffff0000ffff, 0x73e5a9d9669e7838)
  {
    P48();
    P32();
    Divided(0xffff0000ffff, 0x73e5a9d9669e7838, 0x100000001, 0x5050a0777362231d, 0xe9a6112c065bc5f0);
  }

  lemma P51()
    ensures At(0x2000200020002, 0xba8c8fceb228966f)
  {
    P49();
    Multiplied(0x1000100010001, 0x999cb6c9fc2c7fb2, 0x1000100010001, 0x999cb6c9fc2c7fb2, 0xba8c8fceb228966f);
  }

  lemma P52()
    ensures At(0x4000400040004, 0xde650df85bf11bc8)
  {
    P51();
    Multiplied(0x2000200020002, 0xba8c8fceb228966f, 0x2000200020002, 0xba8c8fceb228966f, 0xde650df85bf11bc8);
  }

  lemma P53()
    ensures At(0x8000800080008, 0x971e28c16314a458)
  {
    P52();
    Multiplied(0x4000400040004, 0xde650df85bf11bc8, 0x4000400040004, 0xde650df85bf11bc8, 0x971e28c16314a458);
  }

  lemma P54()
    ensures At(0x10001000100010, 0xb9a4e1fedd3695ba)
  {
    P53();
    Multiplied(0x8000800080008, 0x971e28c16314a458, 0x8000800080008, 0x971e28c16314a458, 0xb9a4e1fedd3695ba);
  }

  lemma P55()
    ensures At(0x20002000200020, 0xbf0fe6fbf3571c9d)
  {
    P54();
    Multiplied(0x10001000100010, 0xb9a4e1fedd3695ba, 0x10001000100010, 0xb9a4e1fedd3695ba, 0xbf0fe6fbf3571c9d);
  }

  lemma P56()
    ensures At(0x40004000400040, 0x3044d5f24ba67107)
  {
    P55();
    Multiplied(0x20002000200020, 0xbf0fe6fbf3571c9d, 0x20002000200020, 0xbf0fe6fbf3571c9d, 0x3044d5f24ba67107);
  }

  lemma P57()
    ensures At(0x80008000800080, 0xbed6159b1ac1ca30)
  {
    P56();
    Multiplied(0x40004000400040, 0x3044d5f24ba67107, 0x40004000400040, 0x3044d5f24ba67107, 0xbed6159b1ac1ca30);
  }

  lemma P58()
    ensures At(0x100010001000100, 0x891dcc2b8cf70c6a)
  {
    P57();
    Multiplied(0x80008000800080, 0xbed6159b1ac1ca30, 0x80008000800080, 0xbed6159b1ac1ca30, 0x891dcc2b8cf70c6a);
  }

  lemma P59()
    ensures At(0x101010101010101, 0xdb3c5b4612db9600)
  {
    P58();
    P49();
    Multiplied(0x100010001000100, 0x891dcc2b8cf70c6a, 0x1000100010001, 0x999cb6c9fc2c7fb2, 0xdb3c5b4612db9600);
  }

  lemma P60()
    ensures At(0xff00ff00ff00ff, 0x830b9804e1f3fb6a)
  {
    P58();
    P49();
    Divided(0xff00ff00ff00ff, 0x830b9804e1f3fb6a, 0x1000100010001, 0x999cb6c9fc2c7fb2, 0x891dcc2b8cf70c6a);
  }

  lemma P61()
    ensures At(0x202020202020202, 0xa1e7671619d1a028)
  {
    P59();
    Multiplied(0x101010101010101, 0xdb3c5b4612db9600, 0x101010101010101, 0xdb3c5b4612db9600, 0xa1e7671619d1a028);
  }

  lemma P62()
    ensures At(0x404040404040404, 0x8bb925499daa0f70)
  {
    P61();
    Multiplied(0x202020202020202, 0xa1e7671619d1a028, 0x202020202020202, 0xa1e7671619d1a028, 0x8bb925499daa0f70);
  }

  lemma P63()
    ensures At(0x808080808080808, 0x5b073fd788c2f862)
  {
    P62();
    Multiplied(0x404040404040404, 0x8bb925499daa0f70, 0x404040404040404, 0x8bb925499daa0f70, 0x5b073fd788c2f862);
  }

  lemma P64()
    ensures At(0x1010101010101010, 0x2252ee276a9299a7)
  {
    P63();
    Multiplied(0x808080808080808, 0x5b073fd788c2f862, 0x808080808080808, 0x5b073fd788c2f862, 0x2252ee276a9299a7);
  }

  lemma P65()
    ensures At(0x1111111111111111, 0x50814f9713ae8e22)
  {
    P64();
    P59();
    Multiplied(0x1010101010101010, 0x2252ee276a9299a7, 0x101010101010101, 0xdb3c5b4612db9600, 0x50814f9713ae8e22);
  }

  lemma P66()
    ensures At(0xf0f0f0f0f0f0f0f, 0xdb030e4f141def30)
  {
    P64();
    P59();
    Divided(0xf0f0f0f0f0f0f0f, 0xdb030e4f141def30, 0x101010101010101, 0xdb3c5b4612db9600, 0x2252ee276a9299a7);
  }

  lemma P67()
    ensures At(0x2222222222222222, 0xf96eb56178490fa7)
  {
    P65();
    Multiplied(0x1111111111111111, 0x50814f9713ae8e22, 0x1111111111111111, 0x50814f9713ae8e22, 0xf96eb56178490fa7);
  }

  lemma P68()
    ensures At(0x4444444444444444, 0x10ba1e73eac21dba)
  {
    P67();
    Multiplied(0x2222222222222222, 0xf96eb56178490fa7, 0x2222222222222222, 0xf96eb56178490fa7, 0x10ba1e73eac21dba);
  }

  lemma P69()
    ensures At(0x5555555555555555, 0x403b51e4f96c9398)
  {
    P68();
    P65();
    Multiplied(0x4444444444444444, 0x10ba1e73eac21dba, 0x1111111111111111, 0x50814f9713ae8e22, 0x403b51e4f96c9398);
  }

  lemma P70()
    ensures At(0x3333333333333333, 0x90ba1e73eac21dba)
  {
    P68();
    P65();
    Divided(0x3333333333333333, 0x90ba1e73eac21dba, 0x1111111111111111, 0x50814f9713ae8e22, 0x10ba1e73eac21dba);
  }

  lemma P71()
    ensures At(0xaaaaaaaaaaaaaaaa, 0xc03b51e4f96c9398)
  {
    P69();
    Multiplied(0x5555555555555555, 0x403b51e4f96c9398, 0x5555555555555555, 0x403b51e4f96c9398, 0xc03b51e4f96c9398);
  }

  lemma P72()
    ensures At(0xffffffffffffffff, 0x8000000000000000)
  {
    P71();
    P69();
    Multiplied(0xaaaaaaaaaaaaaaaa, 0xc03b51e4f96c9398, 0x5555555555555555, 0x403b51e4f96c9398, 0x8000000000000000);
  }

  lemma P73()
    ensures At(0xffffffff, 0xf14281ddcd888c75)
  {
    P32();
    P0();
    Divided(0xffffffff, 0xf14281ddcd888c75, 0x1, 0x4000000000000000, 0xa0a140eee6c4463a);
  }

  lemma P74()
    ensures At(0x1fffffffe, 0x1eef98d058ec9a77)
  {
    P73();
    Multiplied(0xffffffff, 0xf14281ddcd888c75, 0xffffffff, 0xf14281ddcd888c75, 0x1eef98d058ec9a77);
  }

  lemma P75()
    ensures At(0x3fffffffc, 0xb5104bc459351ad8)
  {
    P74();
    Multiplied(0x1fffffffe, 0x1eef98d058ec9a77, 0x1fffffffe, 0x1eef98d058ec9a77, 0xb5104bc459351ad8);
  }

  lemma P76()
    ensures At(0x7fffffff8, 0xbf996cd5433fcd98)
  {
    P75();
    Multiplied(0x3fffffffc, 0xb5104bc459351ad8, 0x3fffffffc, 0xb5104bc459351ad8, 0xbf996cd5433fcd98);
  }

  lemma P77()
    ensures At(0xffffffff0, 0xbca46c82264d199a)
  {
    P76();
    Multiplied(0x7fffffff8, 0xbf996cd5433fcd98, 0x7fffffff8, 0xbf996cd5433fcd98, 0xbca46c82264d199a);
  }

  lemma P78()
    ensures At(0x1fffffffe0, 0x5f1b3ecd4b1b3bbd)
  {
    P77();
    Multiplied(0xffffffff0, 0xbca46c82264d199a, 0xffffffff0, 0xbca46c82264d199a, 0x5f1b3ecd4b1b3bbd);
  }

  lemma P79()
    ensures At(0x3fffffffc0, 0x4e7ce13ce49e96af)
  {
    P78();
    Multiplied(0x1fffffffe0, 0x5f1b3ecd4b1b3bbd, 0x1fffffffe0, 0x5f1b3ecd4b1b3bbd, 0x4e7ce13ce49e96af);
  }

  lemma P80()
    ensures At(0x7fffffff80, 0x411ef123f3595fc0)
  {
    P79();
    Multiplied(0x3fffffffc0, 0x4e7ce13ce49e96af, 0x3fffffffc0, 0x4e7ce13ce49e96af, 0x411ef123f3595fc0);
  }

  lemma P81()
    ensures At(0xffffffff00, 0xc0ecd713ff82060a)
  {
    P80();
    Multiplied(0x7fffffff80, 0x411ef123f3595fc0, 0x7fffffff80, 0x411ef123f3595fc0, 0xc0ecd713ff82060a);
  }

  lemma P82()
    ensures At(0x1fffffffe00, 0x980090ad221182df)
  {
    P81();
    Multiplied(0xffffffff00, 0xc0ecd713ff82060a, 0xffffffff00, 0xc0ecd713ff82060a, 0x980090ad221182df);
  }

  lemma P83()
    ensures At(0x27ffffffd80, 0xa33664c430620dbd)
  {
    P82();
    P80();
    Multiplied(0x1fffffffe00, 0x980090ad221182df, 0x7fffffff80, 0x411ef123f3595fc0, 0xa33664c430620dbd);
  }

  lemma P84()
    ensures At(0x280fffffd7f, 0x899fc0e80642af00)
  {
    P83();
    P73();
    Multiplied(0x27ffffffd80, 0xa33664c430620dbd, 0xffffffff, 0xf14281ddcd888c75, 0x899fc0e80642af00);
  }

  lemma P85()
    ensures At(0x2fffffffd, 0x74d43e233ae78e83)
  {
    P74();
    P73();
    Multiplied(0x1fffffffe, 0x1eef98d058ec9a77, 0xffffffff, 0xf14281ddcd888c75, 0x74d43e233ae78e83);
  }

  lemma P86()
    ensures At(0x5fffffffa, 0xa615c198324b5004)
  {
    P85();
    Multiplied(0x2fffffffd, 0x74d43e233ae78e83, 0x2fffffffd, 0x74d43e233ae78e83, 0xa615c198324b5004);
  }

  lemma P87()
    ensures At(0xbfffffff4, 0x86c5b4f4756282b6)
  {
    P86();
    Multiplied(0x5fffffffa, 0xa615c198324b5004, 0x5fffffffa, 0xa615c198324b5004, 0x86c5b4f4756282b6);
  }

  lemma P88()
    ensures At(0x17ffffffe8, 0x60fdfbafd22dfcfb)
  {
    P87();
    Multiplied(0xbfffffff4, 0x86c5b4f4756282b6, 0xbfffffff4, 0x86c5b4f4756282b6, 0x60fdfbafd22dfcfb);
  }

  lemma P89()
    ensures At(0x18ffffffe7, 0x5be37deae4075df5)
  {
    P88();
    P73();
    Multiplied(0x17ffffffe8, 0x60fdfbafd22dfcfb, 0xffffffff, 0xf14281ddcd888c75, 0x5be37deae4075df5);
  }

  lemma P90()
    ensures At(0x31ffffffce, 0x9b3ca832ff2f285d)
  {
    P89();
    Multiplied(0x18ffffffe7, 0x5be37deae4075df5, 0x18ffffffe7, 0x5be37deae4075df5, 0x9b3ca832ff2f285d);
  }

  lemma P91()
    ensures At(0x32ffffffcd, 0x99102a7cee57869a)
  {
    P90();
    P73();
    Multiplied(0x31ffffffce, 0x9b3ca832ff2f285d, 0xffffffff, 0xf14281ddcd888c75, 0x99102a7cee57869a);
  }

  lemma P92()
    ensures At(0x65ffffff9a, 0xb9e1b75830b37115)
  {
    P91();
    Multiplied(0x32ffffffcd, 0x99102a7cee57869a, 0x32ffffffcd, 0x99102a7cee57869a, 0xb9e1b75830b37115);
  }

  lemma P93()
    ensures At(0xcbffffff34, 0xde627eec52c941d5)
  {
    P92();
    Multiplied(0x65ffffff9a, 0xb9e1b75830b37115, 0x65ffffff9a, 0xb9e1b75830b37115, 0xde627eec52c941d5);
  }

  lemma P94()
    ensures At(0x197fffffe68, 0xcdc546d37cab25f5)
  {
    P93();
    Multiplied(0xcbffffff34, 0xde627eec52c941d5, 0xcbffffff34, 0xde627eec52c941d5, 0xcdc546d37cab25f5);
  }

  lemma P95()
    ensures At(0x32ffffffcd0, 0xc2ac7574cd9d22df)
  {
    P94();
    Multiplied(0x197fffffe68, 0xcdc546d37cab25f5, 0x197fffffe68, 0xcdc546d37cab25f5, 0xc2ac7574cd9d22df);
  }

  lemma P96()
    ensures At(0x330fffffccf, 0x000521cbea7f707b)
  {
    P95();
    P73();
    Multiplied(0x32ffffffcd0, 0xc2ac7574cd9d22df, 0xffffffff, 0xf14281ddcd888c75, 0x000521cbea7f707b);
  }

  lemma P97()
    ensures At(0x661fffff99e, 0x6155b822d0e298bc)
  {
    P96();
    Multiplied(0x330fffffccf, 0x000521cbea7f707b, 0x330fffffccf, 0x000521cbea7f707b, 0x6155b822d0e298bc);
  }

  lemma P98()
    ensures At(0x662fffff99d, 0x9210be18b4254c0a)
  {
    P97();
    P73();
    Multiplied(0x661fffff99e, 0x6155b822d0e298bc, 0xffffffff, 0xf14281ddcd888c75, 0x9210be18b4254c0a);
  }

  lemma P99()
    ensures At(0xcc5fffff33a, 0x8cde0fb5dc460255)
  {
    P98();
    Multiplied(0x662fffff99d, 0x9210be18b4254c0a, 0x662fffff99d, 0x9210be18b4254c0a, 0x8cde0fb5dc460255);
  }

  lemma P100()
    ensures At(0xcc6fffff339, 0xd6318c55d6889946)
  {
    P99();
    P73();
    Multiplied(0xcc5fffff33a, 0x8cde0fb5dc460255, 0xffffffff, 0xf14281ddcd888c75, 0xd6318c55d6889946);
  }

  lemma P101()
    ensures At(0x198dffffe672, 0x977352da5b1b7419)
  {
    P100();
    Multiplied(0xcc6fffff339, 0xd6318c55d6889946, 0xcc6fffff339, 0xd6318c55d6889946, 0x977352da5b1b7419);
  }

  lemma P102()
    ensures At(0x198effffe671, 0xd8fbbadca24314d1)
  {
    P101();
    P73();
    Multiplied(0x198dffffe672, 0x977352da5b1b7419, 0xffffffff, 0xf14281ddcd888c75, 0xd8fbbadca24314d1);
  }

  lemma P103()
    ensures At(0x331dffffcce2, 0x2d0d1c8469de4fc3)
  {
    P102();
    Multiplied(0x198effffe671, 0xd8fbbadca24314d1, 0x198effffe671, 0xd8fbbadca24314d1, 0x2d0d1c8469de4fc3);
  }

  lemma P104()
    ensures At(0x663bffff99c4, 0xb1f98d21b4408e2e)
  {
    P103();
    Multiplied(0x331dffffcce2, 0x2d0d1c8469de4fc3, 0x331dffffcce2, 0x2d0d1c8469de4fc3, 0xb1f98d21b4408e2e);
  }

  lemma P105()
    ensures At(0x663cffff99c3, 0xab7a461d6a826590)
  {
    P104();
    P73();
    Multiplied(0x663bffff99c4, 0xb1f98d21b4408e2e, 0xffffffff, 0xf14281ddcd888c75, 0xab7a461d6a826590);
  }

  lemma P106()
    ensures At(0xcc79ffff3386, 0xb3df72859b9db9c2)
  {
    P105();
    Multiplied(0x663cffff99c3, 0xab7a461d6a826590, 0x663cffff99c3, 0xab7a461d6a826590, 0xb3df72859b9db9c2);
  }

  lemma P107()
    ensures At(0xcc7affff3385, 0xc8241209df08bf32)
  {
    P106();
    P73();
    Multiplied(0xcc79ffff3386, 0xb3df72859b9db9c2, 0xffffffff, 0xf14281ddcd888c75, 0xc8241209df08bf32);
  }

  lemma P108()
    ensures At(0x198f5fffe670a, 0x9500e8f8d408ee6f)
  {
    P107();
    Multiplied(0xcc7affff3385, 0xc8241209df08bf32, 0xcc7affff3385, 0xc8241209df08bf32, 0x9500e8f8d408ee6f);
  }

  lemma P109()
    ensures At(0x331ebfffcce14, 0xed7400d84be311e0)
  {
    P108();
    Multiplied(0x198f5fffe670a, 0x9500e8f8d408ee6f, 0x198f5fffe670a, 0x9500e8f8d408ee6f, 0xed7400d84be311e0);
  }

  lemma P110()
    ensures At(0x663d7fff99c28, 0x9e7429aee3632100)
  {
    P109();
    Multiplied(0x331ebfffcce14, 0xed7400d84be311e0, 0x331ebfffcce14, 0xed7400d84be311e0, 0x9e7429aee3632100);
  }

  lemma P111()
    ensures At(0xcc7affff33850, 0x6126f1aee501e8a8)
  {
    P110();
    Multiplied(0x663d7fff99c28, 0x9e7429aee3632100, 0x663d7fff99c28, 0x9e7429aee3632100, 0x6126f1aee501e8a8);
  }

  lemma P112()
    ensures At(0x198f5fffe670a0, 0xcbb7682b295a5df0)
  {
    P111();
    Multiplied(0xcc7affff33850, 0x6126f1aee501e8a8, 0xcc7affff33850, 0x6126f1aee501e8a8, 0xcbb7682b295a5df0);
  }

  lemma P113()
    ensures At(0x331ebfffcce140, 0xadd1df9f9d0d886a)
  {
    P112();
    Multiplied(0x198f5fffe670a0, 0xcbb7682b295a5df0, 0x198f5fffe670a0, 0xcbb7682b295a5df0, 0xadd1df9f9d0d886a);
  }

  lemma P114()
    ensures At(0x663d7fff99c280, 0x8b2fc2ef1a72b9ff)
  {
    P113();
    Multiplied(0x331ebfffcce140, 0xadd1df9f9d0d886a, 0x331ebfffcce140, 0xadd1df9f9d0d886a, 0x8b2fc2ef1a72b9ff);
  }

  lemma P115()
    ensures At(0x663d80ff99c27f, 0x45414241ef101fd6)
  {
    P114();
    P73();
    Multiplied(0x663d7fff99c280, 0x8b2fc2ef1a72b9ff, 0xffffffff, 0xf14281ddcd888c75, 0x45414241ef101fd6);
  }

  // For each prime factor: the power of the period divided by it, plus one, is invertible.

  lemma Third(k: nat)
    requires k == 0x5555555555555555
    ensures Moves(Lfsr(), UNIT, 6, k)
  {
    P69();
    Inverted(k, 0x403b51e4f96c9398, 0x403b51e4f96c9398);
  }

  lemma Fifth(k: nat)
    requires k == 0x3333333333333333
    ensures Moves(Lfsr(), UNIT, 6, k)
  {
    P70();
    Inverted(k, 0x90ba1e73eac21dba, 0xe9d4ab12928b121d);
  }

  lemma Part17(k: nat)
    requires k == 0xf0f0f0f0f0f0f0f
    ensures Moves(Lfsr(), UNIT, 6, k)
  {
    P66();
    Inverted(k, 0xdb030e4f141def30, 0x3adf38bdf4a0dc80);
  }

  lemma Part257(k: nat)
    requires k == 0xff00ff00ff00ff
    ensures Moves(Lfsr(), UNIT, 6, k)
  {
    P60();
    Inverted(k, 0x830b9804e1f3fb6a, 0x7f7f92c958475337);
  }

  lemma Part641(k: nat)
    requires k == 0x663d80ff99c27f
    ensures Moves(Lfsr(), UNIT, 6, k)
  {
    P115();
    Inverted(k, 0x45414241ef101fd6, 0xdbdab80550322efa);
  }

  lemma Part65537(k: nat)
    requires k == 0xffff0000ffff
    ensures Moves(Lfsr(), UNIT, 6, k)
  {
    P50();
    Inverted(k, 0x73e5a9d9669e7838, 0xa3038e602c2dda40);
  }

  lemma PartLarge(k: nat)
    requires k == 0x280fffffd7f
    ensures Moves(Lfsr(), UNIT, 6, k)
  {
    P84();
    Inverted(k, 0x899fc0e80642af00, 0xd1140584f6dad27d);
  }

  // ----- the period

  /** The prime factors of 2^64 - 1. */
  const FACTORS: seq<nat> := [3, 5, 17, 257, 641, 65537, 6700417]

  lemma FactorsProduct()
    ensures Product(FACTORS) == 0xffffffffffffffff
  {
    assert FACTORS[0..][0] == 3 && FACTORS[0..][1..] == FACTORS[1..];
    assert FACTORS[1..][0] == 5 && FACTORS[1..][1..] == FACTORS[2..];
    assert FACTORS[2..][0] == 17 && FACTORS[2..][1..] == FACTORS[3..];
    assert FACTORS[3..][0] == 257 && FACTORS[3..][1..] == FACTORS[4..];
    assert FACTORS[4..][0] == 641 && FACTORS[4..][1..] == FACTORS[5..];
    assert FACTORS[5..][0] == 65537 && FACTORS[5..][1..] == FACTORS[6..];
    assert FACTORS[6..][0] == 6700417 && FACTORS[6..][1..] == FACTORS[7..];
    assert Product(FACTORS[7..]) == 1;
    assert FACTORS[0..] == FACTORS;
  }

  lemma FactorDecides(p: nat, k: nat)
    requires p in FACTORS && k == 0xffffffffffffffff / p
    ensures Prime(p) && Moves(Lfsr(), UNIT, 6, k)
  {
    if p == 3 {
      Small(p);
      Third(k);
    } else if p == 5 {
      Small(p);
      Fifth(k);
    } else if p == 17 {
      Small(p);
      Part17(k);
    } else if p == 257 {
      Prime257();
      Part257(k);
    } else if p == 641 {
      Prime641();
      Part641(k);
    } else if p == 65537 {
      Prime65537();
      Part65537(k);
    } else if p == 6700417 {
      PrimeLarge();
      PartLarge(k);
    }
  }

  /** A non-zero seed is back exactly after the multiples of 2^64 - 1 steps. */
  lemma SeedReturns(seed: bv64, k: nat)
    requires seed != 0
    ensures Draw(Next64, seed, k) == seed <==> k % 0xffffffffffffffff == 0
  {
    var l, n := 6, Product(FACTORS);
    IsCyclic(l);
    FactorsProduct();
    P72();
    forall p | p in FACTORS
      ensures Prime(p) && Moves(Lfsr(), UNIT, l, n / p)
    {
      FactorDecides(p, n / p);
    }
    CommonPeriod(Lfsr(), UNIT, l, FACTORS, Word(seed), k);
    SameStream(seed, k);
  }

  /** lfsrandom64 has the maximal period: two draws from a non-zero seed are equal exactly when a
      multiple of 2^64 - 1 draws lies between them. */
  lemma MaximalPeriod(seed: bv64, i: nat, j: nat)
    requires seed != 0 && i <= j
    ensures Draw(Next64, seed, i) == Draw(Next64, seed, j) <==> (j - i) % 0xffffffffffffffff == 0
  {
    ZeroIffSeedZero(1, seed, i);
    IterateAdd(Next64, seed, i, j - i);
    SeedReturns(Draw(Next64, seed, i), j - i);
  }
}
