/** The prime factors of 2^32 - 1 and 2^64 - 1, by trial division.  The numbers of states that the
    registers of random.h run through factor into these. */
module Primes {
  import opened NumberTheory

  ghost predicate Prime(p: nat) {
    p > 1 && forall d: nat | d > 0 && Divides(d, p) :: d == 1 || d == p
  }

  /** No number from lo up to hi divides p. */
  ghost predicate NoneDivides(p: nat, lo: nat, hi: nat) {
    forall d: nat | 0 < lo <= d < hi :: !Divides(d, p)
  }

  /** A number is prime when nothing up to its square root divides it. */
  lemma PrimeByTrial(p: nat, r: nat)
    requires p > 1 && r * r > p && NoneDivides(p, 2, r)
    ensures Prime(p)
  {
    forall d: nat | d > 0 && Divides(d, p)
      ensures d == 1 || d == p
    {
      var q := Quotient(d, p);
      PositiveFactor(d, q);
      Commute(d, q);
      Multiple(q, d);
      if d >= r && q >= r {
        Larger(d, q, r);
      } else if q < r {
        assert q == 1;
      }
    }
  }

  lemma Larger(d: nat, q: nat, r: nat)
    requires d >= r && q >= r
    ensures d * q >= r * r
  {
  }

  lemma EvenDivides(d: nat, p: nat)
    requires d > 0 && d % 2 == 0 && Divides(d, p)
    ensures p % 2 == 0
  {
    var q := Quotient(d, p);
    Associate(2, d / 2, q);
    assert p == 2 * ((d / 2) * q);
  }

  /** None of n consecutive odd numbers from d on divides p. */
  predicate OddTrial(p: nat, d: nat, n: nat)
    requires d > 0
    decreases n
  {
    n == 0 || (p % d != 0 && OddTrial(p, d + 2, n - 1))
  }

  lemma OddAndNext(p: nat, d: nat)
    requires p % 2 == 1 && d % 2 == 1 && p % d != 0
    ensures !Divides(d, p) && !Divides(d + 1, p)
  {
    DividesIffMod(d, p);
    if Divides(d + 1, p) { EvenDivides(d + 1, p); }
  }

  lemma Joined(p: nat, a: nat, b: nat, c: nat)
    requires a <= b && NoneDivides(p, a, b) && NoneDivides(p, b, c)
    ensures NoneDivides(p, a, c)
  {
  }

  lemma {:induction false} Tried(p: nat, d: nat, n: nat)
    requires p % 2 == 1 && d % 2 == 1 && OddTrial(p, d, n)
    ensures NoneDivides(p, d, d + 2 * n)
    decreases n
  {
    if n > 0 {
      OddAndNext(p, d);
      Tried(p, d + 2, n - 1);
      Joined(p, d, d + 2, d + 2 * n);
    }
  }

  /** The same for m times eight odd numbers. */
  predicate OddTrials(p: nat, d: nat, m: nat)
    requires d > 0
    decreases m
  {
    m == 0 || (OddTrial(p, d, 8) && OddTrials(p, d + 16, m - 1))
  }

  lemma {:induction false} AllTried(p: nat, d: nat, m: nat)
    requires p % 2 == 1 && d % 2 == 1 && OddTrials(p, d, m)
    ensures NoneDivides(p, d, d + 16 * m)
    decreases m
  {
    if m > 0 {
      Tried(p, d, 8);
      AllTried(p, d + 16, m - 1);
      Joined(p, d, d + 16, d + 16 * m);
    }
  }

  lemma OddTried(p: nat, hi: nat)
    requires p % 2 == 1 && hi > 2 && NoneDivides(p, 3, hi)
    ensures NoneDivides(p, 2, hi)
  {
    if Divides(2, p) { EvenDivides(2, p); }
  }

  lemma Small(p: nat)
    requires p == 3 || p == 5 || p == 17
    ensures Prime(p)
  {
    forall d: nat | 2 <= d < 5 && d < p
      ensures !Divides(d, p)
    {
      DividesIffMod(d, p);
    }
    PrimeByTrial(p, if p == 17 then 5 else p - 1);
  }

  lemma Prime257()
    ensures Prime(257)
  {
    Tried(257, 3, 8);
    OddTried(257, 19);
    PrimeByTrial(257, 19);
  }

  lemma Prime641()
    ensures Prime(641)
  {
    AllTried(641, 3, 2);
    OddTried(641, 35);
    PrimeByTrial(641, 35);
  }

  lemma Trial65537_1()
    ensures NoneDivides(65537, 3, 131)
  {
    AllTried(65537, 3, 4);
    AllTried(65537, 67, 4);
  }

  lemma Trial65537_2()
    ensures NoneDivides(65537, 131, 259)
  {
    AllTried(65537, 131, 4);
    AllTried(65537, 195, 4);
  }

  lemma Prime65537()
    ensures Prime(65537)
  {
    Trial65537_1();
    Trial65537_2();
    OddTried(65537, 259);
    PrimeByTrial(65537, 259);
  }

  const LARGE := 6700417   // 2^32 + 1 is 641 times this

  lemma Trial1()
    ensures NoneDivides(LARGE, 3, 131)
  {
    AllTried(LARGE, 3, 4);
    AllTried(LARGE, 67, 4);
  }

  lemma Trial2()
    ensures NoneDivides(LARGE, 131, 259)
  {
    AllTried(LARGE, 131, 4);
    AllTried(LARGE, 195, 4);
  }

  lemma Trial3()
    ensures NoneDivides(LARGE, 259, 387)
  {
    AllTried(LARGE, 259, 4);
    AllTried(LARGE, 323, 4);
  }

  lemma Trial4()
    ensures NoneDivides(LARGE, 387, 515)
  {
    AllTried(LARGE, 387, 4);
    AllTried(LARGE, 451, 4);
  }

  lemma Trial5()
    ensures NoneDivides(LARGE, 515, 643)
  {
    AllTried(LARGE, 515, 4);
    AllTried(LARGE, 579, 4);
  }

  lemma Trial6()
    ensures NoneDivides(LARGE, 643, 771)
  {
    AllTried(LARGE, 643, 4);
    AllTried(LARGE, 707, 4);
  }

  lemma Trial7()
    ensures NoneDivides(LARGE, 771, 899)
  {
    AllTried(LARGE, 771, 4);
    AllTried(LARGE, 835, 4);
  }

  lemma Trial8()
    ensures NoneDivides(LARGE, 899, 1027)
  {
    AllTried(LARGE, 899, 4);
    AllTried(LARGE, 963, 4);
  }

  lemma Trial9()
    ensures NoneDivides(LARGE, 1027, 1155)
  {
    AllTried(LARGE, 1027, 4);
    AllTried(LARGE, 1091, 4);
  }

  lemma Trial10()
    ensures NoneDivides(LARGE, 1155, 1283)
  {
    AllTried(LARGE, 1155, 4);
    AllTried(LARGE, 1219, 4);
  }

  lemma Trial11()
    ensures NoneDivides(LARGE, 1283, 1411)
  {
    AllTried(LARGE, 1283, 4);
    AllTried(LARGE, 1347, 4);
  }

  lemma Trial12()
    ensures NoneDivides(LARGE, 1411, 1539)
  {
    AllTried(LARGE, 1411, 4);
    AllTried(LARGE, 1475, 4);
  }

  lemma Trial13()
    ensures NoneDivides(LARGE, 1539, 1667)
  {
    AllTried(LARGE, 1539, 4);
    AllTried(LARGE, 1603, 4);
  }

  lemma Trial14()
    ensures NoneDivides(LARGE, 1667, 1795)
  {
    AllTried(LARGE, 1667, 4);
    AllTried(LARGE, 1731, 4);
  }

  lemma Trial15()
    ensures NoneDivides(LARGE, 1795, 1923)
  {
    AllTried(LARGE, 1795, 4);
    AllTried(LARGE, 1859, 4);
  }

  lemma Trial16()
    ensures NoneDivides(LARGE, 1923, 2051)
  {
    AllTried(LARGE, 1923, 4);
    AllTried(LARGE, 1987, 4);
  }

  lemma Trial17()
    ensures NoneDivides(LARGE, 2051, 2179)
  {
    AllTried(LARGE, 2051, 4);
    AllTried(LARGE, 2115, 4);
  }

  lemma Trial18()
    ensures NoneDivides(LARGE, 2179, 2307)
  {
    AllTried(LARGE, 2179, 4);
    AllTried(LARGE, 2243, 4);
  }

  lemma Trial19()
    ensures NoneDivides(LARGE, 2307, 2435)
  {
    AllTried(LARGE, 2307, 4);
    AllTried(LARGE, 2371, 4);
  }

  lemma Trial20()
    ensures NoneDivides(LARGE, 2435, 2563)
  {
    AllTried(LARGE, 2435, 4);
    AllTried(LARGE, 2499, 4);
  }

  lemma Trial21()
    ensures NoneDivides(LARGE, 2563, 2627)
  {
    AllTried(LARGE, 2563, 4);
  }

  lemma PrimeLarge()
    ensures Prime(LARGE)
  {
    Trial1();
    Trial2();
    Trial3();
    Trial4();
    Trial5();
    Trial6();
    Trial7();
    Trial8();
    Trial9();
    Trial10();
    Trial11();
    Trial12();
    Trial13();
    Trial14();
    Trial15();
    Trial16();
    Trial17();
    Trial18();
    Trial19();
    Trial20();
    Trial21();
    OddTried(LARGE, 2627);
    PrimeByTrial(LARGE, 2627);
  }
}
