/** Divisibility, Bezout's identity and the greatest common divisor computed by tester.h. */
module NumberTheory {
  import opened Options

  const INT_LIMIT := 0x8000_0000
  const LONG_LIMIT := 0x8000_0000_0000_0000
  const UNSIGNED := 0x1_0000_0000_0000_0000

  function Times(a: int, b: int): int { a * b }

  ghost predicate Divides(d: int, n: int) {
    exists q :: Times(d, q) == n
  }

  lemma Multiple(d: int, q: int)
    ensures Divides(d, d * q)
  {
    assert Times(d, q) == d * q;
  }

  lemma Quotient(d: int, n: int) returns (q: int)
    requires Divides(d, n)
    ensures n == d * q
    ensures d > 0 ==> q == n / d && n % d == 0
  {
    q :| Times(d, q) == n;
    if d > 0 { DivideExact(d, q); }
  }

  lemma DivideExact(d: int, q: int)
    requires d > 0
    ensures (d * q) / d == q && (d * q) % d == 0
  {
    QuotientUnique(d * q, d, q, 0);
  }

  /** Euclidean division is unique. */
  lemma QuotientUnique(n: int, d: int, q: int, r: int)
    requires d > 0 && n == d * q + r && 0 <= r < d
    ensures n / d == q && n % d == r
  {
    var q', r' := n / d, n % d;
    assert n == d * q' + r';
    Distribute(d, q, q');
    Distribute(d, q', q);
    AtLeast(d, q - q');
    AtLeast(d, q' - q);
  }

  lemma Distribute(d: int, a: int, b: int)
    ensures d * (a - b) == d * a - d * b
    ensures d * (a + b) == d * a + d * b
  {
  }

  lemma AtLeast(d: int, k: int)
    requires d > 0
    ensures k >= 1 ==> d * k >= d
    ensures k <= 0 ==> d * k <= 0
  {
  }

  lemma DividesIffMod(d: int, n: int)
    requires d > 0
    ensures Divides(d, n) <==> n % d == 0
  {
    if Divides(d, n) {
      var q := Quotient(d, n);
    }
    if n % d == 0 {
      assert n == d * (n / d);
      Multiple(d, n / d);
    }
  }

  lemma Combine(d: int, a: int, b: int, x: int, y: int)
    requires Divides(d, a) && Divides(d, b)
    ensures Divides(d, x * a + y * b)
  {
    var p := Quotient(d, a);
    var q := Quotient(d, b);
    Regroup(d, p, x);
    Regroup(d, q, y);
    Distribute(d, x * p, y * q);
    Multiple(d, x * p + y * q);
  }

  lemma Regroup(d: int, p: int, x: int)
    ensures x * (d * p) == d * (x * p)
    ensures (x * d) * p == d * (x * p)
  {
  }

  lemma DividesAtMost(d: int, n: int)
    requires n > 0 && d > 0 && Divides(d, n)
    ensures d <= n
  {
    var q := Quotient(d, n);
    AtLeast(d, q);
  }

  /** g is the greatest common divisor in the divisibility order. */
  ghost predicate IsGcd(g: int, m: int, n: int) {
    && g > 0 && Divides(g, m) && Divides(g, n)
    && forall d | Divides(d, m) && Divides(d, n) :: Divides(d, g)
  }

  // ----- Euclid's algorithm

  function Remainder(m: nat, n: nat): (r: nat)
    requires n > 0
    ensures r < n
  {
    m % n
  }

  function Gcd(m: nat, n: nat): (g: nat)
    requires 0 < m && 0 < n
    ensures g > 0
    decreases if m < n then m else n
  {
    var big := if m < n then n else m;
    var small := if m < n then m else n;
    var r := Remainder(big, small);
    if r == 0 then small else Gcd(small, r)
  }

  lemma EuclidStep(m: nat, n: nat) returns (q: nat)
    requires n > 0
    ensures m == n * q + Remainder(m, n)
  {
    q := m / n;
  }

  /** The recursion returns a common divisor that is an integer combination of its arguments. */
  lemma {:induction false} Bezout(m: nat, n: nat) returns (x: int, y: int)
    requires 0 < m && 0 < n
    ensures Gcd(m, n) > 0 && Divides(Gcd(m, n), m) && Divides(Gcd(m, n), n)
    ensures Gcd(m, n) == x * m + y * n
    decreases if m < n then m else n
  {
    var big, small := if m < n then n else m, if m < n then m else n;
    var u, v := BezoutOrdered(big, small);
    if m < n { x, y := v, u; } else { x, y := u, v; }
  }

  lemma {:induction false} BezoutOrdered(m: nat, n: nat) returns (x: int, y: int)
    requires 0 < n <= m
    ensures Gcd(m, n) > 0 && Divides(Gcd(m, n), m) && Divides(Gcd(m, n), n)
    ensures Gcd(m, n) == x * m + y * n
    decreases n
  {
    var q := EuclidStep(m, n);
    var r := Remainder(m, n);
    if r == 0 {
      Multiple(n, 1);
      Multiple(n, q);
      x, y := 0, 1;
    } else {
      var u, v := BezoutOrdered(n, r);
      var g := Gcd(n, r);
      assert Gcd(m, n) == g;
      Combine(g, n, r, q, 1);
      x, y := v, u - v * q;
      BezoutStep(m, n, q, r, u, v);
    }
  }

  lemma BezoutStep(big: int, small: int, q: int, r: int, x: int, y: int)
    requires big == small * q + r
    ensures y * big + (x - y * q) * small == x * small + y * r
  {
    assert y * big == y * (q * small) + y * r;
    assert (x - y * q) * small == x * small - (y * q) * small;
    assert y * (q * small) == (y * q) * small;
  }

  lemma GcdIsGreatest(m: nat, n: nat)
    requires 0 < m && 0 < n
    ensures IsGcd(Gcd(m, n), m, n)
  {
    var x, y := Bezout(m, n);
    forall d | Divides(d, m) && Divides(d, n)
      ensures Divides(d, Gcd(m, n))
    {
      Combine(d, m, n, x, y);
    }
  }

  lemma Associate(a: int, b: int, c: int)
    ensures (a * b) * c == a * (b * c)
  {
  }

  lemma CancelIdentity(g: int, n: int, a: int, d: int, x: int, y: int, k: int)
    requires g == x * n + y * a && a * d == n * k
    ensures g * d == n * (x * d + y * k)
  {
    assert (x * n + y * a) * d == (x * n) * d + (y * a) * d;
    assert (x * n) * d == n * (x * d);
    assert (y * a) * d == y * (a * d) == y * (n * k) == n * (y * k);
  }

  lemma PositiveFactor(g: int, t: int)
    requires g > 0 && g * t > 0
    ensures t > 0
  {
    AtLeast(g, t);
  }

  lemma SameFactor(g: int, a: int, b: int)
    requires g > 0 && g * a == g * b
    ensures a == b
  {
    Distribute(g, a, b);
    Distribute(g, b, a);
    AtLeast(g, a - b);
    AtLeast(g, b - a);
  }

  // ----- gcd() of tester.h

  /** Reading the low 32 bits of an unsigned long as an int. */
  function ToInt(x: nat): (r: int)
    ensures x < INT_LIMIT ==> r == x
  {
    var low := x % (2 * INT_LIMIT);
    if low < INT_LIMIT then low else low - 2 * INT_LIMIT
  }

  /** A signed value read as an unsigned long. */
  function ToUnsigned(x: int): (r: nat)
    ensures r < UNSIGNED && (0 <= x < UNSIGNED ==> r == x)
  {
    x % UNSIGNED
  }

  /** Storing an unsigned long in an int and reading it back. */
  function ThroughInt(x: nat): (r: nat)
    ensures r < INT_LIMIT || UNSIGNED - INT_LIMIT <= r < UNSIGNED
    ensures x < INT_LIMIT ==> r == x
    ensures r < INT_LIMIT ==> r <= x
    ensures r == 0 <==> x % (2 * INT_LIMIT) == 0
  {
    ToUnsigned(ToInt(x))
  }

  /** An int temporary keeps the low 32 bits, and as an unsigned long repeats their sign. */
  lemma ThroughIntExact(x: nat)
    ensures -INT_LIMIT <= ToInt(x) < INT_LIMIT && (ToInt(x) - x) % (2 * INT_LIMIT) == 0
    ensures ThroughInt(x) == if x % (2 * INT_LIMIT) < INT_LIMIT then x % (2 * INT_LIMIT)
                             else x % (2 * INT_LIMIT) + UNSIGNED - 2 * INT_LIMIT
  {
  }

  /** A negative int read as an unsigned long. */
  predicate Negative(x: nat) { UNSIGNED - INT_LIMIT <= x < UNSIGNED }

  lemma NegativeKept(x: nat)
    requires Negative(x)
    ensures ThroughInt(x) == x
  {
  }

  lemma NearRemainder(m: nat, n: nat)
    requires 0 < n
    ensures m < n ==> Remainder(m, n) == m
    ensures n <= m < 2 * n ==> Remainder(m, n) == m - n
  {
    if m < n { QuotientUnique(m, n, 0, m); } else if m < 2 * n { QuotientUnique(m, n, 1, m - n); }
  }

  /** How often a remainder may still be cut off by an int. */
  function Narrowings(m: nat, n: nat): nat {
    if m < INT_LIMIT || n < INT_LIMIT then 0
    else if !Negative(n) then 3
    else if m < n then 2 else 1
  }

  /** One step of gcd makes the second argument smaller or uses up one narrowing. */
  lemma StepShrinks(m: nat, n: nat, big: nat, small: nat, r: nat)
    requires m < UNSIGNED && n < UNSIGNED
    requires if m < n then big == n && small == ThroughInt(m) else big == m && small == n
    requires small > 0 && r == ThroughInt(Remainder(big, small)) && r > 0
    ensures Narrowings(small, r) < Narrowings(m, n) || (Narrowings(m, n) == 0 == Narrowings(small, r) && r < small)
    ensures Narrowings(m, n) == 0 ==> r < if m < n then m else n
    ensures r < INT_LIMIT ==> r < small
  {
    NearRemainder(big, small);
    if Negative(n) && INT_LIMIT <= m && INT_LIMIT <= r {
      NegativeKept(n);
      if m < n {
        NegativeKept(big);
        assert r == big && small > r;
      }
    }
  }

  /** gcd with its int temporaries t and r; None is a division by zero.  It ends for all arguments. */
  function GcdOfTester(m: nat, n: nat): Option<nat>
    requires m < UNSIGNED && n < UNSIGNED
    decreases Narrowings(m, n), if m < n then m else n
  {
    var big := if m < n then n else m;
    var small := if m < n then ThroughInt(m) else n;
    if small == 0 then None else
      var r := ThroughInt(Remainder(big, small));
      if r == 0 then Some(small) else
        StepShrinks(m, n, big, small, r);
        GcdOfTester(small, r)
  }

  /** No int of the whole recursion changes the value stored in it. */
  predicate Lossless(m: nat, n: nat)
    requires m < UNSIGNED && n < UNSIGNED
    decreases Narrowings(m, n), if m < n then m else n
  {
    var big := if m < n then n else m;
    var small := if m < n then ThroughInt(m) else n;
    if m < n && small != m then false
    else if small == 0 then true
    else
      var r := ThroughInt(Remainder(big, small));
      if r != Remainder(big, small) then false
      else if r == 0 then true
      else
        StepShrinks(m, n, big, small, r);
        Lossless(small, r)
  }

  /** The recursion is lossless exactly when its first step is: an argument fits an int, or the first is
      not swapped and its remainder fits; or a swapped argument reads as a negative int. */
  lemma LosslessIff(m: nat, n: nat)
    requires m < UNSIGNED && n < UNSIGNED
    ensures Lossless(m, n) <==>
              m < INT_LIMIT || n < INT_LIMIT || (if m < n then Negative(m) else Remainder(m, n) < INT_LIMIT)
  {
    if m < INT_LIMIT || n < INT_LIMIT {
      SmallLossless(m, n);
    } else if m < n {
      SwapLossless(m, n);
    } else {
      WideLossless(m, n);
    }
  }

  lemma {:induction false} SmallLossless(m: nat, n: nat)
    requires m < UNSIGNED && n < UNSIGNED && (m < INT_LIMIT || n < INT_LIMIT)
    ensures Lossless(m, n)
    decreases if m < n then m else n
  {
    var big := if m < n then n else m;
    var small := if m < n then m else n;
    if small > 0 && Remainder(big, small) > 0 {
      SmallLossless(small, Remainder(big, small));
    }
  }

  lemma SwapLossless(m: nat, n: nat)
    requires INT_LIMIT <= m < n < UNSIGNED
    ensures Lossless(m, n) <==> Negative(m)
  {
    if Negative(m) {
      NegativeKept(m);
      NearRemainder(n, m);
      SmallLossless(m, n - m);
    }
  }

  lemma WideLossless(m: nat, n: nat)
    requires INT_LIMIT <= n <= m < UNSIGNED
    ensures Lossless(m, n) <==> Remainder(m, n) < INT_LIMIT
  {
    var r := Remainder(m, n);
    if r < INT_LIMIT {
      SmallLossless(n, r);
    } else if Negative(r) {
      NearRemainder(m, n);
    }
  }

  /** A lossless recursion returns the greatest common divisor. */
  lemma {:induction false} TesterGcdExact(m: nat, n: nat)
    requires 0 < m < UNSIGNED && 0 < n < UNSIGNED && Lossless(m, n)
    ensures GcdOfTester(m, n) == Some(Gcd(m, n))
    decreases if m < n then m else n
  {
    var big := if m < n then n else m;
    var small := if m < n then m else n;
    var r := Remainder(big, small);
    if r > 0 {
      TesterGcdExact(small, r);
    }
  }

  /** With an argument that fits an int, it is a greatest common divisor that fits. */
  lemma TesterGcdSmall(m: nat, n: nat)
    requires 0 < m < UNSIGNED && 0 < n < UNSIGNED && (m < INT_LIMIT || n < INT_LIMIT)
    ensures GcdOfTester(m, n) == Some(Gcd(m, n)) && 0 < Gcd(m, n) < INT_LIMIT
  {
    SmallLossless(m, n);
    TesterGcdExact(m, n);
    GcdIsGreatest(m, n);
    DividesAtMost(Gcd(m, n), m);
    DividesAtMost(Gcd(m, n), n);
  }

  // ----- when gcd() of tester.h, or a division by its result, traps

  /** The low 32 bits, which are what an int keeps. */
  function Low(x: nat): nat { x % (2 * INT_LIMIT) }

  /** It divides by zero exactly when its smaller argument is lost in the swap: at once, or after a
      remainder that reads as a negative int. */
  lemma TesterGcdTrapsIff(m: nat, n: nat)
    requires m < UNSIGNED && n < UNSIGNED
    ensures GcdOfTester(m, n).None? <==>
              if m < n then Low(m) == 0
              else n == 0 || (Low(n) == 0 && Negative(ThroughInt(Remainder(m, n))))
  {
    if m < n {
      SwappedResult(m, n);
    } else if n != 0 {
      UnswappedResult(m, n, ThroughInt(Remainder(m, n)));
    }
  }

  /** A result that is neither a small positive int nor one that reads as negative. */
  predicate PlainInt(g: nat) { 0 < g < INT_LIMIT || Negative(g) }

  lemma SmallResult(m: nat, n: nat)
    requires 0 < m < UNSIGNED && 0 < n < UNSIGNED && (m < INT_LIMIT || n < INT_LIMIT)
    ensures GcdOfTester(m, n).Some? && 0 < GcdOfTester(m, n).value < INT_LIMIT
  {
    TesterGcdSmall(m, n);
  }

  /** When the second argument reads as a negative int. */
  lemma NegativeResult(m: nat, n: nat)
    requires 0 < m < UNSIGNED && Negative(n)
    ensures GcdOfTester(m, n).None? <==> m < n && Low(m) == 0
    ensures GcdOfTester(m, n).Some? && !(0 < GcdOfTester(m, n).value < INT_LIMIT) ==>
              Negative(GcdOfTester(m, n).value) &&
              GcdOfTester(m, n).value == n && (m < n ==> ThroughInt(m) == n)
  {
    if m < n {
      NegativeSwapped(m, n);
    } else {
      NearRemainder(m, n);
      if m > n { SmallResult(n, m - n); }
    }
  }

  lemma NegativeSwapped(m: nat, n: nat)
    requires 0 < m < n && Negative(n)
    ensures GcdOfTester(m, n).None? <==> Low(m) == 0
    ensures GcdOfTester(m, n).Some? && !(0 < GcdOfTester(m, n).value < INT_LIMIT) ==>
              GcdOfTester(m, n).value == n == ThroughInt(m)
  {
    var s := ThroughInt(m);
    if s != 0 && s < INT_LIMIT {
      SwappedSmall(m, n, s, ThroughInt(Remainder(n, s)));
    } else if s != 0 {
      NearRemainder(n, s);
      NegativeKept(n);
      SwappedNegative(m, n, s);
    }
  }

  lemma SwappedSmall(m: nat, n: nat, s: nat, r: nat)
    requires 0 < m < n < UNSIGNED && s == ThroughInt(m) && 0 < s < INT_LIMIT && r == ThroughInt(Remainder(n, s))
    ensures GcdOfTester(m, n).Some? && 0 < GcdOfTester(m, n).value < INT_LIMIT
  {
    if r != 0 { SmallResult(s, r); }
  }

  lemma SwappedNegative(m: nat, n: nat, s: nat)
    requires 0 < m < n && Negative(n) && s == ThroughInt(m) && Negative(s) && ThroughInt(n) == n
    requires Remainder(n, s) == if n < s then n else n - s
    ensures GcdOfTester(m, n).Some?
    ensures n != s ==> 0 < GcdOfTester(m, n).value < INT_LIMIT
    ensures n == s ==> GcdOfTester(m, n).value == n
  {
    if n > s {
      SmallResult(s, n - s);
    } else if n < s {
      NearRemainder(s, n);
      SmallResult(n, s - n);
    }
  }

  lemma SwappedResult(m: nat, n: nat)
    requires m < n < UNSIGNED
    ensures GcdOfTester(m, n).None? <==> Low(m) == 0
    ensures GcdOfTester(m, n).Some? ==> PlainInt(GcdOfTester(m, n).value)
  {
    var s := ThroughInt(m);
    if s != 0 {
      var r := ThroughInt(Remainder(n, s));
      if 0 < r < INT_LIMIT {
        SmallResult(s, r);
      } else if r != 0 {
        NegativeResult(s, r);
      }
    }
  }

  lemma UnswappedResult(m: nat, n: nat, r: nat)
    requires 0 < n <= m < UNSIGNED && r == ThroughInt(Remainder(m, n))
    ensures GcdOfTester(m, n).None? <==> Low(n) == 0 && Negative(r)
    ensures GcdOfTester(m, n).Some? && r == 0 ==> GcdOfTester(m, n).value == n
    ensures GcdOfTester(m, n).Some? && r != 0 ==> PlainInt(GcdOfTester(m, n).value)
    ensures GcdOfTester(m, n).Some? && r != 0 && Negative(GcdOfTester(m, n).value) ==>
              GcdOfTester(m, n).value == r && (n < r ==> ThroughInt(n) == r)
  {
    if r != 0 {
      UnswappedStep(m, n, r);
      if r < INT_LIMIT { SmallResult(n, r); } else { NegativeResult(n, r); }
    }
  }

  lemma UnswappedStep(m: nat, n: nat, r: nat)
    requires 0 < n <= m < UNSIGNED && r == ThroughInt(Remainder(m, n)) && r != 0
    ensures GcdOfTester(m, n) == GcdOfTester(n, r)
    ensures r < INT_LIMIT || (Negative(r) && (Low(n) == 0 ==> n < r))
  {
    if Negative(r) && Low(n) == 0 { LowZero(n); }
  }

  /** A multiple of 2^32 below 2^64 is below all that read as negative ints. */
  lemma LowZero(n: nat)
    requires n < UNSIGNED && Low(n) == 0
    ensures n < UNSIGNED - INT_LIMIT
  {
  }

  /** Two arguments for which it divides by zero. */
  lemma TesterGcdDividesByZero(m: nat, n: nat)
    requires m == 0x1_0000_0000 && n == 0x2_0000_0000
    ensures GcdOfTester(m, n) == None
  {
    assert ThroughInt(m) == 0;
  }

  /** A remainder of 2^32 is lost in the int: for twice and three times 2^32 the result is 2^33, which
      does not even divide the first. */
  lemma TesterGcdWrong(m: nat, n: nat)
    requires m == 0x3_0000_0000 && n == 0x2_0000_0000
    ensures GcdOfTester(m, n) == Some(n) && !Divides(n, m)
  {
    NearRemainder(m, n);
    var r := Remainder(m, n);
    assert r == 0x1_0000_0000;
    assert ThroughInt(r) == 0;
    if Divides(n, m) {
      var q := Quotient(n, m);
    }
  }

  // ----- least common multiples

  ghost predicate CommonMultiple(l: int, ps: seq<nat>) {
    forall p | p in ps :: Divides(p, l)
  }

  /** l is the least common multiple: every period divides it, and it divides every other multiple. */
  ghost predicate IsLcm(l: int, ps: seq<nat>) {
    && l > 0 && CommonMultiple(l, ps)
    && forall c | CommonMultiple(c, ps) :: Divides(l, c)
  }

  /** The step of taskset_lcm: (m / gcd) * p is the least common multiple of m and p. */
  lemma LcmOfTwo(m: nat, p: nat) returns (a: nat)
    requires 0 < m && 0 < p
    ensures Gcd(m, p) > 0 && m / Gcd(m, p) == a && a * p > 0
    ensures Divides(m, a * p) && Divides(p, a * p)
    ensures forall c | Divides(m, c) && Divides(p, c) :: Divides(a * p, c)
  {
    var x, y := Bezout(m, p);
    var g := Gcd(m, p);
    a := Quotient(g, m);
    var b := Quotient(g, p);
    PositiveFactor(g, a);
    LcmBothWays(m, p, g, a, b);
    AtLeast(p, a);
    Commute(a, p);
    Multiple(m, b);
    Multiple(p, a);
    forall c | Divides(m, c) && Divides(p, c)
      ensures Divides(a * p, c)
    {
      LcmDivides(m, p, g, b, x, y, c);
    }
  }

  lemma LcmBothWays(m: int, p: int, g: int, a: int, b: int)
    requires m == g * a && p == g * b
    ensures a * p == m * b
  {
    Associate(g, a, b);
    Regroup(g, b, a);
  }

  lemma LcmDivides(m: int, p: int, g: int, b: int, x: int, y: int, c: int)
    requires g > 0 && p == g * b && g == x * m + y * p && Divides(m, c) && Divides(p, c)
    ensures Divides(m * b, c)
  {
    var k := Quotient(m, c);
    var j := Quotient(p, c);
    LcmIdentity(m, p, g, b, x, y, c, j, k);
    SameFactor(g, c, (m * b) * (x * j + y * k));
    Multiple(m * b, x * j + y * k);
  }

  lemma LcmIdentity(m: int, p: int, g: int, b: int, x: int, y: int, c: int, j: int, k: int)
    requires p == g * b && g == x * m + y * p && c == p * j && c == m * k
    ensures g * c == g * ((m * b) * (x * j + y * k))
  {
    SplitProduct(x * m, y * p, c);
    Reorder(x, m, p, j);
    Reorder(y, p, m, k);
    Commute(p, m);
    Distribute(m * p, x * j, y * k);
    Reassociate(m, g, b, x * j + y * k);
  }

  lemma SplitProduct(a: int, b: int, c: int)
    ensures (a + b) * c == a * c + b * c
  {
  }

  lemma Reorder(x: int, m: int, p: int, j: int)
    ensures (x * m) * (p * j) == (m * p) * (x * j)
  {
  }

  lemma Commute(a: int, b: int)
    ensures a * b == b * a
  {
  }

  lemma Reassociate(m: int, g: int, b: int, e: int)
    ensures (m * (g * b)) * e == g * ((m * b) * e)
  {
  }
}
