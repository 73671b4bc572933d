/**
 Registers whose step is linear over the two-element field, as every linear feedback shift register
 is, and how to tell that all their streams have the same, maximal period.  A state is a sum of
 the first states of one stream, so the powers of the step form a commutative ring in which the k-th
 power is known from that one stream.
 */
module LinearRegisters {
  import opened Iteration
  import opened NumberTheory
  import opened Primes

  /** The step, bitwise addition and its zero, the highest bit, and the shift that drops it. */
  datatype Register<!T> = Register(next: T -> T, add: (T, T) -> T, zero: T, top: T -> bool, shift: T -> T)

  /** The laws for three states. */
  ghost predicate Laws<T>(v: Register<T>, x: T, y: T, z: T) {
    && v.add(v.add(x, y), z) == v.add(x, v.add(y, z))
    && v.add(x, y) == v.add(y, x) && v.add(x, x) == v.zero && v.add(x, v.zero) == x
    && v.next(v.add(x, y)) == v.add(v.next(x), v.next(y))
  }

  ghost predicate Linear<T(!new)>(v: Register<T>) {
    v.next(v.zero) == v.zero && forall x, y, z :: Laws(v, x, y, z)
  }

  lemma Zeros<T(!new)>(v: Register<T>, x: T)
    requires Linear(v)
    ensures v.add(v.zero, x) == x && v.add(x, v.zero) == x && v.add(x, x) == v.zero
  {
    assert Laws(v, x, v.zero, x);
  }

  lemma Regrouped<T(!new)>(v: Register<T>, a: T, b: T, c: T, d: T)
    requires Linear(v)
    ensures v.add(v.add(a, b), v.add(c, d)) == v.add(v.add(a, c), v.add(b, d))
  {
    assert Laws(v, a, b, v.add(c, d)) && Laws(v, b, c, d) && Laws(v, c, b, d);
    assert Laws(v, a, c, v.add(b, d));
  }

  /** x when the coefficient is set. */
  function Scale<T>(v: Register<T>, c: bool, x: T): T { if c then x else v.zero }

  /** The sum of those states of the stream from s whose coefficient is set. */
  function Sum<T>(v: Register<T>, c: seq<bool>, s: T): T {
    if c == [] then v.zero else v.add(Scale(v, c[0], s), Sum(v, c[1..], v.next(s)))
  }

  lemma {:induction false} SumZero<T(!new)>(v: Register<T>, c: seq<bool>)
    requires Linear(v)
    ensures Sum(v, c, v.zero) == v.zero
  {
    if c != [] {
      SumZero(v, c[1..]);
      Zeros(v, v.zero);
    }
  }

  lemma {:induction false} SumAdd<T(!new)>(v: Register<T>, c: seq<bool>, x: T, y: T)
    requires Linear(v)
    ensures Sum(v, c, v.add(x, y)) == v.add(Sum(v, c, x), Sum(v, c, y))
  {
    if c == [] {
      Zeros(v, v.zero);
    } else {
      assert Laws(v, x, y, x);
      SumAdd(v, c[1..], v.next(x), v.next(y));
      Zeros(v, v.zero);
      Regrouped(v, Scale(v, c[0], x), Scale(v, c[0], y), Sum(v, c[1..], v.next(x)), Sum(v, c[1..], v.next(y)));
    }
  }

  lemma {:induction false} SumNext<T(!new)>(v: Register<T>, c: seq<bool>, s: T)
    requires Linear(v)
    ensures Sum(v, c, v.next(s)) == v.next(Sum(v, c, s))
  {
    if c != [] {
      SumNext(v, c[1..], v.next(s));
      assert Laws(v, Scale(v, c[0], s), Sum(v, c[1..], v.next(s)), s);
    }
  }

  lemma {:induction false} DrawSum<T(!new)>(v: Register<T>, c: seq<bool>, s: T, k: nat)
    requires Linear(v)
    ensures Iterate(v.next, Sum(v, c, s), k) == Sum(v, c, Iterate(v.next, s, k))
  {
    if k > 0 {
      DrawSum(v, c, s, k - 1);
      SumNext(v, c, Iterate(v.next, s, k - 1));
    }
  }

  lemma {:induction false} SumSwap<T(!new)>(v: Register<T>, c: seq<bool>, d: seq<bool>, s: T)
    requires Linear(v)
    ensures Sum(v, c, Sum(v, d, s)) == Sum(v, d, Sum(v, c, s))
  {
    if c == [] {
      SumZero(v, d);
    } else {
      SumNext(v, d, s);
      SumSwap(v, c[1..], d, v.next(s));
      SumZero(v, d);
      SumAdd(v, d, Scale(v, c[0], s), Sum(v, c[1..], v.next(s)));
    }
  }

  /** Later coordinates apply to the later part of the stream. */
  lemma {:induction false} SumSplit<T(!new)>(v: Register<T>, c: seq<bool>, d: seq<bool>, s: T)
    requires Linear(v)
    ensures Sum(v, c + d, s) == v.add(Sum(v, c, s), Sum(v, d, Iterate(v.next, s, |c|)))
  {
    if c == [] {
      assert c + d == d;
      Zeros(v, Sum(v, d, s));
    } else {
      assert (c + d)[1..] == c[1..] + d;
      SumSplit(v, c[1..], d, v.next(s));
      IterateAdd(v.next, s, 1, |c| - 1);
      assert Iterate(v.next, s, 1) == v.next(Iterate(v.next, s, 0)) == v.next(s);
      var x, y := Scale(v, c[0], s), Sum(v, c[1..], v.next(s));
      assert Laws(v, x, y, Sum(v, d, Iterate(v.next, s, |c|)));
    }
  }

  lemma IterateFront<T>(f: T -> T, a: T, n: nat)
    ensures Iterate(f, a, n + 1) == Iterate(f, f(a), n)
  {
    IterateAdd(f, a, 1, n);
    assert Iterate(f, a, 1) == f(Iterate(f, a, 0)) == f(a);
  }

  // ----- coordinates

  /** The n highest bits of a, from the top. */
  function Coords<T>(v: Register<T>, a: T, n: nat): seq<bool> {
    if n == 0 then [] else [v.top(a)] + Coords(v, v.shift(a), n - 1)
  }

  /** A state is its highest bit plus the step of the rest. */
  ghost predicate Horner<T(!new)>(v: Register<T>, unit: T) {
    forall a :: v.add(Scale(v, v.top(a), unit), v.next(v.shift(a))) == a
  }

  /** A state that n shifts empty is the sum of the first n states after unit, given by its bits. */
  lemma {:induction false} BitsDecide<T(!new)>(v: Register<T>, unit: T, a: T, n: nat)
    requires Linear(v) && Horner(v, unit) && Iterate(v.shift, a, n) == v.zero
    ensures Sum(v, Coords(v, a, n), unit) == a
    decreases n
  {
    if n > 0 {
      var c := v.shift(a);
      IterateFront(v.shift, a, n - 1);
      BitsDecide(v, unit, c, n - 1);
      SumNext(v, Coords(v, c, n - 1), unit);
      CoordsFront(v, a, n - 1);
    }
  }

  lemma CoordsFront<T>(v: Register<T>, a: T, n: nat)
    ensures Coords(v, a, n + 1) == [v.top(a)] + Coords(v, v.shift(a), n)
    ensures Coords(v, a, n + 1)[0] == v.top(a) && Coords(v, a, n + 1)[1..] == Coords(v, v.shift(a), n)
  {
  }

  lemma {:induction false} CoordsSplit<T>(v: Register<T>, a: T, m: nat, n: nat)
    ensures |Coords(v, a, m)| == m
    ensures Coords(v, a, m + n) == Coords(v, a, m) + Coords(v, Iterate(v.shift, a, m), n)
    decreases m
  {
    if m == 0 {
      assert Coords(v, a, 0) == [];
      assert Iterate(v.shift, a, 0) == a;
    } else {
      CoordsSplit(v, v.shift(a), m - 1, n);
      IterateFront(v.shift, a, m - 1);
      CoordsFront(v, a, m - 1);
      CoordsFront(v, a, m - 1 + n);
      FrontOfBoth(v.top(a), Coords(v, v.shift(a), m - 1), Coords(v, Iterate(v.shift, a, m), n));
    }
  }

  lemma FrontOfBoth(t: bool, c: seq<bool>, d: seq<bool>)
    ensures ([t] + c) + d == [t] + (c + d)
  {
  }

  function TwoTo(l: nat): nat { if l == 0 then 1 else 2 * TwoTo(l - 1) }

  /** f applied 2^l times, by doubling. */
  function Repeat<T>(f: T -> T, l: nat, a: T): T {
    if l == 0 then f(a) else Repeat(f, l - 1, Repeat(f, l - 1, a))
  }

  lemma {:induction false} RepeatIs<T>(f: T -> T, l: nat, a: T)
    ensures Repeat(f, l, a) == Iterate(f, a, TwoTo(l))
  {
    if l == 0 {
      assert Iterate(f, a, 0) == a;
    } else {
      RepeatIs(f, l - 1, a);
      RepeatIs(f, l - 1, Repeat(f, l - 1, a));
      IterateAdd(f, a, TwoTo(l - 1), TwoTo(l - 1));
    }
  }

  /** The 2^l highest bits of a applied to the stream from b, by halving. */
  function Multiply<T>(v: Register<T>, l: nat, a: T, b: T): T {
    if l == 0 then Scale(v, v.top(a), b)
    else v.add(Multiply(v, l - 1, a, b), Multiply(v, l - 1, Repeat(v.shift, l - 1, a), Repeat(v.next, l - 1, b)))
  }

  lemma {:induction false} MultiplyIs<T(!new)>(v: Register<T>, l: nat, a: T, b: T)
    requires Linear(v)
    ensures Multiply(v, l, a, b) == Sum(v, Coords(v, a, TwoTo(l)), b)
    decreases l, 1
  {
    if l == 0 {
      assert Coords(v, a, 1) == [v.top(a)];
      Zeros(v, Scale(v, v.top(a), b));
    } else {
      MultiplyHalves(v, l - 1, a, b, Repeat(v.shift, l - 1, a), Repeat(v.next, l - 1, b));
    }
  }

  lemma {:induction false} MultiplyHalves<T(!new)>(v: Register<T>, l: nat, a: T, b: T, c: T, d: T)
    requires Linear(v) && c == Repeat(v.shift, l, a) && d == Repeat(v.next, l, b)
    ensures v.add(Multiply(v, l, a, b), Multiply(v, l, c, d)) == Sum(v, Coords(v, a, 2 * TwoTo(l)), b)
    decreases l + 1, 0
  {
    MultiplyIs(v, l, a, b);
    MultiplyIs(v, l, c, d);
    RepeatIs(v.shift, l, a);
    RepeatIs(v.next, l, b);
    SumHalves(v, TwoTo(l), a, b);
  }

  lemma SumHalves<T(!new)>(v: Register<T>, n: nat, a: T, b: T)
    requires Linear(v)
    ensures Sum(v, Coords(v, a, 2 * n), b) ==
            v.add(Sum(v, Coords(v, a, n), b), Sum(v, Coords(v, Iterate(v.shift, a, n), n), Iterate(v.next, b, n)))
  {
    CoordsSplit(v, a, n, n);
    SumSplit(v, Coords(v, a, n), Coords(v, Iterate(v.shift, a, n), n), b);
  }

  // ----- one stream tells all powers

  /** Every state is the sum of states after unit that its 2^l bits give. */
  ghost predicate Cyclic<T(!new)>(v: Register<T>, unit: T, l: nat) {
    Linear(v) && forall s :: Sum(v, Coords(v, s, TwoTo(l)), unit) == s
  }

  lemma CyclicWhen<T(!new)>(v: Register<T>, unit: T, l: nat)
    requires Linear(v) && Horner(v, unit) && forall s :: Repeat(v.shift, l, s) == v.zero
    ensures Cyclic(v, unit, l)
  {
    forall s
      ensures Sum(v, Coords(v, s, TwoTo(l)), unit) == s
    {
      RepeatIs(v.shift, l, s);
      BitsDecide(v, unit, s, TwoTo(l));
    }
  }

  /** The state k steps after unit is p, so p stands for the k-th power of the step. */
  ghost predicate Power<T>(v: Register<T>, unit: T, k: nat, p: T) {
    Iterate(v.next, unit, k) == p
  }

  lemma PowerApplies<T(!new)>(v: Register<T>, unit: T, l: nat, k: nat, p: T, s: T)
    requires Cyclic(v, unit, l) && Power(v, unit, k, p)
    ensures Iterate(v.next, s, k) == Sum(v, Coords(v, s, TwoTo(l)), p)
  {
    DrawSum(v, Coords(v, s, TwoTo(l)), unit, k);
  }

  lemma PowerProduct<T(!new)>(v: Register<T>, unit: T, l: nat, j: nat, p: T, k: nat, q: T)
    requires Cyclic(v, unit, l) && Power(v, unit, j, p) && Power(v, unit, k, q)
    ensures Power(v, unit, j + k, Multiply(v, l, p, q))
  {
    PowerApplies(v, unit, l, k, q, p);
    IterateAdd(v.next, unit, j, k);
    MultiplyIs(v, l, p, q);
  }

  /** prev undoes one step. */
  ghost predicate Undoes<T(!new)>(v: Register<T>, prev: T -> T) {
    forall x :: prev(v.next(x)) == x
  }

  lemma {:induction false} Injective<T(!new)>(v: Register<T>, prev: T -> T, a: T, b: T, k: nat)
    requires Undoes(v, prev) && Iterate(v.next, a, k) == Iterate(v.next, b, k)
    ensures a == b
  {
    if k > 0 {
      var x, y := Iterate(v.next, a, k - 1), Iterate(v.next, b, k - 1);
      assert prev(v.next(x)) == x && prev(v.next(y)) == y;
      Injective(v, prev, a, b, k - 1);
    }
  }

  /** r is the j-th power when r times the k-th power is the (j + k)-th. */
  lemma PowerQuotient<T(!new)>(v: Register<T>, unit: T, l: nat, prev: T -> T, j: nat, r: T, k: nat, q: T)
    requires Cyclic(v, unit, l) && Undoes(v, prev)
    requires Power(v, unit, j + k, Multiply(v, l, r, q)) && Power(v, unit, k, q)
    ensures Power(v, unit, j, r)
  {
    MultiplyIs(v, l, r, q);
    PowerApplies(v, unit, l, k, q, r);
    IterateAdd(v.next, unit, j, k);
    Injective(v, prev, r, Iterate(v.next, unit, j), k);
  }

  /** When the stream from unit is back after n steps, so is every stream. */
  lemma AllReturn<T(!new)>(v: Register<T>, unit: T, l: nat, n: nat, s: T)
    requires Cyclic(v, unit, l) && Power(v, unit, n, unit)
    ensures Iterate(v.next, s, n) == s
  {
    PowerApplies(v, unit, l, n, unit, s);
  }

  /** When the k-th power plus one has an inverse u, only zero is back after k steps. */
  lemma OnlyZeroReturns<T(!new)>(v: Register<T>, unit: T, l: nat, k: nat, p: T, u: T, s: T)
    requires Cyclic(v, unit, l) && Power(v, unit, k, p)
    requires Multiply(v, l, u, v.add(p, unit)) == unit
    requires Iterate(v.next, s, k) == s
    ensures s == v.zero
  {
    var c, d, w := Coords(v, s, TwoTo(l)), Coords(v, u, TwoTo(l)), v.add(p, unit);
    MultiplyIs(v, l, u, w);
    PowerApplies(v, unit, l, k, p, s);
    SumAdd(v, c, p, unit);
    Zeros(v, s);
    SumSwap(v, c, d, w);
    SumZero(v, d);
  }

  // ----- powers by their numbers

  /** p is the k-th power.  The bound variable keeps a large constant k from being unfolded. */
  ghost predicate Pow<T>(v: Register<T>, unit: T, k: nat, p: T) {
    forall n: nat {:trigger Power(v, unit, n, p)} | n == k :: Power(v, unit, n, p)
  }

  lemma PowIs<T>(v: Register<T>, unit: T, k: nat, p: T)
    ensures Pow(v, unit, k, p) <==> Power(v, unit, k, p)
  {
  }

  lemma FirstPower<T>(v: Register<T>, unit: T)
    ensures Pow(v, unit, 1, v.next(unit))
  {
    assert Iterate(v.next, unit, 0) == unit;
    PowIs(v, unit, 1, v.next(unit));
  }

  lemma NextPower<T>(v: Register<T>, unit: T, k: nat, p: T)
    requires Pow(v, unit, k, p)
    ensures Pow(v, unit, k + 1, v.next(p))
  {
    PowIs(v, unit, k, p);
    PowIs(v, unit, k + 1, v.next(p));
  }

  lemma ProductPower<T(!new)>(v: Register<T>, unit: T, l: nat, j: nat, p: T, k: nat, q: T)
    requires Cyclic(v, unit, l) && Pow(v, unit, j, p) && Pow(v, unit, k, q)
    ensures Pow(v, unit, j + k, Multiply(v, l, p, q))
  {
    PowIs(v, unit, j, p);
    PowIs(v, unit, k, q);
    PowIs(v, unit, j + k, Multiply(v, l, p, q));
    PowerProduct(v, unit, l, j, p, k, q);
  }

  lemma QuotientPower<T(!new)>(v: Register<T>, unit: T, l: nat, prev: T -> T, j: nat, r: T, k: nat, q: T)
    requires Cyclic(v, unit, l) && Undoes(v, prev)
    requires Pow(v, unit, j + k, Multiply(v, l, r, q)) && Pow(v, unit, k, q)
    ensures Pow(v, unit, j, r)
  {
    PowIs(v, unit, j + k, Multiply(v, l, r, q));
    PowIs(v, unit, k, q);
    PowIs(v, unit, j, r);
    PowerQuotient(v, unit, l, prev, j, r, k, q);
  }

  /** The k-th power plus one is invertible. */
  ghost predicate Moves<T(!new)>(v: Register<T>, unit: T, l: nat, k: nat) {
    exists p, u :: Pow(v, unit, k, p) && Multiply(v, l, u, v.add(p, unit)) == unit
  }

  lemma MovedByPower<T(!new)>(v: Register<T>, unit: T, l: nat, k: nat, s: T)
    requires Cyclic(v, unit, l) && Moves(v, unit, l, k) && s != v.zero
    ensures Iterate(v.next, s, k) != s
  {
    var p, u :| Pow(v, unit, k, p) && Multiply(v, l, u, v.add(p, unit)) == unit;
    PowIs(v, unit, k, p);
    if Iterate(v.next, s, k) == s {
      OnlyZeroReturns(v, unit, l, k, p, u, s);
    }
  }

  // ----- periods

  /** Some prime factors whose product is n. */
  function Product(ps: seq<nat>): nat {
    if ps == [] then 1 else ps[0] * Product(ps[1..])
  }

  lemma {:induction false} WholePeriods<T>(next: T -> T, s: T, n: nat, q: nat)
    requires Iterate(next, s, n) == s
    ensures Iterate(next, s, n * q) == s
  {
    if q > 0 {
      WholePeriods(next, s, n, q - 1);
      Distribute(n, q, 1);
      IterateAdd(next, s, n * (q - 1), n);
    }
  }

  /** If a stream is back after m and after n steps, it is back after gcd(m, n) steps. */
  lemma {:induction false} GcdReturns<T>(next: T -> T, s: T, m: nat, n: nat)
    requires m > 0 && n > 0 && Iterate(next, s, m) == s && Iterate(next, s, n) == s
    ensures Iterate(next, s, Gcd(m, n)) == s
    decreases if m < n then m else n
  {
    var big, small := if m < n then n else m, if m < n then m else n;
    var r := Remainder(big, small);
    var q := EuclidStep(big, small);
    WholePeriods(next, s, small, q);
    IterateAdd(next, s, small * q, r);
    if r > 0 {
      GcdReturns(next, s, small, r);
    }
  }

  /** A number that no prime factor of n divides, but that divides n, is 1. */
  lemma {:induction false} NoFactorLeft(t: nat, ps: seq<nat>)
    requires t > 0 && Divides(t, Product(ps))
    requires forall p | p in ps :: Prime(p) && !Divides(p, t)
    ensures t == 1
  {
    if ps == [] {
      DividesAtMost(t, 1);
    } else {
      var p, rest := ps[0], Product(ps[1..]);
      assert p in ps;
      var x, y := Bezout(t, p);
      var g := Gcd(t, p);
      assert g == 1;
      // t divides x * t * rest + y * p * rest = rest
      Multiple(t, rest);
      Combine(t, t * rest, p * rest, x, y);
      Unit(x, t, y, p, rest);
      NoFactorLeft(t, ps[1..]);
    }
  }

  lemma Unit(x: int, t: int, y: int, p: int, r: int)
    requires x * t + y * p == 1
    ensures x * (t * r) + y * (p * r) == r
  {
    SplitProduct(x * t, y * p, r);
    Associate(x, t, r);
    Associate(y, p, r);
  }

  /** If no quotient of n by a prime factor is a period, a divisor of n that is one must be n. */
  lemma NoSmallerPeriod<T>(next: T -> T, s: T, ps: seq<nat>, g: nat, t: nat)
    requires Product(ps) == g * t && g > 0 && t > 0 && Iterate(next, s, g) == s
    requires forall p | p in ps :: Prime(p) && Iterate(next, s, Product(ps) / p) != s
    ensures t == 1
  {
    forall p | p in ps
      ensures !Divides(p, t)
    {
      if Divides(p, t) {
        var e := Quotient(p, t);
        PositiveFactor(p, e);
        Regroup(p, e, g);
        DivideExact(p, g * e);
        WholePeriods(next, s, g, e);
      }
    }
    Commute(g, t);
    Multiple(t, g);
    NoFactorLeft(t, ps);
  }

  /** A stream that is back after the product of some primes, but not after that product divided by any
      of them, is back exactly at its multiples. */
  lemma ExactPeriod<T>(next: T -> T, s: T, ps: seq<nat>, k: nat)
    requires Product(ps) > 0 && Iterate(next, s, Product(ps)) == s
    requires forall p | p in ps :: Prime(p) && Iterate(next, s, Product(ps) / p) != s
    ensures Iterate(next, s, k) == s <==> k % Product(ps) == 0
  {
    var n := Product(ps);
    DividesIffMod(n, k);
    if Divides(n, k) {
      MultipleReturns(next, s, n, k);
    } else if Iterate(next, s, k) == s {
      OnlyMultiples(next, s, ps, k);
    }
  }

  lemma MultipleReturns<T>(next: T -> T, s: T, n: nat, k: nat)
    requires n > 0 && Divides(n, k) && Iterate(next, s, n) == s
    ensures Iterate(next, s, k) == s
  {
    var q := Quotient(n, k);
    WholePeriods(next, s, n, k / n);
  }

  lemma OnlyMultiples<T>(next: T -> T, s: T, ps: seq<nat>, k: nat)
    requires Product(ps) > 0 && Iterate(next, s, Product(ps)) == s && Iterate(next, s, k) == s
    requires forall p | p in ps :: Prime(p) && Iterate(next, s, Product(ps) / p) != s
    ensures Divides(Product(ps), k)
  {
    var n := Product(ps);
    if k == 0 {
      Multiple(n, 0);
    } else {
      var x, y := Bezout(k, n);
      GcdReturns(next, s, k, n);
      var g := Gcd(k, n);
      var t := Quotient(g, n);
      PositiveFactor(g, t);
      NoSmallerPeriod(next, s, ps, g, t);
    }
  }

  lemma QuotientsMove<T(!new)>(v: Register<T>, unit: T, l: nat, ps: seq<nat>, s: T, n: nat)
    requires Cyclic(v, unit, l) && s != v.zero
    requires forall p | p in ps :: Prime(p) && Moves(v, unit, l, n / p)
    ensures forall p | p in ps :: Prime(p) && Iterate(v.next, s, n / p) != s
  {
    forall p | p in ps
      ensures Prime(p) && Iterate(v.next, s, n / p) != s
    {
      MovedByPower(v, unit, l, n / p, s);
    }
  }

  /** All streams but that of zero have the same period: a product of primes whose power is the identity,
      when the power for every quotient by one of the primes moves all states but zero. */
  lemma CommonPeriod<T(!new)>(v: Register<T>, unit: T, l: nat, ps: seq<nat>, s: T, k: nat)
    requires Cyclic(v, unit, l) && Product(ps) > 0 && Pow(v, unit, Product(ps), unit)
    requires forall p | p in ps :: Prime(p) && Moves(v, unit, l, Product(ps) / p)
    requires s != v.zero
    ensures Iterate(v.next, s, k) == s <==> k % Product(ps) == 0
  {
    PowIs(v, unit, Product(ps), unit);
    AllReturn(v, unit, l, Product(ps), s);
    QuotientsMove(v, unit, l, ps, s, Product(ps));
    ExactPeriod(v.next, s, ps, k);
  }
}
