/**
 Periodic-task arithmetic: the hyper-period of tester.h, release counts and deadlines of task.c, and
 the time subtractions of utils.h and libchronos/chronos_utils.c.
 */
module Periods {
  import opened NumberTheory
  import opened Options

  const THOUSAND := 1000
  const MILLION := 1000000
  const BILLION := 1000000000

  // ----- hyper-period

  /** Storing a product in a 64-bit long. */
  function WrapLong(x: int): (r: int)
    ensures -LONG_LIMIT <= r < LONG_LIMIT && (-LONG_LIMIT <= x < LONG_LIMIT ==> r == x)
  {
    (x + LONG_LIMIT) % UNSIGNED - LONG_LIMIT
  }

  lemma LcmAtMost(l: int, c: int, ps: seq<nat>)
    requires IsLcm(l, ps) && CommonMultiple(c, ps) && c > 0
    ensures l <= c
  {
    DividesAtMost(l, c);
  }

  lemma LcmUnique(a: int, b: int, ps: seq<nat>)
    requires IsLcm(a, ps) && IsLcm(b, ps)
    ensures a == b
  {
    LcmAtMost(a, b, ps);
    LcmAtMost(b, a, ps);
  }

  lemma LcmOfOne(p: nat)
    requires p > 0
    ensures IsLcm(p, [p])
  {
    Multiple(p, 1);
    assert p in [p];
  }

  lemma Transitive(a: int, b: int, c: int)
    requires Divides(a, b) && Divides(b, c)
    ensures Divides(a, c)
  {
    var q := Quotient(a, b);
    var r := Quotient(b, c);
    Associate(a, q, r);
    Multiple(a, q * r);
  }

  /** Adding one more period to a least common multiple. */
  lemma LcmExtend(l: nat, ps: seq<nat>, p: nat) returns (a: nat)
    requires IsLcm(l, ps) && 0 < p
    ensures l / Gcd(l, p) == a && IsLcm(a * p, ps + [p])
  {
    a := LcmOfTwo(l, p);
    forall q | q in ps + [p]
      ensures Divides(q, a * p)
    {
      if q in ps { Transitive(q, l, a * p); }
    }
    forall c | CommonMultiple(c, ps + [p])
      ensures Divides(a * p, c)
    {
      assert p in ps + [p];
      assert CommonMultiple(c, ps) by {
        forall q | q in ps ensures Divides(q, c) { assert q in ps + [p]; }
      }
    }
  }

  /** C division truncates toward zero. */
  function Truncating(a: int, b: int): int
    requires b != 0
  {
    if a >= 0 then a / b else -(-a / b)
  }

  /** Quotient and remainder fit together; the remainder is smaller than the divisor and has the sign of a. */
  lemma TruncatesTowardZero(a: int, b: int)
    requires b != 0
    ensures var r := a - b * Truncating(a, b);
            -Magnitude(b) < r < Magnitude(b) && (a >= 0 ==> r >= 0) && (a <= 0 ==> r <= 0)
  {
    var q := Truncating(a, b);
    if a >= 0 { assert a == b * q + a % b; } else { assert -a == b * -q + -a % b; Opposite(b, q); }
  }

  function Magnitude(b: int): int { if b < 0 then -b else b }

  lemma Opposite(b: int, q: int)
    ensures b * -q == -(b * q)
  {
  }

  /** Storing in a long changes a value by a multiple of 2^64 only. */
  lemma WrapLongCongruent(x: int)
    ensures (WrapLong(x) - x) % UNSIGNED == 0
  {
    var q := (x + LONG_LIMIT) / UNSIGNED;
    assert WrapLong(x) - x == -q * UNSIGNED;
  }

  /** The int GCD of taskset_lcm; None where gcd or the division by its result traps. */
  function Divisor(lcm: int, period: nat): Option<int>
    requires period < UNSIGNED
  {
    var g := GcdOfTester(ToUnsigned(lcm), period);
    if NoDivisor(g) || (lcm == -LONG_LIMIT && ToInt(g.value) == -1) then None else Some(ToInt(g.value))
  }

  /** The result of gcd is missing, or zero as an int. */
  predicate NoDivisor(g: Option<nat>) { g.None? || ToInt(g.value) == 0 }

  /** The loop body of taskset_lcm, in long and unsigned long arithmetic. */
  function LcmStep(lcm: int, period: nat): (r: Option<int>)
    requires period < UNSIGNED
    ensures r.None? <==> Divisor(lcm, period).None?
    ensures r.Some? ==> -LONG_LIMIT <= r.value < LONG_LIMIT
  {
    var d := Divisor(lcm, period);
    if d.None? || d.value == 0 then None
    else Some(WrapLong(ToUnsigned(Truncating(lcm, d.value)) * period))
  }

  predicate Positive(ps: seq<nat>) {
    forall i | 0 <= i < |ps| :: 0 < ps[i] < UNSIGNED
  }

  /** Some common multiple, and so the least one, fits a long. */
  ghost predicate FitsLong(ps: seq<nat>) {
    exists b :: 0 < b < LONG_LIMIT && CommonMultiple(b, ps)
  }

  /** gcd is given an argument that fits an int: the next period, or the multiple so far. */
  ghost predicate NarrowStep(ps: seq<nat>, i: nat)
    requires i < |ps|
  {
    ps[i] < INT_LIMIT || exists b :: 0 < b < INT_LIMIT && CommonMultiple(b, ps[..i])
  }

  ghost predicate NarrowPeriods(ps: seq<nat>) {
    forall i | 0 < i < |ps| :: NarrowStep(ps, i)
  }

  /** While the hyper-period fits a long, one round of the loop adds one period to the multiple. */
  lemma LcmStepExact(l: nat, all: seq<nat>, i: nat)
    requires 0 < i < |all| && Positive(all) && NarrowStep(all, i) && FitsLong(all)
    requires IsLcm(l, all[..i])
    ensures LcmStep(l, all[i]).Some? && IsLcm(LcmStep(l, all[i]).value, all[..i + 1])
  {
    var p := all[i];
    assert p in all;
    var b :| 0 < b < LONG_LIMIT && CommonMultiple(b, all);
    assert all[..i + 1] == all[..i] + [p];
    assert forall q | q in all[..i + 1] :: q in all;
    LcmAtMost(l, b, all[..i]);
    var a := LcmExtend(l, all[..i], p);
    LcmAtMost(a * p, b, all[..i + 1]);
    NarrowArguments(l, all, i);
    LongStep(l, a, p);
  }

  lemma NarrowArguments(l: nat, ps: seq<nat>, i: nat)
    requires i < |ps| && NarrowStep(ps, i) && IsLcm(l, ps[..i])
    ensures l < INT_LIMIT || ps[i] < INT_LIMIT
  {
    if ps[i] >= INT_LIMIT {
      var b :| 0 < b < INT_LIMIT && CommonMultiple(b, ps[..i]);
      LcmAtMost(l, b, ps[..i]);
    }
  }

  lemma LongStep(l: nat, a: nat, p: nat)
    requires 0 < l < LONG_LIMIT && 0 < p < UNSIGNED && (l < INT_LIMIT || p < INT_LIMIT)
    requires a == l / Gcd(l, p) && a * p < LONG_LIMIT
    ensures LcmStep(l, p) == Some(a * p)
  {
    var g := Gcd(l, p);
    NarrowDivisor(l, p, g);
    QuotientAtMost(l, g);
    NarrowQuotient(l, g, a, p);
  }

  lemma NarrowDivisor(l: nat, p: nat, g: nat)
    requires 0 < l < LONG_LIMIT && 0 < p < UNSIGNED && (l < INT_LIMIT || p < INT_LIMIT) && g == Gcd(l, p)
    ensures Divisor(l, p) == Some(g) && 0 < g
  {
    TesterGcdSmall(l, p);
    assert ToInt(g) == g && ToUnsigned(l) == l;
  }

  lemma NarrowQuotient(l: nat, g: nat, a: nat, p: nat)
    requires g > 0 && a == l / g && a <= l < LONG_LIMIT && a * p < LONG_LIMIT
    ensures WrapLong(ToUnsigned(Truncating(l, g)) * p) == a * p
  {
    assert Truncating(l, g) == a && ToUnsigned(a) == a;
  }

  lemma QuotientAtMost(l: nat, g: nat)
    requires g > 0
    ensures l / g <= l
  {
    AtLeast(g, l / g);
    assert l == g * (l / g) + l % g;
    Grows(l / g, g);
  }

  lemma Grows(q: nat, g: nat)
    requires g > 0
    ensures q <= g * q
  {
  }

  lemma LcmStart(all: seq<nat>)
    requires |all| > 0 && Positive(all) && FitsLong(all)
    ensures WrapLong(all[0]) == all[0] && IsLcm(all[0], all[..1])
  {
    var b :| 0 < b < LONG_LIMIT && CommonMultiple(b, all);
    assert all[0] in all;
    DividesAtMost(all[0], b);
    LcmOfOne(all[0]);
    assert all[..1] == [all[0]];
  }

  /** When a round of the loop traps, by the unsigned value u of the multiple so far and the period. */
  predicate StepTraps(u: nat, p: nat) {
    if u < p then Low(u) == 0 else Low(p) == 0 && !(0 < Low(u) < INT_LIMIT)
  }

  /** A round traps, in gcd or in the division by its result, exactly when the smaller of the multiple and
      the period has no bit among its low 32, and, if that is the period, the multiple has none either or
      its low half reads as a negative int. */
  lemma StepTrapsIff(lcm: int, p: nat)
    requires -LONG_LIMIT <= lcm < LONG_LIMIT && 0 < p < UNSIGNED
    ensures LcmStep(lcm, p).None? <==> StepTraps(ToUnsigned(lcm), p)
  {
    DivisorNone(lcm, p, ToUnsigned(lcm));
  }

  lemma DivisorNone(lcm: int, p: nat, u: nat)
    requires -LONG_LIMIT <= lcm < LONG_LIMIT && 0 < p < UNSIGNED && u == ToUnsigned(lcm)
    ensures Divisor(lcm, p).None? <==> StepTraps(u, p)
  {
    SmallestLong(lcm);
    var g := GcdOfTester(u, p);
    if u < p {
      SwappedTraps(u, p);
    } else {
      UnswappedTraps(u, p, ThroughInt(Remainder(u, p)));
      if u == LONG_LIMIT { NotMinusOne(u, p, ThroughInt(Remainder(u, p))); }
    }
  }

  lemma SmallestLong(lcm: int)
    requires -LONG_LIMIT <= lcm < LONG_LIMIT
    ensures ToUnsigned(lcm) == LONG_LIMIT <==> lcm == -LONG_LIMIT
    ensures Low(LONG_LIMIT) == 0
  {
  }

  lemma SwappedTraps(u: nat, p: nat)
    requires u < p < UNSIGNED
    ensures NoDivisor(GcdOfTester(u, p)) <==> Low(u) == 0
  {
    SwappedResult(u, p);
    if GcdOfTester(u, p).Some? { PlainDivisor(GcdOfTester(u, p).value); }
  }

  lemma PlainDivisor(g: nat)
    requires PlainInt(g)
    ensures ToInt(g) != 0 && (ToInt(g) == -1 <==> g == UNSIGNED - 1)
  {
  }

  lemma UnswappedTraps(u: nat, p: nat, r: nat)
    requires 0 < p <= u < UNSIGNED && r == ThroughInt(Remainder(u, p))
    ensures NoDivisor(GcdOfTester(u, p)) <==> Low(p) == 0 && !(0 < Low(u) < INT_LIMIT)
  {
    UnswappedResult(u, p, r);
    if GcdOfTester(u, p).Some? && r != 0 { PlainDivisor(GcdOfTester(u, p).value); }
    if Low(p) == 0 { LowRemainder(u, p); }
    LowOfInt(Remainder(u, p));
    LowOfInt(p);
  }

  lemma LowOfInt(x: nat)
    ensures ThroughInt(x) == 0 <==> Low(x) == 0
    ensures ToInt(x) == 0 <==> Low(x) == 0
    ensures Negative(ThroughInt(x)) <==> Low(x) >= INT_LIMIT
  {
  }

  lemma LowRemainder(u: nat, p: nat)
    requires 0 < p && Low(p) == 0
    ensures Low(Remainder(u, p)) == Low(u)
  {
    var q := EuclidStep(u, p);
    var k := p / (2 * INT_LIMIT);
    var r := Remainder(u, p);
    assert p == 2 * INT_LIMIT * k;
    Associate(2 * INT_LIMIT, k, q);
    LowShift(k * q, r);
  }

  lemma LowShift(k: int, r: nat)
    requires 2 * INT_LIMIT * k + r >= 0
    ensures Low(2 * INT_LIMIT * k + r) == Low(r)
  {
  }

  /** Dividing the smallest long, gcd never returns what reads as the int -1. */
  lemma NotMinusOne(u: nat, p: nat, r: nat)
    requires u == LONG_LIMIT && 0 < p <= u && r == ThroughInt(Remainder(u, p))
    ensures GcdOfTester(u, p).Some? ==> ToInt(GcdOfTester(u, p).value) != -1
  {
    UnswappedResult(u, p, r);
    if GcdOfTester(u, p).Some? && ToInt(GcdOfTester(u, p).value) == -1 {
      var q := EuclidStep(u, p);
      AllOnes(p);
      AllOnes(Remainder(u, p));
      LowOfInt(Remainder(u, p));
      if r != 0 { PlainDivisor(GcdOfTester(u, p).value); }
      TooMany(u, p, q, Remainder(u, p));
    }
  }

  lemma AllOnes(x: nat)
    ensures ToInt(x) == -1 <==> Low(x) == 2 * INT_LIMIT - 1
    ensures ThroughInt(x) == UNSIGNED - 1 <==> Low(x) == 2 * INT_LIMIT - 1
  {
  }

  /** A number with 32 low zeros that is a multiple of one with 32 low ones, with a remainder of either
      kind, is above 2^63. */
  lemma TooMany(u: nat, p: nat, q: nat, r: nat)
    requires Low(u) == 0 && u == p * q + r && p <= u && r < p
    requires Low(p) == 2 * INT_LIMIT - 1 && (Low(r) == 0 || Low(r) == 2 * INT_LIMIT - 1)
    ensures u > LONG_LIMIT
  {
    var M := 2 * INT_LIMIT;
    var k, c, d, low := p / M + 1, r / M, u / M, Low(r);
    OnesTimes(p, k, q);
    var j := q * k + c - d;
    assert q - low == M * j;
    AtLeast(M, j);
    AtLeast(M, -j);
    QuotientTooBig(p, q);
  }

  lemma OnesTimes(p: nat, k: nat, q: nat)
    requires p == 2 * INT_LIMIT * k - 1
    ensures p * q == 2 * INT_LIMIT * (q * k) - q
  {
    var M := 2 * INT_LIMIT;
    Commute(p, q);
    Distribute(q, M * k, 1);
    Regroup(M, k, q);
  }

  lemma QuotientTooBig(p: nat, q: nat)
    requires p >= 2 * INT_LIMIT - 1 && q >= 2 * INT_LIMIT - 1
    ensures p * q > LONG_LIMIT
  {
    var n := 2 * INT_LIMIT - 1;
    SmallerFactors(n, n, p, q);
  }

  lemma SmallerFactors(a: nat, b: nat, p: nat, q: nat)
    requires a <= p && b <= q
    ensures a * b <= p * q
  {
  }

  /** What the loop has in lcm before round i, unless it trapped. */
  function LcmAt(ps: seq<nat>, i: nat): Option<int>
    requires 0 < i <= |ps| && Positive(ps)
  {
    if i == 1 then Some(WrapLong(ps[0]))
    else
      var l := LcmAt(ps, i - 1);
      if l.None? then None else LcmStep(l.value, ps[i - 1])
  }

  /** Round i is reached and traps. */
  predicate TrapsAt(ps: seq<nat>, i: nat)
    requires 0 < i < |ps| && Positive(ps)
  {
    LcmAt(ps, i).Some? && StepTraps(ToUnsigned(LcmAt(ps, i).value), ps[i])
  }

  lemma {:induction false} LcmAtExact(ps: seq<nat>, i: nat)
    requires 0 < i <= |ps| && Positive(ps) && NarrowPeriods(ps) && FitsLong(ps)
    ensures LcmAt(ps, i).Some? && IsLcm(LcmAt(ps, i).value, ps[..i])
  {
    if i == 1 {
      LcmStart(ps);
    } else {
      LcmAtExact(ps, i - 1);
      LcmStepExact(LcmAt(ps, i - 1).value, ps, i - 1);
    }
  }

  lemma {:induction false} LcmAtTraps(ps: seq<nat>, i: nat)
    requires 0 < i <= |ps| && Positive(ps)
    ensures LcmAt(ps, i).Some? ==> -LONG_LIMIT <= LcmAt(ps, i).value < LONG_LIMIT
    ensures LcmAt(ps, i).None? <==> exists j :: 0 < j < i && TrapsAt(ps, j)
  {
    if i > 1 {
      LcmAtTraps(ps, i - 1);
      if LcmAt(ps, i - 1).Some? {
        StepTrapsIff(LcmAt(ps, i - 1).value, ps[i - 1]);
        assert TrapsAt(ps, i - 1) <==> LcmAt(ps, i).None?;
      }
    }
  }

  lemma TrapStays(ps: seq<nat>, i: nat, j: nat)
    requires 0 < i <= j <= |ps| && Positive(ps) && LcmAt(ps, i).None?
    ensures LcmAt(ps, j).None?
  {
    LcmAtTraps(ps, i);
    LcmAtTraps(ps, j);
  }

  /** What the whole loop computes: when every gcd has an argument that fits an int, the least common
      multiple exactly when that fits a long. */
  lemma LcmResult(ps: seq<nat>)
    requires |ps| > 0 && Positive(ps)
    ensures var r := LcmAt(ps, |ps|);
            && (NarrowPeriods(ps) ==> (r.Some? && IsLcm(r.value, ps) <==> FitsLong(ps)))
            && (r.None? <==> exists i :: 0 < i < |ps| && TrapsAt(ps, i))
  {
    assert ps[..|ps|] == ps;
    LcmAtTraps(ps, |ps|);
    if NarrowPeriods(ps) && FitsLong(ps) { LcmAtExact(ps, |ps|); }
  }

  /** taskset_lcm on the positive periods of a task set; None is a division that traps.  When every gcd
      has an argument that fits an int, the result is the least common multiple exactly when that fits a
      long.  Whatever the periods, the loop traps exactly when a round of it does. */
  method TasksetLcm(periods: seq<nat>) returns (r: Option<int>)
    requires |periods| > 0 && Positive(periods)
    ensures NarrowPeriods(periods) ==> (r.Some? && IsLcm(r.value, periods) <==> FitsLong(periods))
    ensures r.None? <==> exists i :: 0 < i < |periods| && TrapsAt(periods, i)
  {
    LcmResult(periods);
    var lcm := WrapLong(periods[0]);
    for i := 1 to |periods|
      invariant LcmAt(periods, i) == Some(lcm)
    {
      var next := LcmStep(lcm, periods[i]);
      if next.None? {
        TrapStays(periods, i + 1, |periods|);
        return None;
      }
      lcm := next.value;
    }
    r := Some(lcm);
  }

  /** Two wide periods: 2^33 is a multiple of 2^32, but the gcd is 2^32 and its int is zero. */
  lemma WidePeriodsTrap(l: nat, p: nat)
    requires l == 0x2_0000_0000 && p == 0x1_0000_0000
    ensures IsLcm(l, [l, p]) && LcmStep(l, p) == None
  {
    Multiple(l, 1);
    Multiple(p, 2);
    StepTrapsIff(l, p);
    forall q | q in [l, p] ensures Divides(q, l) { }
    forall c | CommonMultiple(c, [l, p]) ensures Divides(l, c) { assert l in [l, p]; }
  }

  /** Three periods that fit an int and whose hyper-period, about 2.3 * 10^19, exceeds a long. */
  lemma NarrowPeriodsOverflow(a: nat, b: nat, c: nat)
    requires a == 0x7fff_ffff && b == 0x7fff_fffe && c == 5
    ensures NarrowPeriods([a, b, c]) && IsLcm(a * b * c, [a, b, c]) && !FitsLong([a, b, c])
  {
    var ab := a * b;
    LcmOfOne(a);
    CoprimeNeighbours(a, b);
    var x := LcmExtend(a, [a], b);
    assert [a] + [b] == [a, b];
    NearRemainder(5, 2);
    NearRemainder(2, 1);
    EndsInTwo(ab);
    var y := LcmExtend(ab, [a, b], c);
    assert [a, b] + [c] == [a, b, c];
    if FitsLong([a, b, c]) {
      var m :| 0 < m < LONG_LIMIT && CommonMultiple(m, [a, b, c]);
      LcmAtMost(ab * c, m, [a, b, c]);
    }
  }

  lemma CoprimeNeighbours(a: nat, b: nat)
    requires 1 < b && a == b + 1
    ensures Gcd(a, b) == 1
  {
    NearRemainder(a, b);
    assert Remainder(b, 1) == 0;
    assert Gcd(b, 1) == 1;
  }

  lemma EndsInTwo(n: nat)
    requires n == 0x7fff_ffff * 0x7fff_fffe
    ensures Gcd(n, 5) == 1
  {
    assert Remainder(n, 5) == 2;
    assert Remainder(5, 2) == 1;
    assert Remainder(2, 1) == 0;
    assert Gcd(2, 1) == 1 && Gcd(5, 2) == 1;
  }

  // ----- release counts

  /** calculate_releases: the unsigned int run time in microseconds, and the counts derived from it. */
  function Runtime(runTime: nat): nat {
    (runTime * MILLION) % 0x1_0000_0000
  }

  /** The run time fits the unsigned int exactly up to 4294 seconds; beyond that it is off by a multiple
      of 2^32. */
  lemma RuntimeExact(runTime: nat)
    ensures Runtime(runTime) < 0x1_0000_0000 && (runTime * MILLION - Runtime(runTime)) % 0x1_0000_0000 == 0
    ensures Runtime(runTime) == runTime * MILLION <==> runTime <= 4294
  {
  }

  function MaxReleases(runtime: nat, period: nat): nat
    requires period > 0
  {
    runtime / period
  }

  predicate ExtraRelease(runtime: nat, period: nat)
    requires period > 0
  {
    runtime % period != 0
  }

  /** No task needs an extra release exactly when the run time is a multiple of the hyper-period. */
  lemma NoExtraIffHyperperiod(runtime: nat, periods: seq<nat>, l: int)
    requires IsLcm(l, periods) && forall p | p in periods :: p > 0
    ensures (forall p | p in periods :: !ExtraRelease(runtime, p)) <==> runtime % l == 0
  {
    DividesIffMod(l, runtime);
    forall p | p in periods
      ensures ExtraRelease(runtime, p) <==> !Divides(p, runtime)
    {
      DividesIffMod(p, runtime);
    }
    if runtime % l == 0 {
      forall p | p in periods
        ensures Divides(p, runtime)
      {
        Transitive(p, l, runtime);
      }
    } else if forall p | p in periods :: !ExtraRelease(runtime, p) {
      assert CommonMultiple(runtime, periods);
    }
  }

  // ----- timespecs

  datatype Timespec = Timespec(sec: int, nsec: int) {
    predicate Normal() { 0 <= nsec < BILLION }
    function Nanos(): int { sec * BILLION + nsec }
  }

  /** find_job_deadline for the job with index job. */
  function JobDeadline(start: Timespec, period: nat, job: nat): Timespec {
    var nsec := start.nsec + (job + 1) * period * THOUSAND;
    Timespec(start.sec + nsec / BILLION, nsec % BILLION)
  }

  /** set_period_ts */
  function PeriodTimespec(period: nat): Timespec {
    var sec := period / MILLION;
    Timespec(sec, period * THOUSAND - sec * MILLION * THOUSAND)
  }

  /** timespec_subtract_us */
  function SubtractUs(x: Timespec, y: Timespec): int
    requires x.Normal() && y.Normal()
  {
    var sec, nsec := x.sec - y.sec, x.nsec - y.nsec;
    if nsec < 0 then (sec - 1) * MILLION + (nsec + BILLION) / THOUSAND else sec * MILLION + nsec / THOUSAND
  }

  /** timespec_subtract_ns and subtract_ts: the same code, in unsigned long arithmetic. */
  function SubtractNs(first: Timespec, last: Timespec): nat
    requires first.Normal() && last.Normal()
  {
    var nsec := last.nsec - first.nsec;
    if nsec < 0 then (BILLION + nsec + (last.sec - first.sec - 1) * BILLION) % UNSIGNED
    else (nsec + (last.sec - first.sec) * BILLION) % UNSIGNED
  }

  /** deadline_met of chronos_utils.c */
  predicate DeadlineMet(end: Timespec, deadline: Timespec) {
    end.sec < deadline.sec || (end.sec == deadline.sec && end.nsec <= deadline.nsec)
  }

  /** Deadlines are normalised and exact to the nanosecond. */
  lemma DeadlineExact(start: Timespec, period: nat, job: nat)
    requires start.Normal()
    ensures JobDeadline(start, period, job).Normal()
    ensures JobDeadline(start, period, job).Nanos() == start.Nanos() + (job + 1) * period * THOUSAND
  {
  }

  lemma PeriodExact(period: nat)
    ensures PeriodTimespec(period).Normal() && PeriodTimespec(period).Nanos() == period * THOUSAND
  {
  }

  /** The microsecond difference is the floor of the nanosecond difference over 1000. */
  lemma SubtractUsIsFloor(x: Timespec, y: Timespec)
    requires x.Normal() && y.Normal()
    ensures SubtractUs(x, y) == (x.Nanos() - y.Nanos()) / THOUSAND
  {
  }

  /** The nanosecond difference is exact modulo 2^64, so exact whenever first is not after last. */
  lemma SubtractNsExact(first: Timespec, last: Timespec)
    requires first.Normal() && last.Normal()
    ensures SubtractNs(first, last) == (last.Nanos() - first.Nanos()) % UNSIGNED
    ensures last.Nanos() - first.Nanos() < UNSIGNED ==>
              (SubtractNs(first, last) == last.Nanos() - first.Nanos() <==> first.Nanos() <= last.Nanos())
  {
  }

  /** A job is counted as met by its tardiness exactly when it met its deadline lexicographically. */
  lemma TardinessAgrees(end: Timespec, deadline: Timespec)
    requires end.Normal() && deadline.Normal()
    ensures SubtractUs(deadline, end) >= 0 <==> DeadlineMet(end, deadline)
    ensures DeadlineMet(end, deadline) <==> end.Nanos() <= deadline.Nanos()
  {
    SubtractUsIsFloor(deadline, end);
  }

  /** The counted jobs are exactly those whose deadline is not after the end of the run; the extra
      job, when there is one, is the first whose deadline is. */
  lemma CountedJobsFit(start: Timespec, runtime: nat, period: nat, job: nat)
    requires start.Normal() && period > 0
    ensures job < MaxReleases(runtime, period) <==>
              JobDeadline(start, period, job).Nanos() <= start.Nanos() + runtime * THOUSAND
  {
    DeadlineExact(start, period, job);
    var q := runtime / period;
    assert runtime == period * q + runtime % period;
    Distribute(period, job + 1, q);
    AtLeast(period, job + 1 - q);
    Distribute(period, q, job + 1);
    AtLeast(period, q - (job + 1));
    Commute(period, job + 1);
  }
}
