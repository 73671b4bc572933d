/** The slope lookup of slope.c: a nearest-neighbour scan over the lines of a slope file. */
module Slope {
  datatype Line = Line(wss: int, slope: real)

  predicate NonNegative(lines: seq<Line>) {
    forall l | l in lines :: l.slope >= 0.0
  }

  /** i is the first line with the largest size below the target. */
  ghost predicate IsLower(lines: seq<Line>, target: int, i: int) {
    && 0 <= i < |lines| && lines[i].wss < target
    && (forall j | 0 <= j < |lines| && lines[j].wss < target :: lines[j].wss <= lines[i].wss)
    && (forall j | 0 <= j < i && lines[j].wss < target :: lines[j].wss < lines[i].wss)
  }

  /** i is the first line with the smallest size above the target. */
  ghost predicate IsHigher(lines: seq<Line>, target: int, i: int) {
    && 0 <= i < |lines| && target < lines[i].wss
    && (forall j | 0 <= j < |lines| && target < lines[j].wss :: lines[i].wss <= lines[j].wss)
    && (forall j | 0 <= j < i && target < lines[j].wss :: lines[i].wss < lines[j].wss)
  }

  ghost predicate IsExact(lines: seq<Line>, target: int, i: int) {
    0 <= i < |lines| && lines[i].wss == target && forall j | 0 <= j < i :: lines[j].wss != target
  }

  /** The straight line through two measurements, at the target. */
  function Interpolate(lo: Line, hi: Line, target: int): real
    requires lo.wss != hi.wss
  {
    var between := (target - lo.wss) as real / (hi.wss - lo.wss) as real;
    lo.slope + between * (hi.slope - lo.slope)
  }

  /** The answer the lookup should give: the first exact line, else the interpolation between the
      nearest sizes on both sides, else -1. */
  ghost predicate IsAnswer(lines: seq<Line>, target: int, r: real) {
    if exists i :: IsExact(lines, target, i) then
      exists i :: IsExact(lines, target, i) && r == lines[i].slope
    else if (exists i :: IsLower(lines, target, i)) && exists i :: IsHigher(lines, target, i) then
      exists i, j :: IsLower(lines, target, i) && IsHigher(lines, target, j)
                     && r == Interpolate(lines[i], lines[j], target)
    else r == -1.0
  }

  lemma LowerExtends(lines: seq<Line>, l: Line, target: int, i: int)
    requires IsLower(lines, target, i)
    ensures if target > l.wss > lines[i].wss then IsLower(lines + [l], target, |lines|)
            else IsLower(lines + [l], target, i)
  {
  }

  lemma HigherExtends(lines: seq<Line>, l: Line, target: int, i: int)
    requires IsHigher(lines, target, i)
    ensures if target < l.wss < lines[i].wss then IsHigher(lines + [l], target, |lines|)
            else IsHigher(lines + [l], target, i)
  {
  }

  // The candidates of the scan: a negative slope marks "none yet".

  ghost predicate LowOk(lines: seq<Line>, target: int, wss: int, slope: real) {
    if slope < 0.0 then forall j | 0 <= j < |lines| :: lines[j].wss >= target
    else exists i :: IsLower(lines, target, i) && lines[i] == Line(wss, slope)
  }

  ghost predicate HighOk(lines: seq<Line>, target: int, wss: int, slope: real) {
    if slope < 0.0 then forall j | 0 <= j < |lines| :: lines[j].wss <= target
    else exists i :: IsHigher(lines, target, i) && lines[i] == Line(wss, slope)
  }

  lemma LowStep(lines: seq<Line>, l: Line, target: int, wss: int, slope: real)
    requires LowOk(lines, target, wss, slope) && l.slope >= 0.0
    ensures if l.wss < target && (slope < 0.0 || l.wss > wss) then LowOk(lines + [l], target, l.wss, l.slope)
            else LowOk(lines + [l], target, wss, slope)
  {
    if slope < 0.0 {
      if l.wss < target { assert IsLower(lines + [l], target, |lines|); }
    } else {
      var i :| IsLower(lines, target, i) && lines[i] == Line(wss, slope);
      LowerExtends(lines, l, target, i);
      assert (lines + [l])[i] == lines[i] && (lines + [l])[|lines|] == l;
    }
  }

  lemma HighStep(lines: seq<Line>, l: Line, target: int, wss: int, slope: real)
    requires HighOk(lines, target, wss, slope) && l.slope >= 0.0
    ensures if l.wss > target && (slope < 0.0 || l.wss < wss) then HighOk(lines + [l], target, l.wss, l.slope)
            else HighOk(lines + [l], target, wss, slope)
  {
    if slope < 0.0 {
      if l.wss > target { assert IsHigher(lines + [l], target, |lines|); }
    } else {
      var i :| IsHigher(lines, target, i) && lines[i] == Line(wss, slope);
      HigherExtends(lines, l, target, i);
      assert (lines + [l])[i] == lines[i] && (lines + [l])[|lines|] == l;
    }
  }

  ghost predicate Scanned(lines: seq<Line>, target: int, lo: Line, hi: Line) {
    && (forall j | 0 <= j < |lines| :: lines[j].wss != target)
    && LowOk(lines, target, lo.wss, lo.slope) && HighOk(lines, target, hi.wss, hi.slope)
  }

  /** One line of the scan that is not an exact match. */
  lemma ScanStep(lines: seq<Line>, l: Line, target: int, lo: Line, hi: Line)
    requires Scanned(lines, target, lo, hi) && l.wss != target && l.slope >= 0.0
    ensures Scanned(lines + [l], target,
                    if l.wss < target && (lo.slope < 0.0 || l.wss > lo.wss) then l else lo,
                    if l.wss > target && (hi.slope < 0.0 || l.wss < hi.wss) then l else hi)
  {
    LowStep(lines, l, target, lo.wss, lo.slope);
    HighStep(lines, l, target, hi.wss, hi.slope);
  }

  lemma NoLower(lines: seq<Line>, target: int)
    requires forall j | 0 <= j < |lines| :: lines[j].wss >= target
    ensures !exists i :: IsLower(lines, target, i)
  {
  }

  lemma NoHigher(lines: seq<Line>, target: int)
    requires forall j | 0 <= j < |lines| :: lines[j].wss <= target
    ensures !exists i :: IsHigher(lines, target, i)
  {
  }

  /** The scan's candidates give the answer. */
  lemma ScanAnswers(lines: seq<Line>, target: int, lo: Line, hi: Line)
    requires Scanned(lines, target, lo, hi)
    ensures hi.slope < 0.0 || lo.slope < 0.0 ==> IsAnswer(lines, target, -1.0)
    ensures hi.slope >= 0.0 && lo.slope >= 0.0 ==>
              lo.wss < target < hi.wss && IsAnswer(lines, target, Interpolate(lo, hi, target))
  {
    if lo.slope < 0.0 {
      NoLower(lines, target);
    } else if hi.slope < 0.0 {
      NoHigher(lines, target);
    } else {
      var i :| IsLower(lines, target, i) && lines[i] == lo;
      var j :| IsHigher(lines, target, j) && lines[j] == hi;
    }
  }

  lemma ExactAnswers(lines: seq<Line>, target: int, i: nat)
    requires i < |lines| && lines[i].wss == target && forall j | 0 <= j < i :: lines[j].wss != target
    ensures IsAnswer(lines, target, lines[i].slope)
  {
    assert IsExact(lines, target, i);
  }

  /** get_workload_slope, from the lines of the file on. */
  method GetWorkloadSlope(lines: seq<Line>, target: int) returns (slope: real)
    ensures NonNegative(lines) ==> IsAnswer(lines, target, slope)
  {
    ghost var clean := NonNegative(lines);
    var lowerWss, higherWss := 0, 0;
    var lowerSlope, higherSlope := -1.0, -1.0;
    for i := 0 to |lines|
      invariant clean ==>
                  Scanned(lines[..i], target, Line(lowerWss, lowerSlope), Line(higherWss, higherSlope))
      invariant forall j | 0 <= j < i :: lines[j].wss != target
      invariant (lowerSlope >= 0.0 ==> lowerWss < target) && (higherSlope >= 0.0 ==> target < higherWss)
    {
      var l := lines[i];
      assert lines[..i + 1] == lines[..i] + [l] && l in lines;
      if l.wss == target {
        ExactAnswers(lines, target, i);
        return l.slope;
      }
      if clean {
        ScanStep(lines[..i], l, target, Line(lowerWss, lowerSlope), Line(higherWss, higherSlope));
      }
      if l.wss < target && (lowerSlope < 0.0 || l.wss > lowerWss) {
        lowerWss, lowerSlope := l.wss, l.slope;
      } else if l.wss > target && (higherSlope < 0.0 || l.wss < higherWss) {
        higherWss, higherSlope := l.wss, l.slope;
      }
    }
    assert lines[..|lines|] == lines;
    if clean {
      ScanAnswers(lines, target, Line(lowerWss, lowerSlope), Line(higherWss, higherSlope));
    }
    if higherSlope < 0.0 || lowerSlope < 0.0 {
      return -1.0;
    }
    slope := Interpolate(Line(lowerWss, lowerSlope), Line(higherWss, higherSlope), target);
  }

  // ----- what the answer depends on

  lemma LowerUnique(lines: seq<Line>, target: int, i: int, j: int)
    requires IsLower(lines, target, i) && IsLower(lines, target, j)
    ensures i == j
  {
  }

  lemma HigherUnique(lines: seq<Line>, target: int, i: int, j: int)
    requires IsHigher(lines, target, i) && IsHigher(lines, target, j)
    ensures i == j
  {
  }

  lemma AnswerUnique(lines: seq<Line>, target: int, r: real, s: real)
    requires IsAnswer(lines, target, r) && IsAnswer(lines, target, s)
    ensures r == s
  {
    forall i, j | IsExact(lines, target, i) && IsExact(lines, target, j) ensures i == j {}
    forall i, j | IsLower(lines, target, i) && IsLower(lines, target, j) ensures i == j {
      LowerUnique(lines, target, i, j);
    }
    forall i, j | IsHigher(lines, target, i) && IsHigher(lines, target, j) ensures i == j {
      HigherUnique(lines, target, i, j);
    }
  }

  /** The interpolated slope lies between the neighbours, in proportion to the distance. */
  lemma Between(lo: Line, hi: Line, target: int)
    requires lo.wss < target < hi.wss
    ensures lo.slope <= hi.slope ==> lo.slope <= Interpolate(lo, hi, target) <= hi.slope
    ensures hi.slope <= lo.slope ==> hi.slope <= Interpolate(lo, hi, target) <= lo.slope
    ensures hi.slope != lo.slope ==> Interpolate(lo, hi, target) != lo.slope && Interpolate(lo, hi, target) != hi.slope
  {
    var a, b := (target - lo.wss) as real, (hi.wss - lo.wss) as real;
    var f := a / b;
    Fraction(a, b, f);
    var d := hi.slope - lo.slope;
    var p := f * d;
    assert Interpolate(lo, hi, target) == lo.slope + p;
    if d > 0.0 {
      Shrink(f, d);
    } else if d < 0.0 {
      Shrink(f, -d);
      Negate(f, d);
    }
  }

  /** The interpolated point lies on the line through the two neighbours. */
  lemma OnTheLine(lo: Line, hi: Line, target: int)
    requires lo.wss < hi.wss
    ensures var r := Interpolate(lo, hi, target);
            (r - lo.slope) * (hi.wss - lo.wss) as real == (target - lo.wss) as real * (hi.slope - lo.slope)
  {
    var a, b, d := (target - lo.wss) as real, (hi.wss - lo.wss) as real, hi.slope - lo.slope;
    Cancel(a, b, a / b, d);
  }

  lemma Cancel(a: real, b: real, f: real, d: real)
    requires b != 0.0 && f == a / b
    ensures f * d * b == a * d
  {
    assert f * b == a;
    assert f * d * b == f * b * d;
  }

  lemma Fraction(a: real, b: real, f: real)
    requires 0.0 < a < b && f == a / b
    ensures 0.0 < f < 1.0
  {
    assert f * b == a;
    if f >= 1.0 { Grow(f, b); }
  }

  lemma Grow(f: real, b: real)
    requires f >= 1.0 && b > 0.0
    ensures f * b >= b
  {
    assert (f - 1.0) * b >= 0.0;
  }

  lemma Shrink(f: real, d: real)
    requires 0.0 < f < 1.0 && 0.0 < d
    ensures 0.0 < f * d < d
  {
    assert (1.0 - f) * d > 0.0;
  }

  lemma Negate(f: real, d: real)
    ensures f * -d == -(f * d)
  {
  }

  /** Over non-negative slopes, -1 means: no exact match, and no line on one of the sides. */
  lemma FailureIff(lines: seq<Line>, target: int, r: real)
    requires NonNegative(lines) && IsAnswer(lines, target, r)
    ensures r == -1.0 <==> !(exists i :: IsExact(lines, target, i))
                           && !((exists i :: IsLower(lines, target, i)) && exists i :: IsHigher(lines, target, i))
    ensures r == -1.0 || r >= 0.0
  {
    if exists i :: IsExact(lines, target, i) {
      var i :| IsExact(lines, target, i) && r == lines[i].slope;
      assert lines[i] in lines;
    } else if (exists i :: IsLower(lines, target, i)) && exists i :: IsHigher(lines, target, i) {
      var i, j :| IsLower(lines, target, i) && IsHigher(lines, target, j)
                  && r == Interpolate(lines[i], lines[j], target);
      assert lines[i] in lines && lines[j] in lines;
      Between(lines[i], lines[j], target);
    }
  }

  predicate DistinctSizes(lines: seq<Line>) {
    forall i, j | 0 <= i < j < |lines| :: lines[i].wss != lines[j].wss
  }

  /** With distinct sizes the order of the lines does not matter. */
  lemma OrderIrrelevant(a: seq<Line>, b: seq<Line>, target: int, r: real)
    requires DistinctSizes(a) && DistinctSizes(b) && (forall l :: l in a <==> l in b)
    requires IsAnswer(a, target, r)
    ensures IsAnswer(b, target, r)
  {
    forall j | IsExact(b, target, j)
      ensures exists k :: IsExact(a, target, k)
    {
      var k := Elsewhere(b, a, j);
      assert IsExact(a, target, k);
    }
    if exists i :: IsExact(a, target, i) {
      var k :| IsExact(a, target, k) && r == a[k].slope;
      var j := Elsewhere(a, b, k);
      assert IsExact(b, target, j);
    } else {
      if (exists i :: IsLower(a, target, i)) && exists i :: IsHigher(a, target, i) {
        var i, j :| IsLower(a, target, i) && IsHigher(a, target, j) && r == Interpolate(a[i], a[j], target);
        var x := LowerMoves(a, b, target, i);
        var y := HigherMoves(a, b, target, j);
      } else {
        forall j | IsLower(b, target, j) ensures exists i :: IsLower(a, target, i) {
          var i := LowerMoves(b, a, target, j);
        }
        forall j | IsHigher(b, target, j) ensures exists i :: IsHigher(a, target, i) {
          var i := HigherMoves(b, a, target, j);
        }
      }
    }
  }

  lemma Elsewhere(a: seq<Line>, b: seq<Line>, i: int) returns (j: int)
    requires 0 <= i < |a| && (forall l :: l in a <==> l in b)
    ensures 0 <= j < |b| && b[j] == a[i]
  {
    assert a[i] in b;
    j :| 0 <= j < |b| && b[j] == a[i];
  }

  lemma LowerMoves(a: seq<Line>, b: seq<Line>, target: int, i: int) returns (j: int)
    requires DistinctSizes(b) && (forall l :: l in a <==> l in b) && IsLower(a, target, i)
    ensures IsLower(b, target, j) && b[j] == a[i]
  {
    j := Elsewhere(a, b, i);
    forall k | 0 <= k < |b| && b[k].wss < target
      ensures b[k].wss <= b[j].wss
    {
      var m := Elsewhere(b, a, k);
    }
  }

  lemma HigherMoves(a: seq<Line>, b: seq<Line>, target: int, i: int) returns (j: int)
    requires DistinctSizes(b) && (forall l :: l in a <==> l in b) && IsHigher(a, target, i)
    ensures IsHigher(b, target, j) && b[j] == a[i]
  {
    j := Elsewhere(a, b, i);
    forall k | 0 <= k < |b| && target < b[k].wss
      ensures b[j].wss <= b[k].wss
    {
      var m := Elsewhere(b, a, k);
    }
  }
}
