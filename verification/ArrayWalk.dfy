/**
 The array_walk and array_backwards workloads: a cursor strides through an array, one cache line at
 a time, incrementing the cells it lands on.
 */
module ArrayWalk {
  import opened NumberTheory
  import opened Iteration

  const STRIDE := 16   // 64 / sizeof(int)

  datatype Direction = Forward | Backward

  function Residue(x: int, n: int): (r: int)
    requires n > 0
    ensures 0 <= r < n
  {
    x % n
  }

  /** The new cursor, in the unsigned long arithmetic of the C expressions. */
  function Stride(dir: Direction, n: nat, x: nat): (r: nat)
    requires n > 0
    ensures r < n
  {
    match dir
    case Forward => Residue(x + STRIDE, n)
    case Backward => Residue(Residue(n + x - STRIDE, UNSIGNED), n)
  }

  /** A backward stride goes back 16 cells around the array; where the unsigned difference would be
      negative, 2^64 is added first. */
  lemma BackwardStride(n: nat, x: nat)
    requires x < n < LONG_LIMIT
    ensures Stride(Backward, n, x) == Residue(x - STRIDE + (if n + x < STRIDE then UNSIGNED else 0), n)
  {
    var d := n + x - STRIDE;
    assert Residue(d, UNSIGNED) == if d < 0 then d + UNSIGNED else d;
    var y := x - STRIDE + (if n + x < STRIDE then UNSIGNED else 0);
    assert Residue(d, UNSIGNED) == n + y;
    SameResidue(n, y, 1);
  }

  /** The cells and the cursor of a task. */
  datatype Walk = Walk(cells: seq<int>, cursor: nat)

  function Step(dir: Direction): Walk -> Walk {
    (w: Walk) =>
      if w.cursor < |w.cells| then
        Walk(w.cells[w.cursor := w.cells[w.cursor] + 1], Stride(dir, |w.cells|, w.cursor))
      else w
  }

  class ArrayWalkData {
    const cells: array<int>
    var nextElement: nat

    ghost predicate Valid()
      reads this
    {
      nextElement < cells.Length
    }

    ghost function View(): Walk
      reads this, cells
    {
      Walk(cells[..], nextElement)
    }

    constructor (memory: array<int>)
      requires memory.Length > 0
      ensures Valid() && cells == memory && nextElement == 0
    {
      cells := memory;
      nextElement := 0;
    }

    /** array_walk_do_work and array_backwards_do_work. */
    method DoWork(dir: Direction, iterations: nat)
      requires Valid()
      modifies this, cells
      ensures Valid() && View() == Iterate(Step(dir), old(View()), iterations)
    {
      for i := 0 to iterations
        invariant Valid() && View() == Iterate(Step(dir), old(View()), i)
      {
        ghost var w := View();
        cells[nextElement] := cells[nextElement] + 1;
        nextElement := Stride(dir, cells.Length, nextElement);
        assert View() == Step(dir)(w);
      }
    }
  }

  // ----- cursor and counts after k steps

  function Cursor(dir: Direction, n: nat, s: nat, k: nat): (r: nat)
    requires s < n
    ensures r < n
  {
    if k == 0 then s else Stride(dir, n, Cursor(dir, n, s, k - 1))
  }

  /** How often the first k steps land on cell c. */
  function Visits(dir: Direction, n: nat, s: nat, c: nat, k: nat): nat
    requires s < n
  {
    if k == 0 then 0
    else Visits(dir, n, s, c, k - 1) + if Cursor(dir, n, s, k - 1) == c then 1 else 0
  }

  /** What k iterations do: each cell grows by its visits, and only the cursor moves. */
  lemma {:induction false} WalkCounts(dir: Direction, w: Walk, k: nat)
    requires w.cursor < |w.cells|
    ensures var v := Iterate(Step(dir), w, k);
            && |v.cells| == |w.cells| && v.cursor == Cursor(dir, |w.cells|, w.cursor, k)
            && forall c | 0 <= c < |w.cells| ::
                 v.cells[c] == w.cells[c] + Visits(dir, |w.cells|, w.cursor, c, k)
  {
    if k > 0 {
      WalkCounts(dir, w, k - 1);
    }
  }

  // ----- residues

  lemma SameResidue(n: int, x: int, q: int)
    requires n > 0
    ensures Residue(n * q + x, n) == Residue(x, n)
  {
    var p := x / n;
    assert x == n * p + x % n;
    Distribute(n, q, p);
    QuotientUnique(n * q + x, n, q + p, x % n);
  }

  lemma SmallResidue(x: int, n: int)
    requires 0 <= x < n
    ensures Residue(x, n) == x
  {
    QuotientUnique(x, n, 0, x);
  }

  lemma ResidueForm(x: int, n: int) returns (q: int)
    requires n > 0
    ensures x == n * q + Residue(x, n)
  {
    q := x / n;
  }

  /** Two numbers have the same residue exactly when n divides their difference. */
  lemma ResidueIff(n: int, a: int, b: int)
    requires n > 0
    ensures Residue(a, n) == Residue(b, n) <==> Divides(n, a - b)
  {
    if Residue(a, n) == Residue(b, n) {
      var p := ResidueForm(a, n);
      var q := ResidueForm(b, n);
      Distribute(n, p, q);
      Multiple(n, p - q);
    }
    if Divides(n, a - b) {
      var q := Quotient(n, a - b);
      SameResidue(n, b, q);
    }
  }

  lemma ResidueAdd(n: int, a: int, b: int)
    requires n > 0
    ensures Residue(Residue(a, n) + b, n) == Residue(a + b, n)
  {
    var q := ResidueForm(a, n);
    SameResidue(n, Residue(a, n) + b, q);
  }

  // ----- the forward orbit

  /** The forward cursor after k steps. */
  lemma {:induction false} ForwardCursor(n: nat, s: nat, k: nat)
    requires s < n
    ensures Cursor(Forward, n, s, k) == Residue(s + STRIDE * k, n)
  {
    if k == 0 {
      SmallResidue(s, n);
    } else {
      ForwardCursor(n, s, k - 1);
      ResidueAdd(n, s + STRIDE * (k - 1), STRIDE);
    }
  }

  /** g is gcd(n, 16), t the steps of a lap, and g an integer combination of n and 16. */
  ghost predicate Geometry(n: nat, g: nat, t: nat, a: int, x: int, y: int) {
    g > 0 && t > 0 && n == g * t && STRIDE == g * a && g == x * n + y * STRIDE
  }

  lemma FindGeometry(n: nat) returns (g: nat, t: nat, a: int, x: int, y: int)
    requires n > 0
    ensures g == Gcd(n, STRIDE) && Geometry(n, g, t, a, x, y) && t == n / g
  {
    g := Gcd(n, STRIDE);
    x, y := Bezout(n, STRIDE);
    t := Quotient(g, n);
    PositiveFactor(g, t);
    a := Quotient(g, STRIDE);
  }

  /** n divides 16 * d exactly when a lap divides d. */
  lemma LapIff(n: nat, g: nat, t: nat, a: int, x: int, y: int, d: int)
    requires Geometry(n, g, t, a, x, y)
    ensures Divides(n, STRIDE * d) <==> Divides(t, d)
  {
    if Divides(n, STRIDE * d) {
      var k := Quotient(n, STRIDE * d);
      CancelIdentity(g, n, STRIDE, d, x, y, k);
      Associate(g, t, x * d + y * k);
      SameFactor(g, d, t * (x * d + y * k));
      Multiple(t, x * d + y * k);
    }
    if Divides(t, d) {
      var e := Quotient(t, d);
      LapReturns(n, g, t, a, e);
    }
  }

  lemma LapReturns(n: int, g: int, t: int, a: int, e: int)
    requires n == g * t && STRIDE == g * a
    ensures Divides(n, STRIDE * (t * e))
  {
    Associate(g, a, t * e);
    Regroup(t, e, a);
    Associate(g, t, a * e);
    Multiple(n, a * e);
  }

  /** Two steps land on the same cell exactly when they are whole laps apart. */
  lemma SameCellIff(n: nat, g: nat, t: nat, a: int, x: int, y: int, s: nat, i: nat, j: nat)
    requires Geometry(n, g, t, a, x, y) && s < n
    ensures Cursor(Forward, n, s, i) == Cursor(Forward, n, s, j) <==> Divides(t, j - i)
  {
    ForwardCursor(n, s, i);
    ForwardCursor(n, s, j);
    ResidueIff(n, s + STRIDE * j, s + STRIDE * i);
    assert s + STRIDE * j - (s + STRIDE * i) == STRIDE * (j - i);
    LapIff(n, g, t, a, x, y, j - i);
  }

  /** The cursor never leaves its residue class modulo the gcd. */
  lemma CursorClass(n: nat, g: nat, t: nat, a: int, x: int, y: int, s: nat, k: nat)
    requires Geometry(n, g, t, a, x, y) && s < n
    ensures Residue(Cursor(Forward, n, s, k), g) == Residue(s, g)
  {
    ForwardCursor(n, s, k);
    var q := ResidueForm(s + STRIDE * k, n);
    var r := Cursor(Forward, n, s, k);
    // r - s = 16 * k - n * q = g * (a * k - t * q)
    Associate(g, a, k);
    Associate(g, t, q);
    Distribute(g, a * k, t * q);
    Multiple(g, a * k - t * q);
    assert r - s == g * (a * k - t * q);
    ResidueIff(g, r, s);
  }

  /** Every cell congruent to the start modulo the gcd is reached within one lap. */
  lemma Reached(n: nat, g: nat, t: nat, a: int, x: int, y: int, s: nat, c: nat) returns (k: nat)
    requires Geometry(n, g, t, a, x, y) && s < n && c < n && Residue(c, g) == Residue(s, g)
    ensures k < t && Cursor(Forward, n, s, k) == c
  {
    ResidueIff(g, c, s);
    var e := Quotient(g, c - s);
    k := Residue(y * e, t);
    var q := ResidueForm(y * e, t);
    LapReturns(n, g, t, a, q);
    var r := Quotient(n, STRIDE * (t * q));
    ReachIdentity(n, g, x, y, e, t * q, k, c, s, r);
    ForwardCursor(n, s, k);
    ResidueIff(n, s + STRIDE * k, c);
    SmallResidue(c, n);
  }

  lemma ReachIdentity(n: int, g: int, x: int, y: int, e: int, tq: int, k: int, c: int, s: int, r: int)
    requires g == x * n + y * STRIDE && c - s == g * e && y * e == tq + k && STRIDE * tq == n * r
    ensures Divides(n, s + STRIDE * k - c)
  {
    SplitProduct(x * n, y * STRIDE, e);
    Associate(y, STRIDE, e);
    Regroup(STRIDE, e, y);
    Regroup(n, e, x);
    Distribute(n, -(x * e), r);
    Negate(n, x * e);
    Multiple(n, -(x * e) - r);
    assert s + STRIDE * k - c == n * (-(x * e) - r);
  }

  lemma Negate(n: int, z: int)
    ensures n * -z == -(n * z)
  {
  }

  lemma {:induction false} NotVisited(n: nat, s: nat, c: nat, k: nat)
    requires s < n && forall j: nat | j < k :: Cursor(Forward, n, s, j) != c
    ensures Visits(Forward, n, s, c, k) == 0
  {
    if k > 0 { NotVisited(n, s, c, k - 1); }
  }

  lemma {:induction false} VisitedOnce(n: nat, s: nat, c: nat, k: nat, at: nat)
    requires s < n && at < k && Cursor(Forward, n, s, at) == c
    requires forall j: nat | j < k && j != at :: Cursor(Forward, n, s, j) != c
    ensures Visits(Forward, n, s, c, k) == 1
  {
    if at == k - 1 {
      NotVisited(n, s, c, k - 1);
    } else {
      VisitedOnce(n, s, c, k - 1, at);
    }
  }

  lemma LapVisits(n: nat, g: nat, t: nat, a: int, x: int, y: int, s: nat, c: nat)
    requires Geometry(n, g, t, a, x, y) && s < n && c < n
    ensures Visits(Forward, n, s, c, t) == if Residue(c, g) == Residue(s, g) then 1 else 0
  {
    if Residue(c, g) == Residue(s, g) {
      var k := Reached(n, g, t, a, x, y, s, c);
      forall j: nat | j < t && j != k
        ensures Cursor(Forward, n, s, j) != c
      {
        SameCellIff(n, g, t, a, x, y, s, if j < k then j else k, if j < k then k else j);
        TooShort(t, if j < k then k - j else j - k);
      }
      VisitedOnce(n, s, c, t, k);
    } else {
      forall j: nat | j < t
        ensures Cursor(Forward, n, s, j) != c
      {
        CursorClass(n, g, t, a, x, y, s, j);
      }
      NotVisited(n, s, c, t);
    }
  }

  lemma TooShort(t: int, d: int)
    requires 0 < d < t
    ensures !Divides(t, d)
  {
    if Divides(t, d) {
      DividesAtMost(t, d);
    }
  }

  /** One lap of n / gcd(n, 16) steps: the cursor is back where it started, and has incremented each
      cell congruent to the start modulo gcd(n, 16) exactly once and no other cell. */
  lemma OneLap(n: nat, s: nat) returns (g: nat, t: nat)
    requires s < n
    ensures g == Gcd(n, STRIDE) && t == n / g
    ensures Cursor(Forward, n, s, t) == s
    ensures forall c: nat | c < n ::
              Visits(Forward, n, s, c, t) == if Residue(c, g) == Residue(s, g) then 1 else 0
  {
    var a, x, y;
    g, t, a, x, y := FindGeometry(n);
    Multiple(t, 1);
    SameCellIff(n, g, t, a, x, y, s, 0, t);
    forall c: nat | c < n
      ensures Visits(Forward, n, s, c, t) == if Residue(c, g) == Residue(s, g) then 1 else 0
    {
      LapVisits(n, g, t, a, x, y, s, c);
    }
  }

  // ----- backwards undoes forwards

  predicate StepUndone(n: nat, x: nat)
    requires n > 0
  {
    Stride(Backward, n, Stride(Forward, n, x)) == x
  }

  predicate WalkUndone(n: nat, s: nat, k: nat)
    requires s < n
  {
    Cursor(Backward, n, Cursor(Forward, n, s, k), k) == s
  }

  /** One backward stride undoes one forward stride from every cell exactly when the array has at
      least 16 cells or its length divides 2^64: below that the unsigned subtraction wraps. */
  lemma BackwardUndoesIff(n: nat)
    requires 0 < n < LONG_LIMIT
    ensures (forall x: nat | x < n :: StepUndone(n, x)) <==> n >= STRIDE || Divides(n, UNSIGNED)
  {
    forall x: nat | x < n && (n >= STRIDE || Divides(n, UNSIGNED))
      ensures StepUndone(n, x)
    {
      if n >= STRIDE { BackwardUndoes(n, x); } else { WrapHarmless(n, x); }
    }
    if n < STRIDE && !Divides(n, UNSIGNED) {
      var x := WrapHarmful(n);
    }
  }

  lemma BackwardUndoes(n: nat, x: nat)
    requires STRIDE <= n < LONG_LIMIT && x < n
    ensures StepUndone(n, x)
  {
    var y := Stride(Forward, n, x);
    var q := ResidueForm(x + STRIDE, n);
    SmallResidue(n + y - STRIDE, UNSIGNED);
    Distribute(n, 1, q);
    SameResidue(n, x, 1 - q);
    SmallResidue(x, n);
  }

  lemma WrapHarmless(n: nat, x: nat)
    requires 0 < n && x < n && Divides(n, UNSIGNED)
    ensures StepUndone(n, x)
  {
    var y := Stride(Forward, n, x);
    var q := ResidueForm(x + STRIDE, n);
    var p := ResidueForm(n + y - STRIDE, UNSIGNED);
    Multiple(n, 1);
    Combine(n, UNSIGNED, n, -p, 1 - q);
    ResidueIff(n, Residue(n + y - STRIDE, UNSIGNED), x);
    Distribute(n, 1, q);
    Commute(n, 1 - q);
    SmallResidue(x, n);
  }

  lemma WrapHarmful(n: nat) returns (x: nat)
    requires 0 < n < STRIDE && !Divides(n, UNSIGNED)
    ensures x < n && !StepUndone(n, x)
  {
    x := Residue(-STRIDE, n);
    ResidueAdd(n, -STRIDE, STRIDE);
    SmallResidue(0, n);
    SameResidue(UNSIGNED, UNSIGNED + n - STRIDE, -1);
    SmallResidue(UNSIGNED + n - STRIDE, UNSIGNED);
    ResidueIff(n, UNSIGNED + n - STRIDE, -STRIDE);
    if Divides(n, UNSIGNED + n) {
      Multiple(n, 1);
      Combine(n, UNSIGNED + n, n, 1, -1);
    }
  }

  /** k backward steps undo the cursor movement of k forward steps, for every k and start, exactly when
      one step does: for 16 cells or more, or a length dividing 2^64. */
  lemma BackwardUndoesWalk(n: nat)
    requires 0 < n < LONG_LIMIT
    ensures (forall s: nat, k: nat | s < n :: WalkUndone(n, s, k)) <==> n >= STRIDE || Divides(n, UNSIGNED)
  {
    BackwardUndoesIff(n);
    if n >= STRIDE || Divides(n, UNSIGNED) {
      forall s: nat, k: nat | s < n
        ensures WalkUndone(n, s, k)
      {
        UndoSteps(n, s, k);
      }
    } else {
      var x: nat :| x < n && !StepUndone(n, x);
      OneStep(n, x);
      assert !WalkUndone(n, x, 1);
    }
  }

  lemma OneStep(n: nat, x: nat)
    requires x < n
    ensures WalkUndone(n, x, 1) <==> StepUndone(n, x)
  {
    assert Cursor(Forward, n, x, 0) == x && Cursor(Forward, n, x, 1) == Stride(Forward, n, x);
    var y := Cursor(Forward, n, x, 1);
    assert Cursor(Backward, n, y, 0) == y && Cursor(Backward, n, y, 1) == Stride(Backward, n, y);
  }

  lemma {:induction false} UndoSteps(n: nat, s: nat, k: nat)
    requires s < n && forall x: nat | x < n :: StepUndone(n, x)
    ensures WalkUndone(n, s, k)
  {
    if k > 0 {
      var c := Cursor(Forward, n, s, k - 1);
      assert StepUndone(n, c);
      CursorShift(n, Cursor(Forward, n, s, k), k - 1);
      UndoSteps(n, s, k - 1);
    }
  }

  lemma {:induction false} CursorShift(n: nat, s: nat, k: nat)
    requires s < n
    ensures Cursor(Backward, n, s, k + 1) == Cursor(Backward, n, Stride(Backward, n, s), k)
  {
    if k > 0 { CursorShift(n, s, k - 1); }
  }
}
