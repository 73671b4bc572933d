/**
 The chunked driver of workload.c: do_work_slope cuts a run into chunks and looks at the abort
 pointer between them.  The workloads it drives keep their cells, nodes and cursors between chunks.
 */
module Workload {
  import opened Iteration
  import opened ArrayWalk
  import opened Bst

  const ABORT_CHECK_US := 1

  // ----- the workloads behind the do_work pointer

  /** Any other workload: do_work performs iterations of one step, in place. */
  class Job<S> {
    const step: S -> S
    var data: S

    constructor (step: S -> S, data: S)
      ensures this.step == step && this.data == data
    {
      this.step := step;
      this.data := data;
    }

    method DoWork(iterations: nat)
      modifies this
      ensures data == Iterate(step, old(data), iterations)
    {
      for i := 0 to iterations
        invariant data == Iterate(step, old(data), i)
      {
        data := step(data);
      }
    }
  }

  /** All the state a workload changes: cells and cursor, or search cursor and false_values. */
  datatype Snapshot<S> =
    | ArrayView(walk: Walk)
    | TreeView(search: Search, falseValues: map<BstNode, int>)
    | JobView(data: S)

  /** struct workload, with its data for one task. */
  datatype Workload<S> =
    | OnArray(walk: ArrayWalkData, dir: Direction)
    | OnTree(bst: BstData)
    | OnJob(job: Job<S>)
  {
    ghost function Own(): set<object> {
      match this
      case OnArray(walk, _) => {walk, walk.cells}
      case OnTree(bst) => {bst}
      case OnJob(job) => {job}
    }

    ghost function Counted(): set<BstNode> {
      if OnTree? then bst.all else {}
    }

    ghost predicate Valid()
      reads Own(), Counted()
    {
      match this
      case OnArray(walk, _) => walk.Valid()
      case OnTree(bst) => bst.Valid()
      case OnJob(_) => true
    }

    ghost function View(): Snapshot<S>
      reads Own(), Counted()
    {
      match this
      case OnArray(walk, _) => ArrayView(walk.View())
      case OnTree(bst) => TreeView(bst.View(), FalseValues(bst.all))
      case OnJob(job) => JobView(job.data)
    }

    /** What n iterations make of a snapshot. */
    ghost function After(s: Snapshot<S>, n: nat): Snapshot<S> {
      match (this, s)
      case (OnArray(_, dir), ArrayView(walk)) => ArrayView(Iterate(Step(dir), walk, n))
      case (OnTree(bst), TreeView(search, counts)) =>
        var e := Iterate(Searching(bst.tree), search, n);
        TreeView(e.(bumped := []), Bumped(counts, e.bumped))
      case (OnJob(job), JobView(data)) => JobView(Iterate(job.step, data, n))
      case _ => s
    }

    /** One call of do_work. */
    method DoWork(iterations: nat)
      requires Valid()
      modifies Own(), Counted()`falseValue
      ensures Valid() && View() == After(old(View()), iterations)
    {
      match this
      case OnArray(walk, dir) => walk.DoWork(dir, iterations);
      case OnTree(bst) => WorkOnTree(bst, iterations);
      case OnJob(job) => job.DoWork(iterations);
    }

    /** A further call, after earlier ones that have done some iterations since the snapshot was. */
    method DoMore(ghost was: Snapshot<S>, ghost done: nat, more: nat)
      requires Valid() && View() == After(was, done) && (was.TreeView? ==> was.search.bumped == [])
      modifies Own(), Counted()`falseValue
      ensures Valid() && View() == After(was, done + more)
    {
      AfterAdd(was, done, more);
      DoWork(more);
    }

    /** Work on the real structures can be cut into calls anywhere. */
    lemma AfterAdd(s: Snapshot<S>, m: nat, n: nat)
      requires s.TreeView? ==> s.search.bumped == []
      ensures After(s, 0) == s && After(After(s, m), n) == After(s, m + n)
    {
      match (this, s)
      case (OnArray(_, dir), ArrayView(walk)) => IterateAdd(Step(dir), walk, m, n);
      case (OnTree(bst), TreeView(search, counts)) => TreeAdd(bst.tree, search, counts, m, n);
      case (OnJob(job), JobView(data)) => IterateAdd(job.step, data, m, n);
      case _ =>
    }
  }

  ghost function FalseValues(nodes: set<BstNode>): map<BstNode, int>
    reads nodes
  {
    map n | n in nodes :: n.falseValue
  }

  method WorkOnTree(bst: BstData, iterations: nat)
    requires bst.Valid()
    modifies bst, bst.all`falseValue
    ensures bst.Valid()
    ensures var e := Iterate(Searching(bst.tree), old(bst.View()), iterations);
            && bst.View() == e.(bumped := [])
            && FalseValues(bst.all) == Bumped(old(FalseValues(bst.all)), e.bumped)
  {
    bst.DoWork(iterations);
  }

  /** The false_values after these nodes were incremented, each as often as it is listed. */
  ghost function Bumped(counts: map<BstNode, int>, nodes: seq<BstNode>): map<BstNode, int> {
    map m | m in counts :: counts[m] + multiset(nodes)[m]
  }

  lemma BumpedAdd(counts: map<BstNode, int>, a: seq<BstNode>, b: seq<BstNode>)
    ensures Bumped(counts, []) == counts && Bumped(Bumped(counts, a), b) == Bumped(counts, a + b)
  {
    assert multiset(a + b) == multiset(a) + multiset(b);
  }

  lemma TreeAdd(t: Tree, search: Search, counts: map<BstNode, int>, m: nat, n: nat)
    requires search.bumped == []
    ensures Bumped(counts, []) == counts
    ensures var step := Searching(t);
            var a := Iterate(step, search, m);
            var b, whole := Iterate(step, a.(bumped := []), n), Iterate(step, search, m + n);
            && whole.(bumped := []) == b.(bumped := [])
            && Bumped(Bumped(counts, a.bumped), b.bumped) == Bumped(counts, whole.bumped)
  {
    var a := Iterate(Searching(t), search, m);
    IterateAdd(Searching(t), search, m, n);
    LogsAppend(t, a, n);
    BumpedAdd(counts, a.bumped, Iterate(Searching(t), a.(bumped := []), n).bumped);
  }

  // ----- the loop of the driver

  /** Converting a non-negative double to unsigned long truncates. */
  function Truncate(x: real): nat
    requires x >= 0.0
  {
    x.Floor
  }

  function Iterations(usage: nat, slope: real): nat
    requires slope >= 0.0
  {
    Truncate(usage as real * slope)
  }

  /** The iterations between two looks at the abort pointer. */
  function Chunk(slope: real): nat
    requires slope >= 0.0
  {
    Truncate(slope * ABORT_CHECK_US as real)
  }

  /** Both counts are truncated, so a call never does more work than its usage and slope ask for. */
  lemma NeverOverestimates(usage: nat, slope: real)
    requires slope >= 0.0
    ensures var n := Iterations(usage, slope) as real; n <= usage as real * slope < n + 1.0
    ensures Chunk(slope) as real <= slope < Chunk(slope) as real + 1.0
  {
    var x := usage as real * slope;
    assert x.Floor as real <= x < x.Floor as real + 1.0;
  }

  /** The abort pointer, by the number of the read: aborts(k) is what read k sees. */
  type AbortReads = nat -> bool

  /** The loop leaves at check k: the k-th read sees an abort, or no full chunk is left. */
  predicate Leaves(aborts: AbortReads, chunk: nat, iterations: nat, k: nat) {
    aborts(k) || !(k * chunk + chunk < iterations)
  }

  /** k is the number of full chunks the loop runs. */
  ghost predicate LeavesFirst(aborts: AbortReads, chunk: nat, iterations: nat, k: nat) {
    Leaves(aborts, chunk, iterations, k) && forall j: nat | j < k :: !Leaves(aborts, chunk, iterations, j)
  }

  ghost predicate Ends(aborts: AbortReads, chunk: nat, iterations: nat) {
    exists k: nat :: Leaves(aborts, chunk, iterations, k)
  }

  /** When the loop of a call ends: a slope of at least one iteration per microsecond, too little usage
      for one iteration, or an abort. */
  ghost predicate Progresses(aborts: AbortReads, usage: nat, slope: real) {
    slope >= 1.0 || usage as real * slope < 1.0 || exists k: nat :: aborts(k)
  }

  /** The loop ends for exactly those calls.  In all others the chunks are empty, and only an abort
      could end it. */
  lemma LoopEndsIff(aborts: AbortReads, usage: nat, slope: real)
    requires slope >= 0.0
    ensures Ends(aborts, Chunk(slope), Iterations(usage, slope)) <==> Progresses(aborts, usage, slope)
  {
    var chunk, iterations := Chunk(slope), Iterations(usage, slope);
    assert chunk >= 1 <==> slope >= 1.0;
    assert iterations == 0 <==> usage as real * slope < 1.0;
    if chunk >= 1 {
      assert iterations * chunk >= iterations by { Grows(iterations, chunk); }
      assert Leaves(aborts, chunk, iterations, iterations);
    } else if iterations == 0 {
      assert Leaves(aborts, chunk, iterations, 0);
    } else {
      forall k: nat
        ensures Leaves(aborts, chunk, iterations, k) <==> aborts(k)
      {
        assert k * chunk == 0;
      }
    }
  }

  /** A concrete call that never ends: 10 microseconds at half an iteration each, with no abort. */
  lemma HalfSlopeNeverEnds(aborts: AbortReads)
    requires forall k: nat :: !aborts(k)
    ensures Iterations(10, 0.5) == 5 && Chunk(0.5) == 0
    ensures !Ends(aborts, Chunk(0.5), Iterations(10, 0.5))
  {
    LoopEndsIff(aborts, 10, 0.5);
  }

  lemma Grows(n: nat, c: nat)
    requires c >= 1
    ensures n * c >= n
  {
  }

  lemma FirstLeave(aborts: AbortReads, chunk: nat, iterations: nat) returns (f: nat)
    requires Ends(aborts, chunk, iterations)
    ensures LeavesFirst(aborts, chunk, iterations, f)
  {
    var k: nat :| Leaves(aborts, chunk, iterations, k);
    f := 0;
    while !Leaves(aborts, chunk, iterations, f)
      invariant f <= k && forall j: nat | j < f :: !Leaves(aborts, chunk, iterations, j)
      decreases k - f
    {
      f := f + 1;
    }
  }

  /** The iterations performed by a call whose loop leaves at check k. */
  function WorkDone(aborts: AbortReads, chunk: nat, iterations: nat, k: nat): nat {
    if !aborts(k + 1) && k * chunk < iterations then iterations else k * chunk
  }

  /** No call performs more than its iterations, and an unaborted call performs exactly them. */
  lemma WorkBounded(aborts: AbortReads, chunk: nat, iterations: nat, k: nat)
    requires LeavesFirst(aborts, chunk, iterations, k)
    ensures WorkDone(aborts, chunk, iterations, k) <= iterations
    ensures (forall j: nat | j <= k + 1 :: !aborts(j)) ==> WorkDone(aborts, chunk, iterations, k) == iterations
  {
    if k > 0 {
      assert !Leaves(aborts, chunk, iterations, k - 1);
      assert (k - 1) * chunk + chunk == k * chunk;
    }
  }

  /** The first k reads are clear, each with a full chunk to do that is not the last work; the next read is
      an abort, or no such chunk is left. */
  ghost predicate ChunksBefore(aborts: AbortReads, chunk: nat, iterations: nat, k: nat) {
    && (forall j: nat | j < k :: !aborts(j) && j * chunk + chunk < iterations)
    && (aborts(k) || k * chunk + chunk >= iterations)
  }

  /** The check before the last call decides: with an abort there only the chunks have been done, without
      one all iterations. */
  lemma LastCheckDecides(aborts: AbortReads, chunk: nat, iterations: nat, k: nat)
    requires LeavesFirst(aborts, chunk, iterations, k)
    ensures WorkDone(aborts, chunk, iterations, k) == if aborts(k + 1) then k * chunk else iterations
    ensures ChunksBefore(aborts, chunk, iterations, k) && (aborts(0) ==> k == 0)
  {
    ChunksCame(aborts, chunk, iterations, k);
    Completes(aborts, chunk, iterations, k);
  }

  lemma ChunksCame(aborts: AbortReads, chunk: nat, iterations: nat, k: nat)
    requires LeavesFirst(aborts, chunk, iterations, k)
    ensures ChunksBefore(aborts, chunk, iterations, k) && (aborts(0) ==> k == 0)
  {
    forall j: nat | j < k
      ensures !aborts(j) && j * chunk + chunk < iterations
    {
      assert !Leaves(aborts, chunk, iterations, j);
    }
    if aborts(0) { assert Leaves(aborts, chunk, iterations, 0); }
  }

  /** With a clear last check, either iterations are left to do or there were none. */
  lemma Completes(aborts: AbortReads, chunk: nat, iterations: nat, k: nat)
    requires LeavesFirst(aborts, chunk, iterations, k)
    ensures k * chunk < iterations || (k * chunk == 0 && iterations == 0)
  {
    if k > 0 {
      assert !Leaves(aborts, chunk, iterations, k - 1);
      NextMultiple(k - 1, chunk);
    }
  }

  /** The loop of do_work_slope: read counts its chunks. */
  method WorkInChunks<S>(w: Workload<S>, aborts: AbortReads, chunk: nat, iterations: nat) returns (i: nat, read: nat)
    requires w.Valid() && Ends(aborts, chunk, iterations)
    modifies w.Own(), w.Counted()`falseValue
    ensures LeavesFirst(aborts, chunk, iterations, read) && i == read * chunk
    ensures w.Valid() && w.View() == w.After(old(w.View()), i)
  {
    i, read := 0, 0;
    ghost var was := w.View();
    ghost var first := FirstLeave(aborts, chunk, iterations);
    w.AfterAdd(was, 0, 0);
    while !aborts(read) && i + chunk < iterations
      invariant read <= first && i == read * chunk
      invariant w.Valid() && w.View() == w.After(was, i)
      decreases first - read
    {
      NextMultiple(read, chunk);
      w.DoMore(was, i, chunk);
      i, read := i + chunk, read + 1;
    }
  }

  lemma NextMultiple(k: nat, c: nat)
    ensures (k + 1) * c == k * c + c
  {
  }

  /** do_work_slope, on the cells, nodes and cursors of the workload itself.  It does k full
      chunks; then the read after the one that ended the loop decides between stopping there and doing
      all iterations. */
  method DoWorkSlope<S>(w: Workload<S>, usage: nat, slope: real, aborts: AbortReads)
    returns (aborted: bool, ghost k: nat)
    requires w.Valid() && slope >= 0.0 && Progresses(aborts, usage, slope)
    modifies w.Own(), w.Counted()`falseValue
    ensures w.Valid()
    ensures var chunk, iterations := Chunk(slope), Iterations(usage, slope);
            && LeavesFirst(aborts, chunk, iterations, k)
            && w.View() == w.After(old(w.View()), WorkDone(aborts, chunk, iterations, k))
            && aborted == aborts(k + 2)
    ensures var chunk, iterations := Chunk(slope), Iterations(usage, slope);
            && ChunksBefore(aborts, chunk, iterations, k)
            && w.View() == w.After(old(w.View()), if aborts(k + 1) then k * chunk else iterations)
    ensures aborts(0) && aborts(1) ==> w.View() == old(w.View())
  {
    var iterations, chunk := Iterations(usage, slope), Chunk(slope);
    LoopEndsIff(aborts, usage, slope);
    ghost var was := w.View();
    var i, read := WorkInChunks(w, aborts, chunk, iterations);
    if !aborts(read + 1) && i < iterations {
      w.DoMore(was, i, iterations - i);
    }
    aborted, k := aborts(read + 2), read;
    LastCheckDecides(aborts, chunk, iterations, k);
    w.AfterAdd(was, 0, 0);
  }

  /** With a chunk of at least one iteration and no abort, chunked work equals one call of do_work. */
  method DoWorkUninterrupted<S>(w: Workload<S>, usage: nat, slope: real) returns (aborted: bool)
    requires w.Valid() && slope >= 1.0
    modifies w.Own(), w.Counted()`falseValue
    ensures w.Valid() && !aborted && w.View() == w.After(old(w.View()), Iterations(usage, slope))
  {
    ghost var k;
    aborted, k := DoWorkSlope(w, usage, slope, _ => false);
    WorkBounded(_ => false, Chunk(slope), Iterations(usage, slope), k);
  }
}
