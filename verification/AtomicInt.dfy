/**
 The lock-free integer of libchronos/atomic_int.h: any number of threads run the
 read / compute / compare-and-swap loop of atomic_int_op against one shared int, their steps
 interleaved in any way.  Every run is linearizable.
 */
module AtomicInt {
  import opened Options

  const INT_MIN := -0x8000_0000
  const INT_RANGE := 0x1_0000_0000

  predicate IsInt(x: int) { INT_MIN <= x < INT_MIN + INT_RANGE }

  /** 32-bit two's complement. */
  function Wrap(x: int): (r: int)
    ensures IsInt(r) && (IsInt(x) ==> r == x)
  {
    (x - INT_MIN) % INT_RANGE + INT_MIN
  }

  function Abs(x: int): nat { if x < 0 then -x else x }

  /** C division truncates toward zero. */
  function TruncDiv(a: int, b: int): int
    requires b != 0
  {
    var q := Abs(a) / Abs(b);
    if (a < 0) == (b < 0) then q else -q
  }

  datatype Op = Add | Sub | Mul | Div | Mod | Unknown | Store

  /** The switch of atomic_int_op; None where the machine traps.  Store is atomic_int_set. */
  function Apply(op: Op, value: int, val: int): (r: Option<int>)
    requires IsInt(value) && IsInt(val)
    ensures r.Some? ==> IsInt(r.value)
  {
    match op
    case Add => Some(Wrap(value + val))
    case Sub => Some(Wrap(value - val))
    case Mul => Some(Wrap(value * val))
    case Div => if val == 0 || (value == INT_MIN && val == -1) then None else Some(Wrap(TruncDiv(value, val)))
    case Mod => if val == 0 || (value == INT_MIN && val == -1) then None
                else Some(Wrap(value - val * TruncDiv(value, val)))
    case Unknown => Some(value)
    case Store => Some(val)
  }

  lemma TruncatedRemainder(value: int, val: int)
    requires val != 0
    ensures value - val * TruncDiv(value, val) ==
            if value < 0 then -(Abs(value) % Abs(val)) else Abs(value) % Abs(val)
  {
    var b, q := Abs(val), Abs(value) / Abs(val);
    assert Abs(value) == b * q + Abs(value) % b;
    Signs(b, q);
  }

  lemma Signs(b: int, q: int)
    ensures -b * q == -(b * q) && b * -q == -(b * q) && -b * -q == b * q
  {
  }

  lemma RemainderAtMost(a: nat, b: nat)
    requires b > 0
    ensures a % b < b && a % b <= a
  {
  }

  /** The remainder of atomic_int_mod is smaller than the divisor and has the sign of the value. */
  lemma ModTruncates(value: int, val: int)
    requires IsInt(value) && IsInt(val) && val != 0 && !(value == INT_MIN && val == -1)
    ensures var r := Apply(Mod, value, val);
            && r.Some? && Abs(r.value) < Abs(val) && Abs(r.value) <= Abs(value)
            && (value >= 0 ==> r.value >= 0) && (value <= 0 ==> r.value <= 0)
            && r.value == value - val * TruncDiv(value, val)
  {
    TruncatedRemainder(value, val);
    RemainderAtMost(Abs(value), Abs(val));
  }

  /** Wrapping changes a value by a multiple of 2^32 only. */
  lemma WrapCongruent(x: int)
    ensures (Wrap(x) - x) % INT_RANGE == 0
  {
    var q := (x - INT_MIN) / INT_RANGE;
    assert Wrap(x) - x == -q * INT_RANGE;
    ModShift(0, q);
  }

  lemma QuotientFits(a: nat, b: nat)
    requires b > 0
    ensures a / b <= a && (b > 1 ==> 2 * (a / b) <= a) && (b == 1 ==> a / b == a)
  {
    var q := a / b;
    assert a == b * q + a % b;
    if b > 1 { assert (b - 2) * q >= 0; }
  }

  lemma QuotientIsInt(value: int, val: int)
    requires IsInt(value) && IsInt(val) && val != 0 && !(value == INT_MIN && val == -1)
    ensures IsInt(TruncDiv(value, val))
  {
    QuotientFits(Abs(value), Abs(val));
  }

  /** Quotient and remainder fit together exactly, with no wrap-around. */
  lemma DivisionExact(value: int, val: int)
    requires IsInt(value) && IsInt(val) && val != 0 && !(value == INT_MIN && val == -1)
    ensures var q, r := Apply(Div, value, val), Apply(Mod, value, val);
            q.Some? && r.Some? && val * q.value + r.value == value
  {
    QuotientIsInt(value, val);
    ModTruncates(value, val);
  }

  // ----- the loop as one thread runs it

  /** The shared int, with every value stored into it so far, in order. */
  class Cell {
    var value: int
    ghost var stores: seq<int>

    constructor (value: int)
      ensures this.value == value && stores == []
    {
      this.value := value;
      stores := [];
    }

    method Store(v: int)
      modifies this
      ensures value == v && stores == old(stores) + [v]
    {
      value := v;
      stores := stores + [v];
    }

    /** The compare-and-swap instruction. */
    method CompareAndSwap(expected: int, v: int) returns (swapped: bool)
      modifies this
      ensures swapped == (old(value) == expected)
      ensures if swapped then value == v && stores == old(stores) + [v]
              else value == old(value) && stores == old(stores)
    {
      swapped := value == expected;
      if swapped {
        Store(v);
      }
    }
  }

  /** What the cell holds after the first k of these stores. */
  function Held(start: int, stores: seq<int>, k: nat): int
    requires k <= |stores|
  {
    if k == 0 then start else stores[k - 1]
  }

  /** atomic_int_op itself.  others are the values that other threads store into the cell, one just
      before each of this thread's first swap attempts; after those it runs undisturbed.  used of them
      are stored before the call is over.  The operation is applied to the value in the cell at the
      very store that takes effect, so no store of another thread is lost; and the loop tries again
      only when such a store changed the value it had read. */
  method AtomicIntOp(op: Op, cell: Cell, val: int, others: seq<int>)
    returns (r: Option<int>, ghost before: int, ghost used: nat)
    requires IsInt(cell.value) && IsInt(val) && forall x | x in others :: IsInt(x)
    modifies cell
    ensures used <= |others| && before == Held(old(cell.value), others, used)
    ensures IsInt(before) && r == Apply(op, before, val)
    ensures cell.stores == old(cell.stores) + others[..used] + if r.Some? then [r.value] else []
    ensures cell.value == if r.Some? then r.value else before
    ensures forall i | 0 <= i < used - 1 :: others[i] != Held(old(cell.value), others, i)
    ensures r.Some? && used < |others| ==> used > 0 && others[used - 1] == Held(old(cell.value), others, used - 1)
  {
    ghost var start := cell.value;
    var i := 0;
    while true
      invariant 0 <= i <= |others|
      invariant IsInt(cell.value) && cell.value == Held(start, others, i)
      invariant cell.stores == old(cell.stores) + others[..i]
      invariant forall j | 0 <= j < i :: others[j] != Held(start, others, j)
      decreases |others| - i
    {
      var value := cell.value;
      r := Apply(op, value, val);
      before, used := value, i;
      if r.None? {
        return;
      }
      if i < |others| {
        cell.Store(others[i]);
        i := i + 1;
      }
      used := i;
      var swapped := cell.CompareAndSwap(value, r.value);
      if swapped {
        return;
      }
    }
  }

  // ----- threads and their steps

  datatype Call = Call(id: nat, op: Op, val: int, began: nat)

  /** Where a thread is in atomic_int_op.  seen is the length of the log at its last read. */
  datatype Thread =
    | Idle
    | AtRead(call: Call)
    | AtCompute(call: Call, value: int, seen: nat)
    | AtSwap(call: Call, value: int, newValue: int, seen: nat)
    | AtReturn(call: Call, result: int)
    | Trapped(call: Call)

  /** One operation that took effect, with the step at which it did. */
  datatype Entry = Entry(call: Call, result: int, time: nat)

  datatype Return = Return(call: Call, result: int, time: nat)

  datatype State = State(shared: int, threads: map<nat, Thread>, time: nat, nextId: nat,
                         log: seq<Entry>, finished: seq<Return>)

  datatype Step =
    | Invoke(thread: nat, op: Op, val: int)
    | Advance(thread: nat)      // the thread's next step: read, compute, swap or return

  function At(s: State, t: nat): Thread {
    if t in s.threads then s.threads[t] else Idle
  }

  function Move(s: State, t: nat, to: Thread): State {
    s.(threads := s.threads[t := to], time := s.time + 1)
  }

  /** One step of one thread; None when that thread has no such step. */
  function Next(s: State, step: Step): Option<State>
    requires IsInt(s.shared)
  {
    match step
    case Invoke(t, op, val) =>
      if At(s, t) != Idle || !IsInt(val) then None
      else
        var call := Call(s.nextId, op, val, s.time);
        Some(Move(s, t, AtRead(call)).(nextId := s.nextId + 1))
    case Advance(t) =>
      match At(s, t)
      case Idle => None
      case Trapped(_) => None
      case AtRead(call) => Some(Move(s, t, AtCompute(call, s.shared, |s.log|)))
      case AtCompute(call, value, seen) =>
        if !IsInt(value) || !IsInt(call.val) then None
        else
          var r := Apply(call.op, value, call.val);
          Some(Move(s, t, if r.None? then Trapped(call) else AtSwap(call, value, r.value, seen)))
      case AtSwap(call, value, newValue, seen) =>
        // A plain store (atomic_int_set) does not compare.
        if s.shared == value || call.op == Store then
          Some(Move(s, t, AtReturn(call, newValue)).(
            shared := newValue, log := s.log + [Entry(call, newValue, s.time)]))
        else Some(Move(s, t, AtRead(call)))
      case AtReturn(call, result) =>
        Some(Move(s, t, Idle).(finished := s.finished + [Return(call, result, s.time)]))
  }

  function Initial(value: int): State {
    State(value, map[], 0, 0, [], [])
  }

  ghost predicate Reaches(s: State, steps: seq<Step>, s': State)
    decreases |steps|
  {
    if steps == [] then s' == s
    else IsInt(s.shared) && Next(s, steps[0]).Some? && Reaches(Next(s, steps[0]).value, steps[1..], s')
  }

  // ----- the sequential specification

  /** The value after applying the logged operations one after another to init. */
  ghost function Fold(init: int, log: seq<Entry>): Option<int>
    requires IsInt(init)
    ensures Fold(init, log).Some? ==> IsInt(Fold(init, log).value)
    decreases |log|
  {
    if log == [] then Some(init) else
      var before := Fold(init, log[..|log| - 1]);
      var e := log[|log| - 1];
      if before.None? || !IsInt(e.call.val) then None else Apply(e.call.op, before.value, e.call.val)
  }

  /** Entry k is what the sequential object answers to its k-th operation. */
  ghost predicate Answers(init: int, log: seq<Entry>, k: nat)
    requires IsInt(init) && k < |log|
  {
    Fold(init, log[..k + 1]) == Some(log[k].result)
  }

  ghost predicate Logged(s: State, call: Call, result: int, k: int) {
    0 <= k < |s.log| && s.log[k].call == call && s.log[k].result == result
    && call.began < s.log[k].time < s.time
  }

  /** The call took effect between its invocation and its return, and returned its logged answer. */
  ghost predicate TookEffect(s: State, r: Return) {
    exists k :: Logged(s, r.call, r.result, k) && s.log[k].time < r.time < s.time
  }

  /** Linearizability: the shared value is the sequential object's value after the log; the log has
      each call at most once, in the order in which the calls took effect, each with the sequential
      object's answer; and every call that returned is in it. */
  ghost predicate Linearized(s: State, init: int)
    requires IsInt(init)
  {
    && Fold(init, s.log) == Some(s.shared)
    && (forall k | 0 <= k < |s.log| :: Answers(init, s.log, k))
    && (forall j, k | 0 <= j < k < |s.log| :: s.log[j].call.id != s.log[k].call.id)
    && (forall j, k | 0 <= j < k < |s.log| :: s.log[j].time < s.log[k].time)
    && (forall r | r in s.finished :: TookEffect(s, r))
  }

  // ----- the invariant

  ghost predicate Pending(s: State, call: Call) {
    && call.id < s.nextId && IsInt(call.val) && call.began < s.time
    && forall k | 0 <= k < |s.log| :: s.log[k].call.id != call.id
  }

  ghost predicate ThreadOk(s: State, init: int, th: Thread)
    requires IsInt(init)
  {
    var ok :=
      match th
      case Idle => true
      case AtRead(call) => Pending(s, call)
      case AtCompute(call, value, seen) =>
        Pending(s, call) && seen <= |s.log| && Fold(init, s.log[..seen]) == Some(value)
      case AtSwap(call, value, newValue, seen) =>
        Pending(s, call) && seen <= |s.log| && Fold(init, s.log[..seen]) == Some(value)
        && IsInt(value) && Apply(call.op, value, call.val) == Some(newValue)
      case AtReturn(call, result) => exists k :: Logged(s, call, result, k)
      case Trapped(call) => Pending(s, call);
    ok
  }

  /** The calls in progress belong to different threads. */
  ghost predicate OwnCalls(s: State) {
    forall t, u | t in s.threads && u in s.threads && t != u
                  && s.threads[t] != Idle && s.threads[u] != Idle ::
      s.threads[t].call.id != s.threads[u].call.id
  }

  ghost predicate Inv(s: State, init: int)
    requires IsInt(init)
  {
    && IsInt(s.shared) && Linearized(s, init) && OwnCalls(s)
    && (forall t | t in s.threads :: ThreadOk(s, init, s.threads[t]))
    && (forall t | t in s.threads && s.threads[t] != Idle :: s.threads[t].call.id < s.nextId)
    && (forall k | 0 <= k < |s.log| :: s.log[k].call.id < s.nextId && s.log[k].time < s.time)
  }

  // ----- every step keeps the invariant

  lemma FoldSnoc(init: int, log: seq<Entry>, e: Entry)
    requires IsInt(init)
    ensures (log + [e])[..|log|] == log
    ensures Fold(init, log + [e]) ==
            if Fold(init, log).None? || !IsInt(e.call.val) then None
            else Apply(e.call.op, Fold(init, log).value, e.call.val)
  {
    assert (log + [e])[..|log|] == log;
  }

  lemma TookEffectLater(s: State, s': State, r: Return)
    requires TookEffect(s, r) && s.log <= s'.log && s.time <= s'.time
    ensures TookEffect(s', r)
  {
    var k :| Logged(s, r.call, r.result, k) && s.log[k].time < r.time < s.time;
    assert Logged(s', r.call, r.result, k);
  }

  /** A step that leaves the log alone: only the moving thread and the clock change. */
  lemma QuietStep(s: State, s': State, init: int, t: nat, to: Thread)
    requires IsInt(init) && Inv(s, init)
    requires s' == Move(s, t, to).(nextId := s'.nextId) && s.nextId <= s'.nextId
    requires ThreadOk(s', init, to)
    requires to != Idle ==>
               && to.call.id < s'.nextId
               && (to.call.id == s.nextId || (At(s, t) != Idle && At(s, t).call == to.call))
    ensures Inv(s', init)
  {
    forall r | r in s'.finished
      ensures TookEffect(s', r)
    {
      TookEffectLater(s, s', r);
    }
    forall u | u in s'.threads
      ensures ThreadOk(s', init, s'.threads[u])
    {
      if u != t {
        ThreadOkLater(s, s', init, s.threads[u]);
      }
    }
  }

  /** Other threads do not notice a step that logs nothing. */
  lemma ThreadOkLater(s: State, s': State, init: int, th: Thread)
    requires IsInt(init) && ThreadOk(s, init, th)
    requires s'.log == s.log && s.time <= s'.time && s.nextId <= s'.nextId
    ensures ThreadOk(s', init, th)
  {
    if th.AtReturn? {
      var k :| Logged(s, th.call, th.result, k);
      assert Logged(s', th.call, th.result, k);
    }
  }

  /** Other threads do not notice a swap of a call that is not theirs. */
  lemma ThreadOkAfterSwap(s: State, s': State, init: int, th: Thread, e: Entry)
    requires IsInt(init) && ThreadOk(s, init, th) && (th != Idle ==> th.call.id != e.call.id)
    requires s'.log == s.log + [e] && s.time <= s'.time && s.nextId <= s'.nextId
    ensures ThreadOk(s', init, th)
  {
    match th
    case AtReturn(call, result) =>
      var k :| Logged(s, call, result, k);
      assert Logged(s', call, result, k);
    case AtCompute(call, value, seen) =>
      assert s'.log[..seen] == s.log[..seen];
    case AtSwap(call, value, newValue, seen) =>
      assert s'.log[..seen] == s.log[..seen];
    case _ =>
  }

  /** Logging one more operation at its answer keeps the state linearized. */
  lemma LogGrows(s: State, s': State, init: int, e: Entry)
    requires IsInt(init) && Linearized(s, init) && IsInt(s.shared) && IsInt(e.call.val)
    requires Apply(e.call.op, s.shared, e.call.val) == Some(e.result) && s'.shared == e.result
    requires s'.log == s.log + [e] && s'.finished == s.finished && s.time < s'.time
    requires forall k | 0 <= k < |s.log| :: s.log[k].call.id != e.call.id && s.log[k].time < e.time
    ensures Linearized(s', init)
  {
    FoldSnoc(init, s.log, e);
    forall k | 0 <= k < |s'.log|
      ensures Answers(init, s'.log, k)
    {
      if k < |s.log| {
        assert Answers(init, s.log, k) && s'.log[..k + 1] == s.log[..k + 1];
      } else {
        assert s'.log[..k + 1] == s'.log;
      }
    }
    forall r | r in s'.finished
      ensures TookEffect(s', r)
    {
      TookEffectLater(s, s', r);
    }
  }

  /** The step that takes effect. */
  lemma SwapStep(s: State, s': State, init: int, t: nat)
    requires IsInt(init) && Inv(s, init) && t in s.threads && s.threads[t].AtSwap?
    requires s.shared == s.threads[t].value || s.threads[t].call.op == Store
    requires Next(s, Advance(t)) == Some(s')
    ensures Inv(s', init)
  {
    var AtSwap(call, value, newValue, seen) := s.threads[t];
    assert ThreadOk(s, init, s.threads[t]);
    var e := Entry(call, newValue, s.time);
    assert s'.log == s.log + [e];
    LogGrows(s, s', init, e);
    assert Logged(s', call, newValue, |s.log|);
    forall u | u in s'.threads
      ensures ThreadOk(s', init, s'.threads[u])
    {
      if u != t {
        ThreadOkAfterSwap(s, s', init, s.threads[u], e);
      }
    }
  }

  /** The step that hands the result to the caller. */
  lemma ReturnStep(s: State, s': State, init: int, t: nat)
    requires IsInt(init) && Inv(s, init) && t in s.threads && s.threads[t].AtReturn?
    requires Next(s, Advance(t)) == Some(s')
    ensures Inv(s', init)
  {
    var AtReturn(call, result) := s.threads[t];
    assert ThreadOk(s, init, s.threads[t]);
    var last :| Logged(s, call, result, last);
    assert Logged(s', call, result, last);
    forall r | r in s'.finished
      ensures TookEffect(s', r)
    {
      if r in s.finished {
        TookEffectLater(s, s', r);
      } else {
        assert s'.log[last].time < r.time < s'.time;
      }
    }
    forall u | u in s'.threads
      ensures ThreadOk(s', init, s'.threads[u])
    {
      if u != t {
        ThreadOkLater(s, s', init, s.threads[u]);
      }
    }
  }

  lemma StepKeepsInv(s: State, step: Step, init: int)
    requires IsInt(init) && Inv(s, init) && Next(s, step).Some?
    ensures Inv(Next(s, step).value, init)
  {
    var s' := Next(s, step).value;
    var t := step.thread;
    match step
    case Invoke(_, op, val) =>
      QuietStep(s, s', init, t, s'.threads[t]);
    case Advance(_) =>
      assert ThreadOk(s, init, s.threads[t]);
      match s.threads[t]
      case AtSwap(call, value, newValue, seen) =>
        if s.shared == value || call.op == Store {
          SwapStep(s, s', init, t);
        } else {
          QuietStep(s, s', init, t, s'.threads[t]);
        }
      case AtReturn(call, result) =>
        ReturnStep(s, s', init, t);
      case AtRead(call) =>
        assert s.log[..|s.log|] == s.log;
        QuietStep(s, s', init, t, s'.threads[t]);
      case AtCompute(_, _, _) =>
        QuietStep(s, s', init, t, s'.threads[t]);
  }

  /** Any number of threads, any interleaving: every reachable state is linearized. */
  lemma {:induction false} RunsAreLinearizable(s: State, steps: seq<Step>, s': State, init: int)
    requires IsInt(init) && Inv(s, init) && Reaches(s, steps, s')
    ensures Inv(s', init) && Linearized(s', init)
    decreases |steps|
  {
    if steps != [] {
      StepKeepsInv(s, steps[0], init);
      RunsAreLinearizable(Next(s, steps[0]).value, steps[1..], s', init);
    }
  }

  lemma FromTheStart(init: int, steps: seq<Step>, s': State)
    requires IsInt(init) && Reaches(Initial(init), steps, s')
    ensures Linearized(s', init)
  {
    assert Fold(init, []) == Some(init);
    RunsAreLinearizable(Initial(init), steps, s', init);
  }

  // ----- consequences for callers

  /** Real-time order: a call that returned before another began comes earlier in the log. */
  lemma LogRespectsRealTime(s: State, init: int, a: Return, b: Return)
    requires IsInt(init) && Linearized(s, init)
    requires a in s.finished && b in s.finished && a.time <= b.call.began
    ensures exists j, k :: 0 <= j < k < |s.log| && s.log[j].call == a.call && s.log[k].call == b.call
  {
    assert TookEffect(s, a) && TookEffect(s, b);
    var j :| Logged(s, a.call, a.result, j) && s.log[j].time < a.time < s.time;
    var k :| Logged(s, b.call, b.result, k) && s.log[k].time < b.time < s.time;
    assert s.log[j].time < s.log[k].time;
    assert j < k;
  }

  /** Lock freedom: a swap fails only when another call took effect since this thread's read. */
  lemma FailedSwapMeansProgress(s: State, init: int, t: nat)
    requires IsInt(init) && Inv(s, init) && t in s.threads && s.threads[t].AtSwap?
    requires s.shared != s.threads[t].value
    ensures s.threads[t].seen < |s.log|
    ensures forall k | s.threads[t].seen <= k < |s.log| :: s.log[k].call.id != s.threads[t].call.id
  {
    assert ThreadOk(s, init, s.threads[t]);
    assert s.log[..|s.log|] == s.log;
  }

  /** The calls that a run issues, in order. */
  ghost function Issued(steps: seq<Step>): seq<Step> {
    if steps == [] then [] else IssuedBy(steps[0]) + Issued(steps[1..])
  }

  ghost function IssuedBy(step: Step): seq<Step> {
    if step.Invoke? then [step] else []
  }

  /** The call is the one issued under its number, with the operation and value it was issued with. */
  ghost predicate IsIssued(call: Call, issued: seq<Step>) {
    call.id < |issued| && issued[call.id].Invoke?
    && call.op == issued[call.id].op && call.val == issued[call.id].val
  }

  ghost predicate InProgress(s: State, id: nat) {
    exists t :: t in s.threads && s.threads[t] != Idle && s.threads[t].call.id == id
  }

  ghost predicate HasReturned(s: State, id: nat) {
    exists r :: r in s.finished && r.call.id == id
  }

  /** Every issued call is in progress or has returned, and every call anywhere is an issued one. */
  ghost predicate Kept(s: State, issued: seq<Step>) {
    && |issued| == s.nextId
    && (forall id: nat | id < s.nextId :: InProgress(s, id) || HasReturned(s, id))
    && AllIssued(s, issued)
  }

  ghost predicate AllIssued(s: State, issued: seq<Step>) {
    && (forall t | t in s.threads && s.threads[t] != Idle :: IsIssued(s.threads[t].call, issued))
    && (forall k | 0 <= k < |s.log| :: IsIssued(s.log[k].call, issued))
    && (forall r | r in s.finished :: IsIssued(r.call, issued))
  }

  lemma Associate(a: seq<Step>, b: seq<Step>, c: seq<Step>)
    ensures a + b + c == a + (b + c)
  {
  }

  lemma StillThere(s: State, s': State, t: nat, id: nat)
    requires InProgress(s, id) || HasReturned(s, id)
    requires s.finished <= s'.finished && t in s'.threads
    requires forall u | u in s.threads && u != t :: u in s'.threads && s'.threads[u] == s.threads[u]
    requires t in s.threads && s.threads[t] != Idle ==>
               if s'.threads[t] == Idle then HasReturned(s', s.threads[t].call.id)
               else s'.threads[t].call.id == s.threads[t].call.id
    ensures InProgress(s', id) || HasReturned(s', id)
  {
    if HasReturned(s, id) {
      var r :| r in s.finished && r.call.id == id;
      assert r in s'.finished;
    } else {
      var u :| u in s.threads && s.threads[u] != Idle && s.threads[u].call.id == id;
      if s'.threads[u] != Idle { assert s'.threads[u].call.id == id; }
    }
  }

  lemma StepKeeps(s: State, step: Step, issued: seq<Step>)
    requires IsInt(s.shared) && Kept(s, issued) && Next(s, step).Some?
    ensures Kept(Next(s, step).value, issued + IssuedBy(step))
  {
    var s', t := Next(s, step).value, step.thread;
    if step.Advance? {
      if s.threads[t].AtReturn? {
        assert Return(s.threads[t].call, s.threads[t].result, s.time) in s'.finished;
      }
    } else {
      assert s'.threads[t].call.id == s.nextId;
    }
    AllThere(s, s', t);
    StepIssues(s, step, issued);
  }

  lemma StepIssues(s: State, step: Step, issued: seq<Step>)
    requires IsInt(s.shared) && |issued| == s.nextId && AllIssued(s, issued) && Next(s, step).Some?
    ensures AllIssued(Next(s, step).value, issued + IssuedBy(step))
    ensures s.nextId + |IssuedBy(step)| == Next(s, step).value.nextId
  {
    if step.Invoke? { MoreIssued(s, issued, step); } else { AdvanceIssues(s, step.thread, issued); }
  }

  lemma MoreIssued(s: State, issued: seq<Step>, step: Step)
    requires AllIssued(s, issued)
    ensures AllIssued(s, issued + [step])
  {
  }

  lemma AdvanceIssues(s: State, t: nat, issued: seq<Step>)
    requires IsInt(s.shared) && AllIssued(s, issued) && Next(s, Advance(t)).Some?
    ensures AllIssued(Next(s, Advance(t)).value, issued)
    ensures s.nextId == Next(s, Advance(t)).value.nextId
  {
  }

  lemma AllThere(s: State, s': State, t: nat)
    requires forall id: nat | id < s.nextId :: InProgress(s, id) || HasReturned(s, id)
    requires s.finished <= s'.finished && t in s'.threads
    requires forall u | u in s.threads && u != t :: u in s'.threads && s'.threads[u] == s.threads[u]
    requires t in s.threads && s.threads[t] != Idle ==>
               if s'.threads[t] == Idle then HasReturned(s', s.threads[t].call.id)
               else s'.threads[t].call.id == s.threads[t].call.id
    ensures forall id: nat | id < s.nextId :: InProgress(s', id) || HasReturned(s', id)
  {
    forall id: nat | id < s.nextId
      ensures InProgress(s', id) || HasReturned(s', id)
    {
      StillThere(s, s', t, id);
    }
  }

  /** No call is lost or invented on any run: each one issued is in progress or has returned, and all that
      are in progress, took effect or returned are issued ones with their own operation and value. */
  lemma {:induction false} NoCallLost(s: State, steps: seq<Step>, s': State, issued: seq<Step>)
    requires Kept(s, issued) && Reaches(s, steps, s')
    ensures Kept(s', issued + Issued(steps))
    decreases |steps|
  {
    if steps == [] {
      assert issued + Issued(steps) == issued;
    } else {
      StepKeeps(s, steps[0], issued);
      NoCallLost(Next(s, steps[0]).value, steps[1..], s', issued + IssuedBy(steps[0]));
      Associate(issued, IssuedBy(steps[0]), Issued(steps[1..]));
    }
  }

  lemma EveryCallKept(init: int, steps: seq<Step>, s: State)
    requires IsInt(init) && Reaches(Initial(init), steps, s)
    ensures Kept(s, Issued(steps))
  {
    NoCallLost(Initial(init), steps, s, []);
    assert [] + Issued(steps) == Issued(steps);
  }

  /** A thread that runs alone completes: four steps read, compute, swap in the result of the operation, log
      it and return it.  Nothing else changes. */
  lemma SoloCompletes(s: State, t: nat, call: Call, r: int)
    requires IsInt(s.shared) && IsInt(call.val) && At(s, t) == AtRead(call)
    requires Apply(call.op, s.shared, call.val) == Some(r)
    ensures Reaches(s, [Advance(t), Advance(t), Advance(t), Advance(t)],
                    State(r, s.threads[t := Idle], s.time + 4, s.nextId, s.log + [Entry(call, r, s.time + 2)],
                          s.finished + [Return(call, r, s.time + 3)]))
  {
    var a := Advance(t);
    var s1 := Move(s, t, AtCompute(call, s.shared, |s.log|));
    var s2 := Move(s1, t, AtSwap(call, s.shared, r, |s.log|));
    var s3 := Move(s2, t, AtReturn(call, r)).(shared := r, log := s.log + [Entry(call, r, s.time + 2)]);
    var s4 := Move(s3, t, Idle).(finished := s.finished + [Return(call, r, s.time + 3)]);
    assert s4.threads == s.threads[t := Idle];
    assert Next(s, a) == Some(s1) && Next(s1, a) == Some(s2) && Next(s2, a) == Some(s3) && Next(s3, a) == Some(s4);
    Prepend(s3, a, [], s4);
    Prepend(s2, a, [a], s4);
    Prepend(s1, a, [a, a], s4);
    Prepend(s, a, [a, a, a], s4);
    assert [a] + [a, a, a] == [a, a, a, a];
  }

  /** A thread whose swap is going to fail retries: alone, it completes one step later, on the value the cell
      holds now. */
  lemma SoloRetries(s: State, t: nat, call: Call, r: int)
    requires IsInt(s.shared) && IsInt(call.val) && Apply(call.op, s.shared, call.val) == Some(r)
    requires At(s, t).AtSwap? && At(s, t).call == call && At(s, t).value != s.shared && call.op != Store
    ensures Reaches(s, [Advance(t), Advance(t), Advance(t), Advance(t), Advance(t)],
                    State(r, s.threads[t := Idle], s.time + 5, s.nextId, s.log + [Entry(call, r, s.time + 3)],
                          s.finished + [Return(call, r, s.time + 4)]))
  {
    var a := Advance(t);
    var s1 := Move(s, t, AtRead(call));
    SoloCompletes(s1, t, call, r);
    assert s1.threads[t := Idle] == s.threads[t := Idle];
    var done := State(r, s.threads[t := Idle], s.time + 5, s.nextId, s.log + [Entry(call, r, s.time + 3)],
                      s.finished + [Return(call, r, s.time + 4)]);
    Prepend(s, a, [a, a, a, a], done);
    assert [a] + [a, a, a, a] == [a, a, a, a, a];
  }

  /** A thread that divides by zero, or the smallest int by -1, stops for good at its computation and leaves the
      cell and the log alone. */
  lemma SoloTraps(s: State, t: nat, call: Call)
    requires IsInt(s.shared) && IsInt(call.val) && At(s, t) == AtRead(call)
    requires call.op in {Div, Mod} && (call.val == 0 || (s.shared == INT_MIN && call.val == -1))
    ensures var s' := s.(threads := s.threads[t := Trapped(call)], time := s.time + 2);
            Reaches(s, [Advance(t), Advance(t)], s') && Next(s', Advance(t)) == None
  {
    var a := Advance(t);
    var s1 := Move(s, t, AtCompute(call, s.shared, |s.log|));
    var s2 := Move(s1, t, Trapped(call));
    assert s2.threads == s.threads[t := Trapped(call)];
    Prepend(s1, a, [], s2);
    Prepend(s, a, [a], s2);
    assert [a] + [a] == [a, a];
  }

  lemma Prepend(s: State, step: Step, steps: seq<Step>, s': State)
    requires IsInt(s.shared) && Next(s, step).Some? && Reaches(Next(s, step).value, steps, s')
    ensures Reaches(s, [step] + steps, s')
  {
    assert ([step] + steps)[1..] == steps;
  }

  ghost predicate IsCounter(log: seq<Entry>) {
    forall k | 0 <= k < |log| :: log[k].call.op.Add? || log[k].call.op.Sub?
  }

  ghost function Net(log: seq<Entry>): int {
    if log == [] then 0 else
      var c := log[|log| - 1].call;
      Net(log[..|log| - 1]) + if c.op.Sub? then -c.val else c.val
  }

  lemma WrapAbsorbs(a: int, b: int)
    ensures Wrap(Wrap(a) + b) == Wrap(a + b)
  {
    var q := (a - INT_MIN) / INT_RANGE;
    assert Wrap(a) == a - q * INT_RANGE;
    assert (Wrap(a) + b - INT_MIN) == (a + b - INT_MIN) - q * INT_RANGE;
    ModShift(a + b - INT_MIN, q);
  }

  lemma ModShift(x: int, q: int)
    ensures (x - q * INT_RANGE) % INT_RANGE == x % INT_RANGE
  {
    var d := x / INT_RANGE;
    assert x - q * INT_RANGE == (d - q) * INT_RANGE + x % INT_RANGE;
  }

  lemma {:induction false} FoldIsNet(init: int, log: seq<Entry>)
    requires IsInt(init) && IsCounter(log) && Fold(init, log).Some?
    ensures Fold(init, log).value == Wrap(init + Net(log))
    decreases |log|
  {
    if log != [] {
      var front, c := log[..|log| - 1], log[|log| - 1].call;
      FoldIsNet(init, front);
      CountsOne(c.op, c.val, init + Net(front));
    }
  }

  lemma CountsOne(op: Op, val: int, sum: int)
    requires (op.Add? || op.Sub?) && IsInt(val)
    ensures Apply(op, Wrap(sum), val) == Some(Wrap(sum + if op.Sub? then -val else val))
  {
    WrapAbsorbs(sum, if op.Sub? then -val else val);
  }

  /** No update is lost: after any run of add, inc and dec calls the counter holds the start value
      plus the sum of all operations that took effect, in 32-bit arithmetic. */
  lemma CountersConserve(init: int, steps: seq<Step>, s: State)
    requires IsInt(init) && Reaches(Initial(init), steps, s) && IsCounter(s.log)
    ensures s.shared == Wrap(init + Net(s.log))
  {
    FromTheStart(init, steps, s);
    FoldIsNet(init, s.log);
  }

  // ----- the wrappers

  datatype Wrapper = AddBy(val: int) | SubBy(val: int) | MulBy(val: int) | DivBy(val: int) | Inc | Dec | ModBy(val: int)

  /** What each wrapper passes to atomic_int_op: sub, mul and div pass the code of add. */
  function Passes(w: Wrapper): (Op, int) {
    match w
    case AddBy(v) => (Add, v)
    case SubBy(v) => (Add, v)
    case MulBy(v) => (Add, v)
    case DivBy(v) => (Add, v)
    case Inc => (Add, 1)
    case Dec => (Sub, 1)
    case ModBy(v) => (Mod, v)
  }

  /** atomic_int_sub subtracts exactly when val is its own negation, whatever the integer holds. */
  lemma SubWrapperSubtractsIff(x: int, v: int)
    requires IsInt(x) && IsInt(v)
    ensures Apply(Passes(SubBy(v)).0, x, Passes(SubBy(v)).1) == Apply(Sub, x, v) <==> v == 0 || v == INT_MIN
  {
  }

  /** One call of a wrapper with no other thread in between. */
  function Called(w: Wrapper, x: int): Option<int>
    requires IsInt(x) && IsInt(Passes(w).1)
  {
    Apply(Passes(w).0, x, Passes(w).1)
  }

  /** What the wrappers do: inc and dec count by one, add, sub, mul and div all add. */
  lemma WrappersAdd(x: int, v: int)
    requires IsInt(x) && IsInt(v)
    ensures Called(Inc, x) == Some(Wrap(x + 1)) && Called(Dec, x) == Some(Wrap(x - 1))
    ensures forall w | w in {AddBy(v), SubBy(v), MulBy(v), DivBy(v)} :: Called(w, x) == Some(Wrap(x + v))
    ensures v != 0 && !(x == INT_MIN && v == -1) ==> Called(ModBy(v), x) == Some(x - v * TruncDiv(x, v))
  {
    if v != 0 && !(x == INT_MIN && v == -1) { ModTruncates(x, v); }
  }

  /** One call with no other thread in between: inc and dec undo each other. */
  lemma IncDecUndo(x: int)
    requires IsInt(x)
    ensures var y := Apply(Passes(Inc).0, x, Passes(Inc).1).value;
            Apply(Passes(Dec).0, y, Passes(Dec).1) == Some(x)
  {
    WrapAbsorbs(x + 1, -1);
  }
}
