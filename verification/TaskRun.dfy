/**
 A task's run of task.c: its releases one after another, and the statistics of each; and the totals
 of tester.c.
 */
module TaskRun {
  import opened Periods
  import opened Tasks

  /** How one job went: aborted by the scheduler, and when it ended. */
  datatype Outcome = Outcome(aborted: bool, end: Timespec)

  /** The statistics of a task as a value. */
  datatype Stats = Stats(aborted: nat, met: nat, utility: nat, tardiness: int)

  ghost function View(t: Task): Stats
    reads t
  {
    Stats(t.numAborted, t.deadlinesMet, t.utilityAccrued, t.maxTardiness)
  }

  // ----- what the statistics mean

  predicate MetDeadline(start: Timespec, period: nat, job: nat, o: Outcome) {
    !o.aborted && DeadlineMet(o.end, JobDeadline(start, period, job))
  }

  /** Jobs 0 to n - 1 that met their deadline. */
  ghost function MetJobs(start: Timespec, period: nat, os: seq<Outcome>, n: nat): set<nat>
    requires n <= |os|
  {
    set j: nat | j < n && MetDeadline(start, period, j, os[j])
  }

  ghost function AbortedJobs(os: seq<Outcome>, n: nat): set<nat>
    requires n <= |os|
  {
    set j: nat | j < n && os[j].aborted
  }

  /** The tardiness of a job in microseconds; negative when it is late. */
  function Tardiness(start: Timespec, period: nat, job: nat, o: Outcome): int
    requires start.Normal() && o.end.Normal()
  {
    DeadlineExact(start, period, job);
    SubtractUs(JobDeadline(start, period, job), o.end)
  }

  /** A job is due (job + 1) periods after the start.  Its tardiness is the time from its end to then, in whole
      microseconds rounded down. */
  lemma TardinessExact(start: Timespec, period: nat, job: nat, o: Outcome)
    requires start.Normal() && o.end.Normal()
    ensures var due := start.Nanos() + (job + 1) * period * THOUSAND;
            && Tardiness(start, period, job, o) == (due - o.end.Nanos()) / THOUSAND
            && (MetDeadline(start, period, job, o) <==> !o.aborted && o.end.Nanos() <= due)
  {
    DeadlineExact(start, period, job);
    SubtractUsIsFloor(JobDeadline(start, period, job), o.end);
    TardinessAgrees(o.end, JobDeadline(start, period, job));
  }

  ghost predicate NormalTimes(start: Timespec, os: seq<Outcome>) {
    start.Normal() && forall o | o in os :: o.end.Normal()
  }

  /** w is the worst tardiness of the jobs that were not aborted, or 0 when none was late. */
  ghost predicate IsWorst(w: int, start: Timespec, period: nat, os: seq<Outcome>, n: nat)
    requires n <= |os| && NormalTimes(start, os)
  {
    && w <= 0
    && (forall j: nat | j < n && !os[j].aborted :: w <= Tardiness(start, period, j, os[j]))
    && (w == 0 || exists j: nat :: j < n && !os[j].aborted && w == Tardiness(start, period, j, os[j]))
  }

  /** The statistics after n counted jobs. */
  ghost predicate Accounts(s: Stats, start: Timespec, period: nat, utility: nat, os: seq<Outcome>, n: nat)
    requires n <= |os| && NormalTimes(start, os)
  {
    && s.met == |MetJobs(start, period, os, n)|
    && s.aborted == |AbortedJobs(os, n)|
    && s.utility == s.met * utility
    && IsWorst(s.tardiness, start, period, os, n)
  }

  /** No job is counted twice: met and aborted jobs are different, so there are at most n of them. */
  lemma MetAndAborted(start: Timespec, period: nat, os: seq<Outcome>, n: nat)
    requires n <= |os|
    ensures |MetJobs(start, period, os, n)| + |AbortedJobs(os, n)| <= n
  {
    var m, a := MetJobs(start, period, os, n), AbortedJobs(os, n);
    assert m !! a;
    assert |m + a| == |m| + |a|;
    BoundedSet(m + a, n);
  }

  lemma {:induction false} BoundedSet(s: set<nat>, n: nat)
    requires forall x | x in s :: x < n
    ensures |s| <= n
  {
    if n == 0 {
      assert s == {};
    } else {
      BoundedSet(s - {n - 1}, n - 1);
    }
  }

  // ----- the statistics of one job

  /** task_instance, from the moment its outcome is known. */
  method TaskInstance(t: Task, start: Timespec, o: Outcome, countStats: bool)
    requires start.Normal() && o.end.Normal()
    modifies t`numAborted, t`deadlinesMet, t`utilityAccrued, t`maxTardiness
    ensures !countStats ==> View(t) == old(View(t))
    ensures countStats ==>
              View(t) == CountJob(old(View(t)), start, t.period, t.utility, t.numReleases, o)
  {
    var deadline := JobDeadline(start, t.period, t.numReleases);
    if !countStats {
      return;
    }
    DeadlineExact(start, t.period, t.numReleases);
    var tardiness := SubtractUs(deadline, o.end);
    TardinessAgrees(o.end, deadline);
    if o.aborted {
      t.numAborted := t.numAborted + 1;
    } else if tardiness >= 0 {
      t.deadlinesMet := t.deadlinesMet + 1;
      t.utilityAccrued := t.utilityAccrued + t.utility;
    } else {
      if tardiness < t.maxTardiness {
        t.maxTardiness := tardiness;
      }
    }
  }

  ghost function CountJob(s: Stats, start: Timespec, period: nat, utility: nat, job: nat, o: Outcome): Stats
    requires start.Normal() && o.end.Normal()
  {
    if o.aborted then s.(aborted := s.aborted + 1)
    else if MetDeadline(start, period, job, o) then s.(met := s.met + 1, utility := s.utility + utility)
    else if Tardiness(start, period, job, o) < s.tardiness then s.(tardiness := Tardiness(start, period, job, o))
    else s
  }

  lemma JobSetsGrow(start: Timespec, period: nat, os: seq<Outcome>, n: nat)
    requires n < |os|
    ensures |MetJobs(start, period, os, n + 1)|
            == |MetJobs(start, period, os, n)| + if MetDeadline(start, period, n, os[n]) then 1 else 0
    ensures |AbortedJobs(os, n + 1)| == |AbortedJobs(os, n)| + if os[n].aborted then 1 else 0
  {
    MetGrows(start, period, os, n);
    AbortedGrows(os, n);
  }

  lemma MetGrows(start: Timespec, period: nat, os: seq<Outcome>, n: nat)
    requires n < |os|
    ensures |MetJobs(start, period, os, n + 1)|
            == |MetJobs(start, period, os, n)| + if MetDeadline(start, period, n, os[n]) then 1 else 0
  {
    var met := MetJobs(start, period, os, n);
    assert MetJobs(start, period, os, n + 1) == if MetDeadline(start, period, n, os[n]) then met + {n} else met;
  }

  lemma AbortedGrows(os: seq<Outcome>, n: nat)
    requires n < |os|
    ensures |AbortedJobs(os, n + 1)| == |AbortedJobs(os, n)| + if os[n].aborted then 1 else 0
  {
    var aborted := AbortedJobs(os, n);
    assert AbortedJobs(os, n + 1) == if os[n].aborted then aborted + {n} else aborted;
  }

  /** Counting job n extends the account from n to n + 1 jobs. */
  lemma CountJobAccounts(s: Stats, start: Timespec, period: nat, utility: nat, os: seq<Outcome>, n: nat)
    requires n < |os| && NormalTimes(start, os) && Accounts(s, start, period, utility, os, n)
    ensures Accounts(CountJob(s, start, period, utility, n, os[n]), start, period, utility, os, n + 1)
  {
    assert os[n] in os;
    DeadlineExact(start, period, n);
    TardinessAgrees(os[n].end, JobDeadline(start, period, n));
    JobSetsGrow(start, period, os, n);
    Product(s.met, s.met, utility);
    WorstExtends(s.tardiness, CountJob(s, start, period, utility, n, os[n]).tardiness, start, period, os, n);
  }

  lemma WorstExtends(w: int, w': int, start: Timespec, period: nat, os: seq<Outcome>, n: nat)
    requires n < |os| && NormalTimes(start, os) && IsWorst(w, start, period, os, n)
    requires os[n] in os && w' == if os[n].aborted then w
                                  else if Tardiness(start, period, n, os[n]) < w then Tardiness(start, period, n, os[n])
                                  else w
    ensures IsWorst(w', start, period, os, n + 1)
  {
    if w' == w && w != 0 {
      var j: nat :| j < n && !os[j].aborted && w == Tardiness(start, period, j, os[j]);
      assert j < n + 1;
    }
  }

  // ----- all jobs of a task

  /** clear_task_stats and calculate_releases, as run() does before starting a task. */
  method Prepare(t: Task, runTime: nat)
    requires t.period > 0
    modifies t`numReleases, t`numAborted, t`deadlinesMet, t`utilityAccrued, t`maxTardiness,
             t`maxReleases, t`extraRelease
    ensures Prepared(t, Runtime(runTime))
  {
    t.numReleases, t.numAborted, t.deadlinesMet, t.utilityAccrued, t.maxTardiness := 0, 0, 0, 0, 0;
    var runtime := (runTime * MILLION) % 0x1_0000_0000;
    t.maxReleases := runtime / t.period;
    t.extraRelease := runtime % t.period != 0;
  }

  ghost predicate Prepared(t: Task, runtime: nat)
    requires t.period > 0
    reads t
  {
    && View(t) == Stats(0, 0, 0, 0) && t.numReleases == 0
    && t.maxReleases == MaxReleases(runtime, t.period) && t.extraRelease == ExtraRelease(runtime, t.period)
  }

  /** The release loop of start_task: the counted jobs, then the uncounted extra one. */
  method StartTask(t: Task, start: Timespec, os: seq<Outcome>)
    requires NormalTimes(start, os) && |os| == t.maxReleases + (if t.extraRelease then 1 else 0)
    requires View(t) == Stats(0, 0, 0, 0)
    modifies t`numReleases, t`numAborted, t`deadlinesMet, t`utilityAccrued, t`maxTardiness
    ensures t.numReleases == t.maxReleases
    ensures Accounts(View(t), start, t.period, t.utility, os, t.maxReleases)
    ensures t.deadlinesMet + t.numAborted <= t.numReleases && GoodRow(RowOf(t))
  {
    NothingYet(start, t.period, t.utility, os);
    t.numReleases := 0;
    while t.numReleases < t.maxReleases
      invariant t.numReleases <= t.maxReleases
      invariant Accounts(View(t), start, t.period, t.utility, os, t.numReleases)
      decreases t.maxReleases - t.numReleases
    {
      ghost var s, n := View(t), t.numReleases;
      TaskInstance(t, start, os[t.numReleases], true);
      CountJobAccounts(s, start, t.period, t.utility, os, n);
      t.numReleases := t.numReleases + 1;
    }
    if t.extraRelease {
      TaskInstance(t, start, os[t.maxReleases], false);
    }
    MetAndAborted(start, t.period, os, t.maxReleases);
  }

  lemma NothingYet(start: Timespec, period: nat, utility: nat, os: seq<Outcome>)
    requires NormalTimes(start, os)
    ensures Accounts(Stats(0, 0, 0, 0), start, period, utility, os, 0)
  {
    assert MetJobs(start, period, os, 0) == {} && AbortedJobs(os, 0) == {};
  }

  // ----- totals over all tasks

  /** A task after its run, as the totals see it. */
  datatype Row = Row(releases: nat, met: nat, aborted: nat, utility: nat, accrued: nat, tardiness: int)

  ghost function RowOf(t: Task): Row
    reads t
  {
    Row(t.maxReleases, t.deadlinesMet, t.numAborted, t.utility, t.utilityAccrued, t.maxTardiness)
  }

  /** What StartTask guarantees of a task. */
  predicate GoodRow(r: Row) {
    r.met + r.aborted <= r.releases && r.accrued == r.met * r.utility && r.tardiness <= 0
  }

  ghost function Rows(tasks: seq<Task>): (rows: seq<Row>)
    reads tasks
    ensures |rows| == |tasks|
  {
    if tasks == [] then [] else Rows(tasks[..|tasks| - 1]) + [RowOf(tasks[|tasks| - 1])]
  }

  datatype Total = Total(releases: int, met: int, aborts: int, utility: int, accrued: int)

  function Plus(t: Total, r: Row): Total {
    Total(t.releases + r.releases, t.met + r.met, t.aborts + r.aborted,
          t.utility + r.releases * r.utility, t.accrued + r.accrued)
  }

  function Sum(xs: seq<int>): int {
    if xs == [] then 0 else Sum(xs[..|xs| - 1]) + xs[|xs| - 1]
  }

  /** The sum of the products. */
  function Weighted(xs: seq<int>, ws: seq<int>): int
    requires |xs| == |ws|
  {
    if xs == [] then 0
    else Weighted(xs[..|xs| - 1], ws[..|ws| - 1]) + xs[|xs| - 1] * ws[|ws| - 1]
  }

  function MinOf(a: int, b: int): int { if b < a then b else a }

  ghost function Tally(rows: seq<Row>): Total {
    if rows == [] then Total(0, 0, 0, 0, 0) else Plus(Tally(rows[..|rows| - 1]), rows[|rows| - 1])
  }

  /** The columns of the rows. */
  ghost predicate Columns(rows: seq<Row>, releases: seq<int>, met: seq<int>, aborted: seq<int>, utility: seq<int>,
                          accrued: seq<int>)
  {
    && |releases| == |met| == |aborted| == |utility| == |accrued| == |rows|
    && forall i | 0 <= i < |rows| :: rows[i].releases == releases[i] && rows[i].met == met[i]
                                     && rows[i].aborted == aborted[i] && rows[i].utility == utility[i]
                                     && rows[i].accrued == accrued[i]
  }

  /** The tally is the sum of each column, and for the possible utility that of the products. */
  lemma {:induction false} TallySums(rows: seq<Row>, releases: seq<int>, met: seq<int>, aborted: seq<int>,
                                     utility: seq<int>, accrued: seq<int>)
    requires Columns(rows, releases, met, aborted, utility, accrued)
    ensures Tally(rows)
            == Total(Sum(releases), Sum(met), Sum(aborted), Weighted(releases, utility), Sum(accrued))
    decreases |rows|
  {
    var n := |rows| - 1;
    if n >= 0 {
      TallySums(rows[..n], releases[..n], met[..n], aborted[..n], utility[..n], accrued[..n]);
    }
  }

  lemma {:induction false} SumOfProducts(sums: seq<int>, xs: seq<int>, ws: seq<int>)
    requires |sums| == |xs| == |ws| && forall i | 0 <= i < |xs| :: sums[i] == xs[i] * ws[i]
    ensures Sum(sums) == Weighted(xs, ws)
    decreases |xs|
  {
    var n := |xs| - 1;
    if n >= 0 { SumOfProducts(sums[..n], xs[..n], ws[..n]); }
  }

  /** The minimum of 0 and every row's tardiness. */
  ghost predicate IsMin(w: int, rows: seq<Row>) {
    w <= 0 && (forall r | r in rows :: w <= r.tardiness) && (w == 0 || exists r :: r in rows && r.tardiness == w)
  }

  /** The statistics fields of struct test. */
  class Totals {
    var release: int
    var met: int
    var totalUtil: int
    var metUtil: int
    var aborts: int
    var maxTardiness: int

    ghost function View(): (Total, int)
      reads this
    {
      (Total(release, met, aborts, totalUtil, metUtil), maxTardiness)
    }

    /** The body of the accumulation loop of run(). */
    method Add(t: Task)
      modifies this
      ensures View() == (Plus(old(View()).0, RowOf(t)), MinOf(old(maxTardiness), t.maxTardiness))
    {
      release := release + t.maxReleases;
      met := met + t.deadlinesMet;
      totalUtil := totalUtil + t.maxReleases * t.utility;
      metUtil := metUtil + t.utilityAccrued;
      aborts := aborts + t.numAborted;
      var tardiness := t.maxTardiness;
      if tardiness < maxTardiness {
        maxTardiness := tardiness;
      }
    }

    /** These are the totals of the rows. */
    ghost predicate Sums(rows: seq<Row>)
      reads this
    {
      View().0 == Tally(rows) && IsMin(View().1, rows)
    }

    method AddRow(t: Task, ghost rows: seq<Row>)
      requires Sums(rows)
      modifies this
      ensures Sums(rows + [RowOf(t)])
    {
      ghost var more := rows + [RowOf(t)];
      assert more[..|more| - 1] == rows;
      MinExtends(maxTardiness, rows, RowOf(t));
      Add(t);
    }

    /** clear_counters, then the accumulation loop. */
    method Accumulate(tasks: seq<Task>)
      returns (ghost releases: seq<int>, ghost met: seq<int>, ghost aborted: seq<int>, ghost utility: seq<int>,
               ghost accrued: seq<int>)
      modifies this
      ensures View().0 == Tally(Rows(tasks))
      ensures IsMin(View().1, Rows(tasks))
      ensures FieldsOf(tasks, releases, met, aborted, utility, accrued)
      ensures release == Sum(releases) && this.met == Sum(met) && aborts == Sum(aborted)
      ensures totalUtil == Weighted(releases, utility) && metUtil == Sum(accrued)
    {
      release, this.met, totalUtil, metUtil, aborts, maxTardiness := 0, 0, 0, 0, 0, 0;
      ghost var rows := Rows(tasks);
      RowsAre(tasks);
      for i := 0 to |tasks|
        invariant Sums(rows[..i])
      {
        assert rows[..i + 1] == rows[..i] + [RowOf(tasks[i])];
        AddRow(tasks[i], rows[..i]);
      }
      assert rows[..|tasks|] == rows;
      releases, met, aborted, utility, accrued := TasksTallied(tasks);
    }
  }

  /** The counters of each task. */
  ghost predicate FieldsOf(tasks: seq<Task>, releases: seq<int>, met: seq<int>, aborted: seq<int>,
                           utility: seq<int>, accrued: seq<int>)
    reads tasks
  {
    && |releases| == |met| == |aborted| == |utility| == |accrued| == |tasks|
    && forall i | 0 <= i < |tasks| ::
         releases[i] == tasks[i].maxReleases && met[i] == tasks[i].deadlinesMet
         && aborted[i] == tasks[i].numAborted && utility[i] == tasks[i].utility
         && accrued[i] == tasks[i].utilityAccrued
  }

  lemma TasksTallied(tasks: seq<Task>)
    returns (releases: seq<int>, met: seq<int>, aborted: seq<int>, utility: seq<int>, accrued: seq<int>)
    ensures FieldsOf(tasks, releases, met, aborted, utility, accrued)
    ensures Tally(Rows(tasks))
            == Total(Sum(releases), Sum(met), Sum(aborted), Weighted(releases, utility), Sum(accrued))
  {
    RowsAre(tasks);
    releases, met, aborted, utility, accrued := ColumnsOf(Rows(tasks));
    TallySums(Rows(tasks), releases, met, aborted, utility, accrued);
  }

  lemma ColumnsOf(rows: seq<Row>)
    returns (releases: seq<int>, met: seq<int>, aborted: seq<int>, utility: seq<int>, accrued: seq<int>)
    ensures Columns(rows, releases, met, aborted, utility, accrued)
  {
    releases := seq(|rows|, i requires 0 <= i < |rows| => rows[i].releases);
    met := seq(|rows|, i requires 0 <= i < |rows| => rows[i].met);
    aborted := seq(|rows|, i requires 0 <= i < |rows| => rows[i].aborted);
    utility := seq(|rows|, i requires 0 <= i < |rows| => rows[i].utility);
    accrued := seq(|rows|, i requires 0 <= i < |rows| => rows[i].accrued);
  }

  lemma {:induction false} RowsAre(tasks: seq<Task>)
    ensures forall i | 0 <= i < |tasks| :: Rows(tasks)[i] == RowOf(tasks[i])
  {
    if tasks != [] {
      RowsAre(tasks[..|tasks| - 1]);
    }
  }

  lemma MinExtends(w: int, rows: seq<Row>, r: Row)
    requires IsMin(w, rows)
    ensures IsMin(MinOf(w, r.tardiness), rows + [r])
  {
    assert r in rows + [r];
    if w != 0 {
      var q :| q in rows && q.tardiness == w;
      assert q in rows + [r];
    }
  }

  lemma Product(a: int, b: int, c: int)
    requires a <= b && 0 <= c
    ensures a * c <= b * c && (a + 1) * c == a * c + c
  {
  }

  /** The totals of any finished tasks: met and aborted jobs are within the releases, and the
      accrued utility is within the possible utility. */
  lemma {:induction false} TotalsBounded(rows: seq<Row>)
    requires forall r | r in rows :: GoodRow(r)
    ensures var t := Tally(rows); t.met + t.aborts <= t.releases && t.accrued <= t.utility
  {
    if rows != [] {
      var front, r := rows[..|rows| - 1], rows[|rows| - 1];
      TotalsBounded(front);
      assert GoodRow(r);
      Product(r.met, r.releases, r.utility);
    }
  }

  // ----- a whole run

  /** One outcome for every release of a task and for its extra one. */
  ghost predicate JobsFor(t: Task, runtime: nat, start: Timespec, os: seq<Outcome>)
    reads t`period
  {
    && t.period > 0 && NormalTimes(start, os)
    && |os| == MaxReleases(runtime, t.period) + (if ExtraRelease(runtime, t.period) then 1 else 0)
  }

  /** A task that has run: its statistics account for exactly its counted releases. */
  ghost predicate Finished(t: Task, runtime: nat, start: Timespec, os: seq<Outcome>)
    requires JobsFor(t, runtime, start, os)
    reads t
  {
    && t.maxReleases == MaxReleases(runtime, t.period)
    && Accounts(View(t), start, t.period, t.utility, os, t.maxReleases)
    && GoodRow(RowOf(t))
  }

  method PrepareAll(tasks: seq<Task>, runTime: nat)
    requires Distinct(tasks) && forall i | 0 <= i < |tasks| :: tasks[i].period > 0
    modifies tasks`numReleases, tasks`numAborted, tasks`deadlinesMet, tasks`utilityAccrued,
             tasks`maxTardiness, tasks`maxReleases, tasks`extraRelease
    ensures forall i | 0 <= i < |tasks| :: Prepared(tasks[i], Runtime(runTime))
  {
    for i := 0 to |tasks|
      invariant forall j | 0 <= j < i :: Prepared(tasks[j], Runtime(runTime))
    {
      Prepare(tasks[i], runTime);
    }
  }

  method RunOne(t: Task, runtime: nat, start: Timespec, os: seq<Outcome>)
    requires JobsFor(t, runtime, start, os) && Prepared(t, runtime)
    modifies t`numReleases, t`numAborted, t`deadlinesMet, t`utilityAccrued, t`maxTardiness
    ensures Finished(t, runtime, start, os)
  {
    StartTask(t, start, os);
  }

  method StartEach(tasks: seq<Task>, runtime: nat, start: Timespec, jobs: seq<seq<Outcome>>)
    requires Distinct(tasks) && |jobs| == |tasks|
    requires forall i | 0 <= i < |tasks| :: JobsFor(tasks[i], runtime, start, jobs[i]) && Prepared(tasks[i], runtime)
    modifies tasks`numReleases, tasks`numAborted, tasks`deadlinesMet, tasks`utilityAccrued, tasks`maxTardiness
    ensures forall i | 0 <= i < |tasks| :: Finished(tasks[i], runtime, start, jobs[i])
  {
    for i := 0 to |tasks|
      invariant forall j | i <= j < |tasks| :: Prepared(tasks[j], runtime)
      invariant forall j | 0 <= j < i :: Finished(tasks[j], runtime, start, jobs[j])
    {
      RunOne(tasks[i], runtime, start, jobs[i]);
    }
  }

  /** The totals are the sums of what the jobs of each task amount to, and the worst of their tardiness. */
  ghost predicate AddedUp(totals: Totals, tasks: seq<Task>, runtime: nat, start: Timespec, jobs: seq<seq<Outcome>>,
                          releases: seq<int>, met: seq<int>, aborted: seq<int>, utility: seq<int>)
    requires |jobs| == |tasks| && forall i | 0 <= i < |tasks| :: JobsFor(tasks[i], runtime, start, jobs[i])
    reads totals, tasks
  {
    var all :=
      && |releases| == |met| == |aborted| == |utility| == |tasks|
      && (forall i | 0 <= i < |tasks| ::
            Counts(tasks[i], runtime, start, jobs[i], releases[i], met[i], aborted[i], utility[i]))
      && totals.release == Sum(releases) && totals.met == Sum(met) && totals.aborts == Sum(aborted)
      && totals.totalUtil == Weighted(releases, utility) && totals.metUtil == Weighted(met, utility)
      && WorstOfAll(totals.maxTardiness, tasks, runtime, start, jobs);
    all
  }

  /** run(): prepare every task, run every task, and add up.  Whatever the jobs do, met and aborted
      jobs stay within the releases, and the accrued within the possible utility. */
  method Run(tasks: seq<Task>, runTime: nat, start: Timespec, jobs: seq<seq<Outcome>>, totals: Totals)
    returns (ghost releases: seq<int>, ghost met: seq<int>, ghost aborted: seq<int>, ghost utility: seq<int>)
    requires Distinct(tasks) && |jobs| == |tasks|
    requires forall i | 0 <= i < |tasks| :: JobsFor(tasks[i], Runtime(runTime), start, jobs[i])
    modifies tasks`numReleases, tasks`numAborted, tasks`deadlinesMet, tasks`utilityAccrued,
             tasks`maxTardiness, tasks`maxReleases, tasks`extraRelease, totals
    ensures forall i | 0 <= i < |tasks| :: Finished(tasks[i], Runtime(runTime), start, jobs[i])
    ensures totals.View().0 == Tally(Rows(tasks)) && IsMin(totals.View().1, Rows(tasks))
    ensures totals.met + totals.aborts <= totals.release && totals.metUtil <= totals.totalUtil
    ensures AddedUp(totals, tasks, Runtime(runTime), start, jobs, releases, met, aborted, utility)
  {
    PrepareAll(tasks, runTime);
    StartEach(tasks, Runtime(runTime), start, jobs);
    releases, met, aborted, utility := AddUp(tasks, Runtime(runTime), start, jobs, totals);
  }

  /** The accumulation loop of run(), over tasks that have run. */
  method AddUp(tasks: seq<Task>, runtime: nat, start: Timespec, jobs: seq<seq<Outcome>>, totals: Totals)
    returns (ghost releases: seq<int>, ghost met: seq<int>, ghost aborted: seq<int>, ghost utility: seq<int>)
    requires |jobs| == |tasks| && forall i | 0 <= i < |tasks| :: JobsFor(tasks[i], runtime, start, jobs[i])
    requires forall i | 0 <= i < |tasks| :: Finished(tasks[i], runtime, start, jobs[i])
    modifies totals
    ensures totals.View().0 == Tally(Rows(tasks)) && IsMin(totals.View().1, Rows(tasks))
    ensures totals.met + totals.aborts <= totals.release && totals.metUtil <= totals.totalUtil
    ensures AddedUp(totals, tasks, runtime, start, jobs, releases, met, aborted, utility)
  {
    ghost var accrued;
    releases, met, aborted, utility, accrued := totals.Accumulate(tasks);
    RunAddsUp(tasks, runtime, start, jobs, totals.maxTardiness, releases, met, aborted, utility, accrued);
  }

  /** What the totals of finished tasks say about their jobs. */
  lemma RunAddsUp(tasks: seq<Task>, runtime: nat, start: Timespec, jobs: seq<seq<Outcome>>, worst: int,
                  releases: seq<int>, met: seq<int>, aborted: seq<int>, utility: seq<int>, accrued: seq<int>)
    requires |jobs| == |tasks| && forall i | 0 <= i < |tasks| :: JobsFor(tasks[i], runtime, start, jobs[i])
    requires forall i | 0 <= i < |tasks| :: Finished(tasks[i], runtime, start, jobs[i])
    requires FieldsOf(tasks, releases, met, aborted, utility, accrued) && IsMin(worst, Rows(tasks))
    ensures |releases| == |met| == |aborted| == |utility| == |tasks|
    ensures forall i | 0 <= i < |tasks| ::
              Counts(tasks[i], runtime, start, jobs[i], releases[i], met[i], aborted[i], utility[i])
    ensures Sum(accrued) == Weighted(met, utility) && WorstOfAll(worst, tasks, runtime, start, jobs)
    ensures var t := Tally(Rows(tasks)); t.met + t.aborts <= t.releases && t.accrued <= t.utility
  {
    AllWithin(tasks, runtime, start, jobs);
    AllCounted(tasks, runtime, start, jobs, releases, met, aborted, utility, accrued);
    WorstIsMin(worst, tasks, runtime, start, jobs);
  }

  lemma AllCounted(tasks: seq<Task>, runtime: nat, start: Timespec, jobs: seq<seq<Outcome>>, releases: seq<int>,
                   met: seq<int>, aborted: seq<int>, utility: seq<int>, accrued: seq<int>)
    requires |jobs| == |tasks| && forall i | 0 <= i < |tasks| :: JobsFor(tasks[i], runtime, start, jobs[i])
    requires forall i | 0 <= i < |tasks| :: Finished(tasks[i], runtime, start, jobs[i])
    requires FieldsOf(tasks, releases, met, aborted, utility, accrued)
    ensures |releases| == |met| == |aborted| == |utility| == |tasks|
    ensures forall i | 0 <= i < |tasks| ::
              Counts(tasks[i], runtime, start, jobs[i], releases[i], met[i], aborted[i], utility[i])
    ensures Sum(accrued) == Weighted(met, utility)
  {
    SumOfProducts(accrued, met, utility);
  }

  /** What the jobs of a task amount to: its counted releases, how many of those met their deadline and how
      many were aborted, and what each is worth. */
  ghost predicate Counts(t: Task, runtime: nat, start: Timespec, os: seq<Outcome>,
                         releases: int, met: int, aborted: int, utility: int)
    requires JobsFor(t, runtime, start, os)
    reads t
  {
    var n := MaxReleases(runtime, t.period);
    releases == n && met == |MetJobs(start, t.period, os, n)| && aborted == |AbortedJobs(os, n)| && utility == t.utility
  }

  /** No counted job of the task that was not aborted is later than w. */
  ghost predicate NoneLater(w: int, t: Task, runtime: nat, start: Timespec, os: seq<Outcome>)
    requires JobsFor(t, runtime, start, os)
    reads t
  {
    forall j: nat | j < MaxReleases(runtime, t.period) && !os[j].aborted :: w <= Tardiness(start, t.period, j, os[j])
  }

  ghost predicate OneAsLate(w: int, t: Task, runtime: nat, start: Timespec, os: seq<Outcome>)
    requires JobsFor(t, runtime, start, os)
    reads t
  {
    exists j: nat :: j < MaxReleases(runtime, t.period) && !os[j].aborted && w == Tardiness(start, t.period, j, os[j])
  }

  /** w is the worst tardiness of all tasks, or 0 when no job was late. */
  ghost predicate WorstOfAll(w: int, tasks: seq<Task>, runtime: nat, start: Timespec, jobs: seq<seq<Outcome>>)
    requires |jobs| == |tasks| && forall i | 0 <= i < |tasks| :: JobsFor(tasks[i], runtime, start, jobs[i])
    reads tasks
  {
    && w <= 0
    && (forall i | 0 <= i < |tasks| :: NoneLater(w, tasks[i], runtime, start, jobs[i]))
    && (w == 0 || exists i :: 0 <= i < |tasks| && OneAsLate(w, tasks[i], runtime, start, jobs[i]))
  }

  lemma WorstOfTask(t: Task, runtime: nat, start: Timespec, os: seq<Outcome>, w: int)
    requires JobsFor(t, runtime, start, os) && Finished(t, runtime, start, os) && w <= t.maxTardiness
    ensures NoneLater(w, t, runtime, start, os)
    ensures t.maxTardiness != 0 ==> OneAsLate(t.maxTardiness, t, runtime, start, os)
  {
    assert IsWorst(t.maxTardiness, start, t.period, os, t.maxReleases);
  }

  lemma WorstIsMin(w: int, tasks: seq<Task>, runtime: nat, start: Timespec, jobs: seq<seq<Outcome>>)
    requires |jobs| == |tasks| && forall i | 0 <= i < |tasks| :: JobsFor(tasks[i], runtime, start, jobs[i])
    requires forall i | 0 <= i < |tasks| :: Finished(tasks[i], runtime, start, jobs[i])
    requires IsMin(w, Rows(tasks))
    ensures WorstOfAll(w, tasks, runtime, start, jobs)
  {
    RowsAre(tasks);
    forall i | 0 <= i < |tasks|
      ensures NoneLater(w, tasks[i], runtime, start, jobs[i])
    {
      assert Rows(tasks)[i] in Rows(tasks);
      WorstOfTask(tasks[i], runtime, start, jobs[i], w);
    }
    if w != 0 {
      var i :| 0 <= i < |tasks| && Rows(tasks)[i].tardiness == w;
      WorstOfTask(tasks[i], runtime, start, jobs[i], w);
    }
  }

  /** The totals of finished tasks are within their bounds. */
  lemma AllWithin(tasks: seq<Task>, runtime: nat, start: Timespec, jobs: seq<seq<Outcome>>)
    requires |jobs| == |tasks| && forall i | 0 <= i < |tasks| :: JobsFor(tasks[i], runtime, start, jobs[i])
    requires forall i | 0 <= i < |tasks| :: Finished(tasks[i], runtime, start, jobs[i])
    ensures var t := Tally(Rows(tasks)); t.met + t.aborts <= t.releases && t.accrued <= t.utility
  {
    RowsGood(tasks);
    TotalsBounded(Rows(tasks));
  }

  lemma {:induction false} RowsGood(tasks: seq<Task>)
    requires forall i | 0 <= i < |tasks| :: GoodRow(RowOf(tasks[i]))
    ensures forall r | r in Rows(tasks) :: GoodRow(r)
  {
    if tasks != [] {
      RowsGood(tasks[..|tasks| - 1]);
    }
  }
}
