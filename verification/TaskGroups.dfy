/**
 Thread groups: reading tasks into the list of task_init.c, the leader of each group, and the two
 starting loops of tester.c and task.c.
 */
module TaskGroups {
  import opened Tasks

  // ----- the task list

  /** head heads a linked list of exactly these tasks. */
  ghost predicate Linked(head: Task?, list: seq<Task>)
    reads list`next
  {
    && Distinct(list)
    && (head == if list == [] then null else list[0])
    && forall i | 0 <= i < |list| :: NextAt(list, i)
  }

  ghost predicate NextAt(list: seq<Task>, i: int)
    requires 0 <= i < |list|
    reads list`next
  {
    list[i].next == if i + 1 < |list| then list[i + 1] else null
  }

  ghost predicate HasMember(list: seq<Task>, group: int)
    reads list`threadGroup
  {
    exists i :: 0 <= i < |list| && list[i].threadGroup == group
  }

  /** t takes its leader from another member of its group, if there is one, and else leads. */
  ghost predicate Follows(t: Task, others: seq<Task>)
    reads t, others`threadGroup, others`groupLeader
  {
    if HasMember(others, t.threadGroup)
    then exists i :: 0 <= i < |others| && others[i].threadGroup == t.threadGroup &&
                     t.groupLeader == others[i].groupLeader
    else t.groupLeader == t
  }

  /** The leader of a group is its first-read task: the last one in the list, which grows in front. */
  ghost predicate LeaderOf(list: seq<Task>, group: int, leader: Task)
    reads list`threadGroup
  {
    exists k :: 0 <= k < |list| && list[k] == leader && list[k].threadGroup == group
                && forall j | k < j < |list| :: list[j].threadGroup != group
  }

  ghost predicate LedAt(list: seq<Task>, i: int)
    requires 0 <= i < |list|
    reads list`threadGroup, list`groupLeader
  {
    list[i].groupLeader != null && LeaderOf(list, list[i].threadGroup, list[i].groupLeader)
  }

  ghost predicate Led(list: seq<Task>)
    reads list`threadGroup, list`groupLeader
  {
    forall i | 0 <= i < |list| :: LedAt(list, i)
  }

  lemma LeaderUnique(list: seq<Task>, group: int, a: Task, b: Task)
    requires LeaderOf(list, group, a) && LeaderOf(list, group, b)
    ensures a == b
  {
  }

  /** Every group has exactly one leader: its members all point to it, it points to itself, and no
      other member does. */
  lemma OneLeaderPerGroup(list: seq<Task>, t: Task)
    requires Led(list) && t in list
    ensures t.groupLeader != null && t.groupLeader in list && t.groupLeader.threadGroup == t.threadGroup
    ensures t.groupLeader.groupLeader == t.groupLeader
    ensures forall u | u in list ::
              (u.groupLeader == u && u.threadGroup == t.threadGroup <==> u == t.groupLeader)
              && (u.groupLeader == t.groupLeader <==> u.threadGroup == t.threadGroup)
  {
    var i :| 0 <= i < |list| && list[i] == t;
    assert LedAt(list, i);
    var l := t.groupLeader;
    var k :| 0 <= k < |list| && list[k] == l && l.threadGroup == t.threadGroup;
    assert LedAt(list, k);
    LeaderUnique(list, t.threadGroup, l, list[k].groupLeader);
    forall u | u in list
      ensures u.groupLeader == u && u.threadGroup == t.threadGroup <==> u == l
      ensures u.groupLeader == l <==> u.threadGroup == t.threadGroup
    {
      var j :| 0 <= j < |list| && list[j] == u;
      assert LedAt(list, j);
      if u.threadGroup == t.threadGroup {
        LeaderUnique(list, t.threadGroup, l, u.groupLeader);
      }
    }
  }

  /** A task added in front keeps every leader; it may itself lead only a new group. */
  lemma LeaderShifts(before: seq<Task>, t: Task, group: int, leader: Task)
    requires LeaderOf(before, group, leader)
    ensures LeaderOf([t] + before, group, leader)
  {
    var list := [t] + before;
    var k :| 0 <= k < |before| && before[k] == leader && forall j | k < j < |before| :: before[j].threadGroup != group;
    assert list[k + 1] == leader;
    forall j | k + 1 < j < |list|
      ensures list[j].threadGroup != group
    {
      assert list[j] == before[j - 1];
    }
  }

  lemma LedExtends(before: seq<Task>, t: Task)
    requires Led(before) && Follows(t, before)
    ensures Led([t] + before)
    ensures t !in before ==> (t.groupLeader != t <==> HasMember(before, t.threadGroup))
  {
    var list := [t] + before;
    forall i | 0 <= i < |list|
      ensures LedAt(list, i)
    {
      if i > 0 {
        assert list[i] == before[i - 1] && LedAt(before, i - 1);
        LeaderShifts(before, t, list[i].threadGroup, list[i].groupLeader);
      } else if HasMember(before, t.threadGroup) {
        var m :| 0 <= m < |before| && before[m].threadGroup == t.threadGroup && t.groupLeader == before[m].groupLeader;
        assert LedAt(before, m);
        LeaderShifts(before, t, t.threadGroup, t.groupLeader);
      } else {
        assert list[0] == t;
      }
    }
    if HasMember(before, t.threadGroup) {
      var i :| 0 <= i < |before| && before[i].threadGroup == t.threadGroup && t.groupLeader == before[i].groupLeader;
      assert LedAt(before, i);
    }
  }

  class TaskSet {
    var taskList: Task?
    var numTasks: nat
    ghost var list: seq<Task>

    ghost predicate Valid()
      reads this, list`next, list`threadGroup, list`groupLeader
    {
      Linked(taskList, list) && Led(list) && numTasks == |list|
    }

    constructor ()
      ensures Valid() && list == []
    {
      taskList := null;
      numTasks := 0;
      list := [];
    }

    /** init_task: put the task in front of the list, then find its leader. */
    method AddTask(t: Task)
      requires Valid() && t !in list
      modifies this, t`next, t`groupLeader
      ensures Valid() && list == [t] + old(list)
      ensures t.groupLeader != t <==> HasMember(old(list), t.threadGroup)
    {
      ghost var before := list;
      Prepend(t);
      InitGroupLeader(t, before);
      LedExtends(before, t);
    }

    method Prepend(t: Task)
      requires Linked(taskList, list) && t !in list && numTasks == |list|
      modifies this, t`next
      ensures Linked(taskList, list) && list == [t] + old(list) && numTasks == |list|
    {
      ghost var before := list;
      t.next := taskList;
      taskList := t;
      numTasks := numTasks + 1;
      list := [t] + list;
      forall i | 0 <= i < |list|
        ensures NextAt(list, i)
      {
        if i > 0 {
          assert list[i] == before[i - 1] && NextAt(before, i - 1);
        }
      }
    }

    /** init_group_leader: take the leader of any other member, else lead. */
    method InitGroupLeader(t: Task, ghost others: seq<Task>)
      requires Linked(taskList, list) && list == [t] + others && Led(others) && t !in others
      modifies t`groupLeader
      ensures Follows(t, others)
    {
      var curr := taskList;
      ghost var i := 0;
      while curr != null
        invariant 0 <= i <= |list| && curr == if i < |list| then list[i] else null
        invariant forall j | 0 <= j < i - 1 :: others[j].threadGroup != t.threadGroup
        decreases |list| - i
      {
        assert i > 0 ==> curr == others[i - 1];
        if curr != t && curr.threadGroup == t.threadGroup {
          assert others[i - 1].threadGroup == t.threadGroup && LedAt(others, i - 1);
          t.groupLeader := curr.groupLeader;
          return;
        }
        assert NextAt(list, i);
        curr := curr.next;
        i := i + 1;
      }
      t.groupLeader := t;
    }

    /** The copy of the list into the tasks array. */
    method ToArray() returns (tasks: array<Task?>)
      requires Valid()
      ensures fresh(tasks) && tasks.Length == |list| && forall i | 0 <= i < |list| :: tasks[i] == list[i]
    {
      tasks := new Task?[numTasks](_ => null);
      var i := 0;
      var curr := taskList;
      while curr != null
        invariant 0 <= i <= |list| && curr == if i < |list| then list[i] else null
        invariant forall j | 0 <= j < i :: tasks[j] == list[j]
        decreases |list| - i
      {
        tasks[i] := curr;
        assert NextAt(list, i);
        curr := curr.next;
        i := i + 1;
      }
    }

    /** The search of init_group: give the group's leader its shared working-set size. */
    method SetGroupWss(group: int, wss: int) returns (found: bool)
      requires Valid()
      modifies list`groupWss
      ensures Valid()
      ensures found <==> HasMember(list, group)
      ensures forall t | t in list ::
                t.groupWss == if t.threadGroup == group && t.groupLeader == t then wss else old(t.groupWss)
    {
      var curr := taskList;
      ghost var i := 0;
      while curr != null
        invariant 0 <= i <= |list| && curr == if i < |list| then list[i] else null
        invariant forall j | 0 <= j < i :: !(list[j].groupLeader == list[j] && list[j].threadGroup == group)
        decreases |list| - i
      {
        if curr.groupLeader == curr && curr.threadGroup == group {
          OneLeaderPerGroup(list, curr);
          curr.groupWss := wss;
          return true;
        }
        assert NextAt(list, i);
        curr := curr.next;
        i := i + 1;
      }
      NoLeaderNoGroup(list, group);
      return false;
    }
  }

  lemma NoLeaderNoGroup(list: seq<Task>, group: int)
    requires Led(list)
    requires forall j | 0 <= j < |list| :: !(list[j].groupLeader == list[j] && list[j].threadGroup == group)
    ensures !HasMember(list, group)
  {
    forall i | 0 <= i < |list|
      ensures list[i].threadGroup != group
    {
      OneLeaderPerGroup(list, list[i]);
      var j :| 0 <= j < |list| && list[j] == list[i].groupLeader;
    }
  }

  // ----- starting the threads

  /** The tasks of some appear in the order of the whole list. */
  ghost predicate InListOrder(some: seq<Task>, list: seq<Task>) {
    forall a, b, i, j | 0 <= a < b < |some| && 0 <= i < |list| && 0 <= j < |list| ::
      some[a] == list[i] && some[b] == list[j] ==> i < j
  }

  ghost predicate AllIn(some: seq<Task>, list: seq<Task>) {
    forall a | 0 <= a < |some| :: some[a] in list
  }

  lemma NextInOrder(some: seq<Task>, list: seq<Task>, i: nat)
    requires i < |list| && Distinct(list) && InListOrder(some, list) && AllIn(some, list[..i])
    ensures InListOrder(some + [list[i]], list) && AllIn(some + [list[i]], list[..i + 1]) && AllIn(some, list[..i + 1])
  {
  }

  /** The other members of t's group among the first i tasks, in their order. */
  ghost function OthersTo(tasks: seq<Task>, t: Task, i: nat): seq<Task>
    requires i <= |tasks|
    reads tasks
  {
    if i == 0 then []
    else if tasks[i - 1].groupLeader == t && tasks[i - 1] != t then OthersTo(tasks, t, i - 1) + [tasks[i - 1]]
    else OthersTo(tasks, t, i - 1)
  }

  lemma FirstTasks(tasks: seq<Task>, i: nat, u: Task?)
    requires i < |tasks| && Distinct(tasks)
    ensures u in tasks[..i + 1] <==> u in tasks[..i] || u == tasks[i]
    ensures tasks[i] !in tasks[..i]
  {
  }

  /** How often u is in the list. */
  ghost function Count(list: seq<Task>, u: Task): nat {
    if list == [] then 0 else Count(list[..|list| - 1], u) + if list[|list| - 1] == u then 1 else 0
  }

  lemma {:induction false} CountIsMultiset(list: seq<Task>, u: Task)
    ensures Count(list, u) == multiset(list)[u]
  {
    if list != [] {
      var front, last := list[..|list| - 1], list[|list| - 1];
      CountIsMultiset(front, u);
      assert list == front + [last];
    }
  }

  lemma {:induction false} CountConcat(a: seq<Task>, b: seq<Task>, u: Task)
    ensures Count(a + b, u) == Count(a, u) + Count(b, u)
  {
    if b == [] {
      assert a + b == a;
    } else {
      var front := b[..|b| - 1];
      CountConcat(a, front, u);
      assert (a + b)[..|a + b| - 1] == a + front;
    }
  }

  lemma CountOne(x: Task, u: Task)
    ensures Count([x], u) == if x == u then 1 else 0
  {
    assert [x][..0] == [];
  }

  lemma {:induction false} OthersOnce(tasks: seq<Task>, t: Task, i: nat, u: Task)
    requires Distinct(tasks) && i <= |tasks|
    ensures Count(OthersTo(tasks, t, i), u) == if u in tasks[..i] && u.groupLeader == t && u != t then 1 else 0
  {
    if i > 0 {
      var x := tasks[i - 1];
      OthersOnce(tasks, t, i - 1, u);
      FirstTasks(tasks, i - 1, u);
      if x.groupLeader == t && x != t {
        CountConcat(OthersTo(tasks, t, i - 1), [x], u);
        CountOne(x, u);
      }
    }
  }

  lemma {:induction false} OthersInOrder(tasks: seq<Task>, t: Task, i: nat)
    requires Distinct(tasks) && i <= |tasks|
    ensures InListOrder(OthersTo(tasks, t, i), tasks) && AllIn(OthersTo(tasks, t, i), tasks[..i])
  {
    if i > 0 {
      OthersInOrder(tasks, t, i - 1);
      NextInOrder(OthersTo(tasks, t, i - 1), tasks, i - 1);
    }
  }

  /** Which tasks are the other members of a leader's group. */
  lemma IsOther(tasks: seq<Task>, t: Task, u: Task)
    requires Led(tasks) && t in tasks && t.groupLeader == t && u in tasks
    ensures t.threadGroup == u.threadGroup && u.groupLeader != u <==> u.groupLeader == t && u != t
  {
    OneLeaderPerGroup(tasks, t);
    OneLeaderPerGroup(tasks, u);
  }

  /** t's group: the other members, and t last. */
  ghost function GroupOf(tasks: seq<Task>, t: Task): seq<Task>
    reads tasks
  {
    OthersTo(tasks, t, |tasks|) + [t]
  }

  lemma GroupOnce(tasks: seq<Task>, t: Task, u: Task)
    requires Distinct(tasks) && t in tasks && t.groupLeader == t
    ensures Count(GroupOf(tasks, t), u) == if u in tasks && u.groupLeader == t then 1 else 0
  {
    assert tasks[..|tasks|] == tasks;
    OthersOnce(tasks, t, |tasks|, u);
    CountConcat(OthersTo(tasks, t, |tasks|), [t], u);
    CountOne(t, u);
  }

  /** The group of t: each member once, the leader last and the others in the order of the list. */
  lemma GroupStarted(tasks: seq<Task>, t: Task, started: seq<Task>)
    requires Distinct(tasks) && t in tasks && t.groupLeader == t && started == GroupOf(tasks, t)
    ensures forall u: Task :: multiset(started)[u] == if u in tasks && u.groupLeader == t then 1 else 0
    ensures |started| > 0 && started[|started| - 1] == t && InListOrder(started[..|started| - 1], tasks)
  {
    OthersInOrder(tasks, t, |tasks|);
    assert started[..|started| - 1] == OthersTo(tasks, t, |tasks|);
    forall u: Task
      ensures multiset(started)[u] == if u in tasks && u.groupLeader == t then 1 else 0
    {
      GroupOnce(tasks, t, u);
      CountIsMultiset(started, u);
    }
  }

  /** start_task_group: start the other members of the leader's group, then the leader itself. */
  method StartTaskGroup(t: Task, tasks: seq<Task>) returns (started: seq<Task>)
    requires Led(tasks) && Distinct(tasks) && t in tasks && t.groupLeader == t
    ensures started == GroupOf(tasks, t)
    ensures forall u: Task :: multiset(started)[u] == if u in tasks && u.groupLeader == t then 1 else 0
    ensures |started| > 0 && started[|started| - 1] == t && InListOrder(started[..|started| - 1], tasks)
  {
    started := [];
    for i := 0 to |tasks|
      invariant started == OthersTo(tasks, t, i)
    {
      IsOther(tasks, t, tasks[i]);
      if t.threadGroup == tasks[i].threadGroup && tasks[i].groupLeader != tasks[i] {
        started := started + [tasks[i]];
      }
    }
    started := started + [t];
    GroupStarted(tasks, t, started);
  }

  /** The groups of the started tasks come in the order of their leaders in the list. */
  ghost predicate GroupsInOrder(started: seq<Task>, list: seq<Task>)
    reads started
  {
    forall a, b, i, j | 0 <= a < b < |started| && 0 <= i < |list| && 0 <= j < |list| ::
      started[a].groupLeader == list[i] && started[b].groupLeader == list[j] ==> i <= j
  }

  ghost predicate LeadersIn(started: seq<Task>, list: seq<Task>)
    reads started
  {
    forall a | 0 <= a < |started| :: started[a].groupLeader in list
  }

  lemma NextGroup(started: seq<Task>, group: seq<Task>, list: seq<Task>, i: nat)
    requires i < |list| && Distinct(list) && GroupsInOrder(started, list) && LeadersIn(started, list[..i])
    requires forall b | 0 <= b < |group| :: group[b].groupLeader == list[i]
    ensures GroupsInOrder(started + group, list) && LeadersIn(started + group, list[..i + 1])
  {
  }

  /** The groups with leaders among the first i tasks, one after another. */
  ghost function GroupsTo(tasks: seq<Task>, i: nat): seq<Task>
    requires i <= |tasks|
    reads tasks
  {
    if i == 0 then []
    else if tasks[i - 1].groupLeader == tasks[i - 1] then GroupsTo(tasks, i - 1) + GroupOf(tasks, tasks[i - 1])
    else GroupsTo(tasks, i - 1)
  }

  lemma {:induction false} GroupsOnce(tasks: seq<Task>, i: nat, u: Task)
    requires Led(tasks) && Distinct(tasks) && i <= |tasks|
    ensures Count(GroupsTo(tasks, i), u) == if u in tasks && u.groupLeader in tasks[..i] then 1 else 0
  {
    if i > 0 {
      var t := tasks[i - 1];
      GroupsOnce(tasks, i - 1, u);
      FirstTasks(tasks, i - 1, u.groupLeader);
      if t.groupLeader == t {
        GroupOnce(tasks, t, u);
        CountConcat(GroupsTo(tasks, i - 1), GroupOf(tasks, t), u);
      } else if u in tasks {
        OneLeaderPerGroup(tasks, u);
      }
    }
  }

  lemma {:induction false} GroupsOrdered(tasks: seq<Task>, i: nat)
    requires Led(tasks) && Distinct(tasks) && i <= |tasks|
    ensures GroupsInOrder(GroupsTo(tasks, i), tasks) && LeadersIn(GroupsTo(tasks, i), tasks[..i])
  {
    if i > 0 {
      var t := tasks[i - 1];
      GroupsOrdered(tasks, i - 1);
      StillLeaders(GroupsTo(tasks, i - 1), tasks, i - 1);
      if t.groupLeader == t {
        LedBy(tasks, t, |tasks|);
        NextGroup(GroupsTo(tasks, i - 1), GroupOf(tasks, t), tasks, i - 1);
      }
    }
  }

  lemma {:induction false} LedBy(tasks: seq<Task>, t: Task, i: nat)
    requires i <= |tasks|
    ensures forall b | 0 <= b < |OthersTo(tasks, t, i)| :: OthersTo(tasks, t, i)[b].groupLeader == t
  {
    if i > 0 { LedBy(tasks, t, i - 1); }
  }

  lemma StillLeaders(started: seq<Task>, list: seq<Task>, i: nat)
    requires i < |list| && LeadersIn(started, list[..i])
    ensures LeadersIn(started, list[..i + 1])
  {
  }

  /** The starting loop of run(): one start_task_group for each leader. */
  method StartAll(tasks: seq<Task>) returns (started: seq<Task>)
    requires Led(tasks) && Distinct(tasks)
    ensures multiset(started) == multiset(tasks) && |started| == |tasks|
    ensures GroupsInOrder(started, tasks)
  {
    started := [];
    for i := 0 to |tasks|
      invariant started == GroupsTo(tasks, i)
    {
      if tasks[i].groupLeader == tasks[i] {
        var group := StartTaskGroup(tasks[i], tasks);
        started := started + group;
      }
    }
    GroupsOrdered(tasks, |tasks|);
    EachOnce(tasks, started);
  }

  lemma EachOnce(tasks: seq<Task>, started: seq<Task>)
    requires Led(tasks) && Distinct(tasks)
    requires started == GroupsTo(tasks, |tasks|)
    ensures multiset(started) == multiset(tasks) && |started| == |tasks|
  {
    assert tasks[..|tasks|] == tasks;
    forall u
      ensures multiset(started)[u] == multiset(tasks)[u]
    {
      GroupsOnce(tasks, |tasks|, u);
      CountIsMultiset(started, u);
      if u in tasks { OneLeaderPerGroup(tasks, u); }
      DistinctCount(tasks, u);
    }
    assert multiset(started) == multiset(tasks);
    assert |started| == |multiset(started)| == |multiset(tasks)|;
  }

  lemma {:induction false} DistinctCount(tasks: seq<Task>, u: Task)
    requires Distinct(tasks)
    ensures multiset(tasks)[u] == if u in tasks then 1 else 0
  {
    if tasks != [] {
      var front, last := tasks[..|tasks| - 1], tasks[|tasks| - 1];
      DistinctCount(front, u);
      assert tasks == front + [last];
      assert last !in front;
    }
  }
}
