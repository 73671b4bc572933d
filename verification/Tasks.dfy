/** struct task of tester_types.h: the fields the other modules work on. */
module Tasks {
  class Task {
    // list and group
    var next: Task?
    var threadGroup: int
    var groupLeader: Task?
    var groupWss: int
    // taskset parameters
    var period: nat
    var utility: nat
    // releases
    var maxReleases: nat
    var extraRelease: bool
    // statistics
    var numReleases: nat
    var numAborted: nat
    var deadlinesMet: nat
    var utilityAccrued: nat
    var maxTardiness: int

    /** new_task, with the fields init_task reads from the taskset line. */
    constructor (threadGroup: int, period: nat, utility: nat)
      ensures next == null && groupLeader == null && groupWss == -1
      ensures this.threadGroup == threadGroup && this.period == period && this.utility == utility
    {
      this.threadGroup := threadGroup;
      this.period := period;
      this.utility := utility;
      next, groupLeader, groupWss := null, null, -1;
      maxReleases, extraRelease := 0, false;
      numReleases, numAborted, deadlinesMet, utilityAccrued, maxTardiness := 0, 0, 0, 0, 0;
    }
  }

  ghost predicate Distinct(list: seq<Task>) {
    forall i, j | 0 <= i < j < |list| :: list[i] != list[j]
  }
}
