/**
 * The force-kill loop's view of the operating system, and the outcome the
 * loop is proved to produce. In both copies of `ForceKillProcess` the `try`
 * wraps the whole `foreach`: the first pid whose lookup or kill throws ends
 * the batch, and the exception is swallowed.
 */
module Termination {

  /** The part of the OS process table the kill loop touches: the pids
      `Process.GetProcessById` still finds, and the pids on which `Kill` is
      refused (for instance for lack of privilege). */
  class ProcessTable {
    var alive: set<int>
    const denied: set<int>

    constructor (alive: set<int>, denied: set<int>)
      ensures this.alive == alive && this.denied == denied
    {
      this.alive := alive;
      this.denied := denied;
    }

    /** `Process.GetProcessById`: `false` stands for the exception it throws
        when no process with that id is running. */
    method GetProcessById(pid: int) returns (found: bool)
      ensures found <==> pid in alive
    {
      found := pid in alive;
    }

    /** `Process.Kill`: `false` stands for the exception it throws; on success
        the process is gone from the table. */
    method Kill(pid: int) returns (ok: bool)
      modifies this
      ensures ok <==> pid in old(alive) && pid !in denied
      ensures alive == if ok then old(alive) - {pid} else old(alive)
    {
      ok := pid in alive && pid !in denied;
      if ok {
        alive := alive - {pid};
      }
    }
  }

  /** The pids the loop tried, in order, and those among them it killed. */
  datatype KillReport = KillReport(attempted: seq<int>, killed: seq<int>)

  /** Assuming every earlier kill succeeded, whether the attempt at position
      `j` throws: the pid was never running, its kill is refused, or an
      earlier position already killed it. */
  predicate KillFails(pids: seq<int>, j: nat, alive: set<int>, denied: set<int>)
    requires j < |pids|
  {
    pids[j] !in alive || pids[j] in denied || pids[j] in pids[..j]
  }

  function FirstFailureFrom(pids: seq<int>, i: nat, alive: set<int>, denied: set<int>): (k: nat)
    requires i <= |pids|
    requires forall j :: 0 <= j < i ==> !KillFails(pids, j, alive, denied)
    ensures i <= k <= |pids|
    ensures forall j :: 0 <= j < k ==> !KillFails(pids, j, alive, denied)
    ensures k < |pids| ==> KillFails(pids, k, alive, denied)
    decreases |pids| - i
  {
    if i == |pids| || KillFails(pids, i, alive, denied) then i
    else FirstFailureFrom(pids, i + 1, alive, denied)
  }

  /** The position at which the loop stops: the first failing attempt, or
      the length of the list when none fails. */
  function FirstFailure(pids: seq<int>, alive: set<int>, denied: set<int>): (k: nat)
    ensures k <= |pids|
    ensures forall j :: 0 <= j < k ==> !KillFails(pids, j, alive, denied)
    ensures k < |pids| ==> KillFails(pids, k, alive, denied)
  {
    FirstFailureFrom(pids, 0, alive, denied)
  }

  /**
   * What the kill loop does to a list of pids: it attempts them strictly in
   * list order, kills every pid before the first failure, attempts the
   * failing pid and nothing after it.
   */
  function ForceKillOutcome(pids: seq<int>, alive: set<int>, denied: set<int>): (r: KillReport)
    ensures r.attempted <= pids && r.killed <= r.attempted
    ensures |r.attempted| == if |r.killed| == |pids| then |pids| else |r.killed| + 1
    ensures forall j :: 0 <= j < |r.killed| ==> !KillFails(pids, j, alive, denied)
    ensures |r.killed| < |pids| ==> KillFails(pids, |r.killed|, alive, denied)
  {
    var k := FirstFailure(pids, alive, denied);
    KillReport(pids[..if k < |pids| then k + 1 else k], pids[..k])
  }

  /** The pids killed are pids that were running and allowed to be killed. */
  lemma KilledWereRunning(pids: seq<int>, alive: set<int>, denied: set<int>)
    ensures forall pid :: pid in ForceKillOutcome(pids, alive, denied).killed ==> pid in alive && pid !in denied
  {
    var r := ForceKillOutcome(pids, alive, denied);
    forall pid | pid in r.killed ensures pid in alive && pid !in denied {
      var j :| 0 <= j < |r.killed| && r.killed[j] == pid;
      assert pids[j] == pid && !KillFails(pids, j, alive, denied);
    }
  }

  /** When every pid is distinct, running and killable, the loop kills them all. */
  lemma AllKilledWhenAllKillable(pids: seq<int>, alive: set<int>, denied: set<int>)
    requires forall i, j :: 0 <= i < j < |pids| ==> pids[i] != pids[j]
    requires forall pid :: pid in pids ==> pid in alive && pid !in denied
    ensures ForceKillOutcome(pids, alive, denied) == KillReport(pids, pids)
  {
  }

  /** A process that exited between the snapshot and the kill ends the batch:
      the pids after it are never attempted. */
  lemma VanishedProcessStopsBatch()
    ensures ForceKillOutcome([10, 20], {20}, {}) == KillReport([10], [])
  {
    assert KillFails([10, 20], 0, {20}, {});
  }
}
