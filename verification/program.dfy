/**
 * `Program` (Program.cs): the near-duplicate of the TaskManager pipeline that
 * the entry point actually runs. `Main` is modelled by `Run` (a method named
 * `Main` is an entry point in Dafny); its idle loop afterwards is not modelled.
 */
module Program {
  import opened Wrappers
  import opened Processes
  import opened Queries
  import opened Termination
  import TaskManager

  /**
   * `QueryPredecessorProcess`: the inventory records whose name starts with
   * `processName`, stably sorted by elapsed time, without the first one.
   */
  function QueryPredecessorProcess(rows: seq<WmiRow>, processName: string): (r: Result<seq<ProcessInfo>, InventoryError>)
    ensures r.Success? <==> DistinctNonIdlePids(rows)
    ensures r.Failure? ==> FetchProcInfoByCIMV2(rows) == Failure(r.error)
    ensures r.Success? ==>
      var matches := WhereNameStartsWith(FetchProcInfoByCIMV2(rows).value.values, processName);
      && (forall p :: p in r.value ==> StartsWith(p.name, processName))
      && IsPredecessorList(matches, r.value)
  {
    match FetchProcInfoByCIMV2(rows)
    case Failure(e) => Failure(e)
    case Success(d) =>
      var matches := WhereNameStartsWith(d.values, processName);
      var predecessors := Skip(OrderByElapsed(matches), 1);
      SkipYoungest(matches);
      PredecessorsAreMatches(matches, predecessors);
      assert forall p :: p in predecessors ==> StartsWith(p.name, processName);
      Success(predecessors)
  }

  /** The copy in Program.cs resolves exactly what TaskManager's does. */
  lemma SameAsTaskManager(rows: seq<WmiRow>, processName: string)
    ensures QueryPredecessorProcess(rows, processName) == TaskManager.QueryPredecessorProcesses(rows, processName)
  {
  }

  /**
   * `ForceKillProcess`: looks each process up and kills it, in list order;
   * the first lookup or kill that throws ends the loop, and the exception is
   * swallowed.
   */
  method ForceKillProcess(processes: seq<ProcessInfo>, os: ProcessTable) returns (report: KillReport)
    modifies os
    ensures report == ForceKillOutcome(Pids(processes), old(os.alive), os.denied)
    ensures os.alive == old(os.alive) - (set pid | pid in report.killed)
  {
    var pids := Pids(processes);
    ghost var stop := FirstFailure(pids, os.alive, os.denied);
    var attempted, killed := [], [];
    var i := 0;
    while i < |processes|
      invariant i <= stop
      invariant attempted == killed == pids[..i]
      invariant os.alive == old(os.alive) - (set pid | pid in pids[..i])
    {
      var pid := processes[i].processId;
      attempted := attempted + [pid];
      var proc := os.GetProcessById(pid);
      if !proc {
        assert KillFails(pids, i, old(os.alive), os.denied);
        break;
      }
      var ok := os.Kill(pid);
      if !ok {
        assert KillFails(pids, i, old(os.alive), os.denied);
        break;
      }
      assert !KillFails(pids, i, old(os.alive), os.denied);
      killed := killed + [pid];
      assert pids[..i + 1] == pids[..i] + [pid];
      i := i + 1;
    }
    report := KillReport(attempted, killed);
  }

  /**
   * `Main`: resolves the predecessors of the current process's name once
   * (`ToList`) and kills exactly that list. An inventory error escapes before
   * any kill; the process taken for the current one is never attempted.
   */
  method Run(rows: seq<WmiRow>, processName: string, os: ProcessTable) returns (r: Result<KillReport, InventoryError>)
    modifies os
    ensures r.Success? <==> DistinctNonIdlePids(rows)
    ensures r.Failure? ==> os.alive == old(os.alive)
    ensures r.Success? ==>
      && r.value == ForceKillOutcome(Pids(QueryPredecessorProcess(rows, processName).value), old(os.alive), os.denied)
      && os.alive == old(os.alive) - (set pid | pid in r.value.killed)
    ensures r.Success? ==>
      var matches := WhereNameStartsWith(FetchProcInfoByCIMV2(rows).value.values, processName);
      matches != [] ==> matches[FirstYoungestIndex(matches)].processId !in r.value.attempted
  {
    var predecessor := QueryPredecessorProcess(rows, processName);
    if predecessor.Failure? {
      return Failure(predecessor.error);
    }
    var matches := WhereNameStartsWith(FetchProcInfoByCIMV2(rows).value.values, processName);
    WhereNameDistinct(FetchProcInfoByCIMV2(rows).value.values, processName);
    if matches != [] {
      SelfNotPredecessor(matches, predecessor.value);
    }
    var report := ForceKillProcess(predecessor.value, os);
    r := Success(report);
  }
}
