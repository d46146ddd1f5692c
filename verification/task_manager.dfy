/**
 * `TaskManager` (TaskManager.cs): querying processes by name, resolving the
 * predecessors of the current process, and force-killing a list of them.
 * The process snapshot is the `rows` parameter; the OS is a `ProcessTable`.
 */
module TaskManager {
  import opened Wrappers
  import opened Processes
  import opened Queries
  import opened Termination

  /**
   * `QueryProcesses`: the inventory records whose name starts with
   * `processName`. Every match is kept and nothing else; an inventory error
   * (a repeated pid) propagates.
   */
  function QueryProcesses(rows: seq<WmiRow>, processName: string): (r: Result<seq<ProcessInfo>, InventoryError>)
    ensures r.Success? <==> DistinctNonIdlePids(rows)
    ensures r.Failure? ==> FetchProcInfoByCIMV2(rows) == Failure(r.error)
    ensures r.Success? ==>
      var inventory := FetchProcInfoByCIMV2(rows).value.values;
      && r.value == WhereNameStartsWith(inventory, processName)
      && (forall p :: p in r.value <==> p in inventory && StartsWith(p.name, processName))
      && (forall p :: p in r.value ==> p.processId != 0)
      && DistinctPids(r.value)
      && |r.value| <= |inventory|
  {
    match FetchProcInfoByCIMV2(rows)
    case Failure(e) => Failure(e)
    case Success(d) =>
      WhereNameDistinct(d.values, processName);
      Success(WhereNameStartsWith(d.values, processName))
  }

  /**
   * `QueryPredecessorProcesses`: the matches sorted (stably) by elapsed time
   * with the first one skipped. The skipped record is the earliest-listed
   * record with the smallest elapsed time, taken to be the current process.
   */
  function QueryPredecessorProcesses(rows: seq<WmiRow>, processName: string): (r: Result<seq<ProcessInfo>, InventoryError>)
    ensures r.Success? <==> DistinctNonIdlePids(rows)
    ensures r.Failure? ==> FetchProcInfoByCIMV2(rows) == Failure(r.error)
    ensures r.Success? ==>
      && (forall p :: p in r.value ==> StartsWith(p.name, processName))
      && IsPredecessorList(QueryProcesses(rows, processName).value, r.value)
  {
    match QueryProcesses(rows, processName)
    case Failure(e) => Failure(e)
    case Success(matches) =>
      var predecessors := Skip(OrderByElapsed(matches), 1);
      SkipYoungest(matches);
      PredecessorsAreMatches(matches, predecessors);
      Success(predecessors)
  }

  /**
   * `ForceKillProcess`: kills the listed processes one after the other; the
   * first lookup or kill that throws ends the loop, and the exception is
   * swallowed.
   */
  method ForceKillProcess(processes: seq<ProcessInfo>, os: ProcessTable) returns (report: KillReport)
    modifies os
    ensures report == ForceKillOutcome(Pids(processes), old(os.alive), os.denied)
    ensures os.alive == old(os.alive) - (set pid | pid in report.killed)
  {
    var pids := Pids(processes);
    ghost var stop := FirstFailure(pids, os.alive, os.denied);
    var attempted, killed := [], [];
    var i := 0;
    while i < |processes|
      invariant i <= stop
      invariant attempted == killed == pids[..i]
      invariant os.alive == old(os.alive) - (set pid | pid in pids[..i])
    {
      var pid := processes[i].processId;
      attempted := attempted + [pid];
      // `Process.GetProcessById(process.ProcessId).Kill()`
      var found := os.GetProcessById(pid);
      if !found {
        assert KillFails(pids, i, old(os.alive), os.denied);
        break;
      }
      var ok := os.Kill(pid);
      if !ok {
        assert KillFails(pids, i, old(os.alive), os.denied);
        break;
      }
      assert !KillFails(pids, i, old(os.alive), os.denied);
      killed := killed + [pid];
      assert pids[..i + 1] == pids[..i] + [pid];
      i := i + 1;
    }
    report := KillReport(attempted, killed);
  }

  /** `TerminateProcess`: every process whose name matches is handed to the
      kill loop, with no skip. */
  method TerminateProcess(rows: seq<WmiRow>, processName: string, os: ProcessTable)
    returns (r: Result<KillReport, InventoryError>)
    modifies os
    ensures r.Success? <==> DistinctNonIdlePids(rows)
    ensures r.Failure? ==> os.alive == old(os.alive)
    ensures r.Success? ==>
      && r.value == ForceKillOutcome(Pids(QueryProcesses(rows, processName).value), old(os.alive), os.denied)
      && os.alive == old(os.alive) - (set pid | pid in r.value.killed)
  {
    var processes := QueryProcesses(rows, processName);
    if processes.Failure? {
      return Failure(processes.error);
    }
    var report := ForceKillProcess(processes.value, os);
    r := Success(report);
  }

  /**
   * `TerminatePredecessorProcess`: the predecessors of the current process's
   * name are handed to the kill loop. The record skipped as "self" is never
   * attempted.
   */
  method TerminatePredecessorProcess(rows: seq<WmiRow>, currentName: string, os: ProcessTable)
    returns (r: Result<KillReport, InventoryError>)
    modifies os
    ensures r.Success? <==> DistinctNonIdlePids(rows)
    ensures r.Failure? ==> os.alive == old(os.alive)
    ensures r.Success? ==>
      && r.value == ForceKillOutcome(Pids(QueryPredecessorProcesses(rows, currentName).value), old(os.alive), os.denied)
      && os.alive == old(os.alive) - (set pid | pid in r.value.killed)
    ensures r.Success? ==>
      var matches := QueryProcesses(rows, currentName).value;
      matches != [] ==> matches[FirstYoungestIndex(matches)].processId !in r.value.attempted
  {
    var predecessors := QueryPredecessorProcesses(rows, currentName);
    if predecessors.Failure? {
      return Failure(predecessors.error);
    }
    var matches := QueryProcesses(rows, currentName).value;
    if matches != [] {
      SelfNotPredecessor(matches, predecessors.value);
    }
    var report := ForceKillProcess(predecessors.value, os);
    r := Success(report);
  }

  /** If the current process is the one match with the strictly smallest
      elapsed time, it is not among the predecessors. */
  lemma SelfSurvivesWhenStrictlyYoungest(rows: seq<WmiRow>, currentName: string, self: ProcessInfo)
    requires DistinctNonIdlePids(rows)
    requires self in QueryProcesses(rows, currentName).value
    requires forall p :: p in QueryProcesses(rows, currentName).value && p != self ==> self.elapsedTime < p.elapsedTime
    ensures self.processId !in Pids(QueryPredecessorProcesses(rows, currentName).value)
  {
    var matches := QueryProcesses(rows, currentName).value;
    var i := FirstYoungestIndex(matches);
    assert matches[i] == self by {
      assert matches[i] in matches;
    }
    SelfNotPredecessor(matches, QueryPredecessorProcesses(rows, currentName).value);
  }

  /** The worked scenario: with target "app", pid 9 (elapsed 5) is taken for
      the current process and only pid 5 is a predecessor. */
  lemma PredecessorScenario()
    ensures QueryPredecessorProcesses([WmiRow(5, "app", 100), WmiRow(9, "app", 5), WmiRow(7, "other", 50)], "app")
         == Success([ProcessInfo(5, "app", 100)])
  {
    var a, b := ProcessInfo(5, "app", 100), ProcessInfo(9, "app", 5);
    calc {
      QueryPredecessorProcesses([WmiRow(5, "app", 100), WmiRow(9, "app", 5), WmiRow(7, "other", 50)], "app");
      { ScenarioMatches(); }
      Success(Skip(OrderByElapsed([a, b]), 1));
      { ScenarioSort(); }
      Success(Skip([b, a], 1));
      Success([a]);
    }
  }

  lemma ScenarioSort()
    ensures OrderByElapsed([ProcessInfo(5, "app", 100), ProcessInfo(9, "app", 5)])
         == [ProcessInfo(9, "app", 5), ProcessInfo(5, "app", 100)]
  {
    var a, b := ProcessInfo(5, "app", 100), ProcessInfo(9, "app", 5);
    assert [a, b][1..] == [b] && [b][1..] == [];
    assert OrderByElapsed([b]) == [b];
    assert InsertByElapsed(a, [b]) == [b] + InsertByElapsed(a, []);
  }

  lemma ScenarioMatches()
    ensures QueryProcesses([WmiRow(5, "app", 100), WmiRow(9, "app", 5), WmiRow(7, "other", 50)], "app")
         == Success([ProcessInfo(5, "app", 100), ProcessInfo(9, "app", 5)])
  {
    ScenarioInventory();
    ScenarioFilter();
  }

  lemma ScenarioInventory()
    ensures FetchProcInfoByCIMV2([WmiRow(5, "app", 100), WmiRow(9, "app", 5), WmiRow(7, "other", 50)]).Success?
    ensures FetchProcInfoByCIMV2([WmiRow(5, "app", 100), WmiRow(9, "app", 5), WmiRow(7, "other", 50)]).value.values
         == [ProcessInfo(5, "app", 100), ProcessInfo(9, "app", 5), ProcessInfo(7, "other", 50)]
  {
    var rows := [WmiRow(5, "app", 100), WmiRow(9, "app", 5), WmiRow(7, "other", 50)];
    var records := [ProcessInfo(5, "app", 100), ProcessInfo(9, "app", 5), ProcessInfo(7, "other", 50)];
    assert DropIdle(rows) == records by {
      assert rows[1..] == [WmiRow(9, "app", 5), WmiRow(7, "other", 50)];
      assert rows[1..][1..] == [WmiRow(7, "other", 50)];
    }
    assert DistinctPids(records);
  }

  lemma ScenarioFilter()
    ensures WhereNameStartsWith([ProcessInfo(5, "app", 100), ProcessInfo(9, "app", 5), ProcessInfo(7, "other", 50)], "app")
         == [ProcessInfo(5, "app", 100), ProcessInfo(9, "app", 5)]
  {
    var a, b, c := ProcessInfo(5, "app", 100), ProcessInfo(9, "app", 5), ProcessInfo(7, "other", 50);
    assert [a, b, c][1..] == [b, c] && [b, c][1..] == [c] && [c][1..] == [];
    calc {
      WhereNameStartsWith([a, b, c], "app");
      { assert StartsWith("app", "app"); }
      [a] + WhereNameStartsWith([b, c], "app");
      [a, b] + WhereNameStartsWith([c], "app");
      { ScenarioOtherDoesNotMatch(); }
      [a, b] + WhereNameStartsWith([], "app");
      [a, b];
    }
  }

  lemma ScenarioOtherDoesNotMatch()
    ensures !StartsWith("other", "app")
  {
    assert "other"[..3][0] == 'o';
  }

  /** Two matches started within the same elapsed-time unit: the one listed
      first is skipped, whichever of them is the current process. */
  lemma TieSkipsFirstListed()
    ensures QueryPredecessorProcesses([WmiRow(5, "app", 3), WmiRow(9, "app", 3)], "app")
         == Success([ProcessInfo(9, "app", 3)])
  {
    var rows := [WmiRow(5, "app", 3), WmiRow(9, "app", 3)];
    var a, b := ProcessInfo(5, "app", 3), ProcessInfo(9, "app", 3);
    assert DropIdle(rows) == [a, b] by {
      assert rows[1..] == [WmiRow(9, "app", 3)];
    }
    assert FetchProcInfoByCIMV2(rows).value.values == [a, b];
    assert StartsWith("app", "app");
    assert WhereNameStartsWith([a, b], "app") == [a, b] by {
      assert [a, b][1..] == [b] && [b][1..] == [];
    }
    assert OrderByElapsed([a, b]) == [a, b] by {
      assert [a, b][1..] == [b] && [b][1..] == [];
      assert OrderByElapsed([b]) == [b];
    }
  }
}
