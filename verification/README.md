# Kill-Predecessor console app — verified model of the predecessor kill

The application makes sure that only the newest running instance of an
executable survives. At start-up it takes a snapshot of the running
processes, keeps those whose name starts with its own process name, sorts
them by elapsed running time, skips the first one (taken to be itself, the
youngest) and force-kills the rest, one after the other. `TaskManager.cs`
holds this logic as a reusable static class (plus a kill-by-name variant);
`Program.cs` holds a near-duplicate that `Main` actually runs.

The model, module by module:

- `Wrappers` — the `Result` type that stands for a thrown exception.
- `Processes` — the `ProcessInfo` record (`ProcInfoDto` in `Program.cs` has
  the same three fields and is the same datatype here), the converted
  performance-counter rows (`WmiRow`), and `FetchProcInfoByCIMV2` as the
  shared pipeline of both files: rows with pid 0 are dropped (`DropIdle`),
  the rest are keyed by pid (`ToDictionary`), and a repeated pid is a
  `DuplicateKey` failure, never a silent overwrite. The dictionary is a map
  plus the sequence of its values in insertion order. .NET documents the
  enumeration order of a `Dictionary` as undefined; the model relies on the
  implementation's behaviour of enumerating a dictionary with no removals in
  insertion order, and the tie-break result (`TieSkipsFirstListed`) depends
  on it.
- `Queries` — the LINQ stages: the ordinal name-prefix filter, `OrderBy` on
  the elapsed time as a stable insertion sort, and `Skip`. The predicate
  `IsPredecessorList` states completely what `OrderBy(...).Skip(1)` yields
  from the matches: empty when nothing matches; otherwise one record fewer,
  sorted, the multiset of matches minus exactly one record, which is the
  earliest-listed record with the smallest elapsed time; and records with
  equal elapsed time stay in inventory order.
- `Termination` — the operating system as a `ProcessTable` (the pids
  `GetProcessById` finds, the pids whose `Kill` is refused) and
  `ForceKillOutcome`, the specification of the kill loop: attempts in list
  order, every pid before the first failure killed, the failing pid
  attempted and nothing after it.
- `TaskManager` and `Program` — the operations of the two files. Both
  `ForceKillProcess` loops are methods over the `ProcessTable`, proved to
  produce `ForceKillOutcome`. `Program.Run` is `Main`.

Points of the code's behaviour that the model makes explicit:

- The kill loop does not go on after a failed kill: in both files the `try`
  wraps the whole `foreach`, so the first `GetProcessById` or `Kill` that
  throws ends the batch. That includes a process that has already exited
  (`VanishedProcessStopsBatch`). The exception is logged (output is left
  out) and swallowed; nothing is returned to the caller. The `KillReport`
  of the model records what happened; the code returns nothing.
- Ties in elapsed time: `OrderBy` is stable, so of the records tied for the
  smallest elapsed time, the one listed first in the inventory is skipped.
  If that one is not the current process, the current process is passed to
  the kill loop and a predecessor survives (`TieSkipsFirstListed`). The
  current process is safe when it is the only match with the strictly
  smallest elapsed time (`SelfSurvivesWhenStrictlyYoungest`).
- Only pid 0 is dropped from the inventory; a negative pid would be kept.

## Model

| member | source | states |
|---|---|---|
| `Processes.DropIdle` | KillPredecessorConsoleApp/TaskManager.cs:105-116 | a record is produced exactly for each row with a non-zero pid, carrying that row's fields; never more records than rows |
| `Processes.DropIdleAppend` | KillPredecessorConsoleApp/TaskManager.cs:105-116 | rows are converted one at a time, so the records keep the row order |
| `Processes.DropIdleDistinct` | KillPredecessorConsoleApp/TaskManager.cs:107-117 | the records have distinct pids exactly when no non-zero pid occurs in two rows |
| `Processes.ToDictionary` | KillPredecessorConsoleApp/TaskManager.cs:117 | succeeds exactly when the pids are distinct, and then holds every record in insertion order under its pid; otherwise fails with the pid of the first record whose pid an earlier record already has |
| `Processes.FetchProcInfoByCIMV2` | KillPredecessorConsoleApp/TaskManager.cs:100-118 | succeeds exactly when no non-zero pid repeats among the rows; the inventory then has no pid 0, distinct pids and the rows' records in row order; a failure names a non-zero pid taken from the rows (Program.cs:76-95 is the same code) |
| `Queries.WhereNameStartsWith` | KillPredecessorConsoleApp/TaskManager.cs:52-53 | keeps every record whose name starts with the target, with its multiplicity, and no other, and never grows the list |
| `Queries.WhereNameDistinct` | KillPredecessorConsoleApp/TaskManager.cs:52-53 | filtering an inventory with distinct pids leaves the pids distinct |
| `Queries.WhereNameAppend` | KillPredecessorConsoleApp/TaskManager.cs:52 | the filter works element by element, so inventory order is kept |
| `Queries.OrderByElapsed` | KillPredecessorConsoleApp/TaskManager.cs:40 | the result is non-decreasing by elapsed time and a permutation of the input |
| `Queries.OrderByElapsedStable` | KillPredecessorConsoleApp/TaskManager.cs:40 | for every elapsed time, the records with that time appear in the same relative order as in the input |
| `Queries.FirstYoungestIndex` | KillPredecessorConsoleApp/TaskManager.cs:40-41 | the position of a record with the smallest elapsed time such that every earlier record is strictly older |
| `Queries.OrderByElapsedHead` | KillPredecessorConsoleApp/TaskManager.cs:40-41 | the head of the sorted list is the earliest-listed record among those tied for the smallest elapsed time |
| `Queries.Skip` | KillPredecessorConsoleApp/TaskManager.cs:41 | LINQ `Skip`: the suffix of length max(n - count, 0), the whole list for a non-positive count |
| `Queries.SkipYoungest` | KillPredecessorConsoleApp/TaskManager.cs:39-41 | sorting the matches and skipping one yields exactly an `IsPredecessorList`: max(N-1, 0) records, sorted, the matches minus the first youngest, ties in inventory order |
| `Queries.PredecessorsAreMatches` | KillPredecessorConsoleApp/TaskManager.cs:39-41 | every predecessor is one of the matches |
| `Queries.SelfNotPredecessor` | KillPredecessorConsoleApp/TaskManager.cs:39-41 | with distinct pids, no predecessor carries the pid of the skipped record |
| `Termination.ProcessTable.GetProcessById` | KillPredecessorConsoleApp/TaskManager.cs:82 | the lookup succeeds exactly for a running pid |
| `Termination.ProcessTable.Kill` | KillPredecessorConsoleApp/TaskManager.cs:82 | the kill succeeds exactly for a running pid that may be killed, and then removes it from the table |
| `Termination.FirstFailure` | KillPredecessorConsoleApp/TaskManager.cs:78-89 | the first position whose attempt throws (not running, refused, or already killed earlier), or the length when none does |
| `Termination.ForceKillOutcome` | KillPredecessorConsoleApp/TaskManager.cs:78-89 | attempted is a prefix of the list and killed a prefix of attempted; exactly one failed attempt unless all were killed; every killed pid's attempt succeeded and the attempt right after them failed |
| `Termination.KilledWereRunning` | KillPredecessorConsoleApp/TaskManager.cs:80-84 | every killed pid was running and allowed to be killed |
| `Termination.AllKilledWhenAllKillable` | KillPredecessorConsoleApp/TaskManager.cs:80-84 | distinct pids that are all running and killable are all killed, in order |
| `Termination.VanishedProcessStopsBatch` | KillPredecessorConsoleApp/TaskManager.cs:78-89 | for [10, 20] where 10 has already exited, only 10 is attempted and nothing is killed |
| `TaskManager.QueryProcesses` | KillPredecessorConsoleApp/TaskManager.cs:49-54 | fails exactly when the inventory does; otherwise returns the name filter of the inventory in inventory order (so order is kept, by `WhereNameAppend`): exactly the records whose name starts with the target, with distinct non-zero pids |
| `TaskManager.QueryPredecessorProcesses` | KillPredecessorConsoleApp/TaskManager.cs:37-42 | fails exactly when the inventory does; otherwise every record's name starts with the target and the result is an `IsPredecessorList` of the `QueryProcesses` matches |
| `TaskManager.ForceKillProcess` | KillPredecessorConsoleApp/TaskManager.cs:75-93 | the report is `ForceKillOutcome` of the pids in list order, and exactly the killed pids leave the process table |
| `TaskManager.TerminateProcess` | KillPredecessorConsoleApp/TaskManager.cs:26-30 | every name match, with no skip, goes to the kill loop; an inventory error leaves the table untouched |
| `TaskManager.TerminatePredecessorProcess` | KillPredecessorConsoleApp/TaskManager.cs:15-20 | exactly the `QueryPredecessorProcesses` result goes to the kill loop, and the skipped youngest match is never attempted |
| `TaskManager.SelfSurvivesWhenStrictlyYoungest` | KillPredecessorConsoleApp/TaskManager.cs:37-42 | a match with strictly the smallest elapsed time is never among the predecessors |
| `TaskManager.PredecessorScenario` | KillPredecessorConsoleApp/TaskManager.cs:37-42 | inventory (5,"app",100), (9,"app",5), (7,"other",50) with target "app" yields [(5,"app",100)] |
| `TaskManager.TieSkipsFirstListed` | KillPredecessorConsoleApp/TaskManager.cs:40-41 | two "app" processes tied at elapsed time 3 (pids 5 then 9): pid 5 is skipped and pid 9 is returned |
| `Program.QueryPredecessorProcess` | KillPredecessorConsoleApp/Program.cs:39-46 | fails exactly when the inventory does; otherwise every record's name starts with the target and the result is an `IsPredecessorList` of the name matches |
| `Program.SameAsTaskManager` | KillPredecessorConsoleApp/Program.cs:39-46 | the copy in Program.cs resolves the same result as `QueryPredecessorProcesses` on every snapshot and name |
| `Program.ForceKillProcess` | KillPredecessorConsoleApp/Program.cs:59-74 | the report is `ForceKillOutcome` of the pids in list order, and exactly the killed pids leave the process table |
| `Program.Run` | KillPredecessorConsoleApp/Program.cs:12-22 | the predecessor list is resolved once and exactly that list is killed; an inventory error escapes before any kill; the youngest match is never attempted |

## Left out

- The WMI query (`ManagementObjectSearcher` over `Win32_PerfFormattedData_PerfProc_Process`) and the `Convert.ToInt32`/`Convert.ToUInt64`/`ToString` of its fields are foreign calls: the snapshot is the `rows` parameter, already converted. A failing query or a failing conversion is not modelled.
- `Process.GetCurrentProcess().ProcessName` is an OS call: the current name is a parameter.
- `Process.GetProcessById` and `Process.Kill` are OS calls: the `ProcessTable` class stands for them. `Kill` is modelled as taking effect at once, and a process exiting between the lookup and the kill is not modelled.
- `ForceKillProcess`, `TerminateProcess`, `TerminatePredecessorProcess` and `Run`: the `ProcessTable` does not know which pid is the calling program, so a successful kill of the caller's own pid (for instance the current process passed on after a tie in elapsed time, or any match in `TerminateProcess`) is modelled as returning normally and the loop goes on to the next pid, whereas in reality the program ends there and no later pid is attempted.
- `PrintProcesses`, `PrintProcess` and all `Debug.WriteLine`/`Console.WriteLine` output are presentation only.
- `NonStopRunning`, with its `Console.CancelKeyPress` handler and `Task.Delay` loop, is an idle loop after the decision and holds no decision logic.
- `Task.CompletedTask` and `ConfigureAwait` are dropped: nothing in the core is asynchronous.
- `String.StartsWith(string)` is culture-sensitive in .NET; the model uses an ordinal prefix test.
- LINQ evaluates `Where`/`OrderBy`/`Skip` lazily, inside the kill loop's `try`; the model evaluates them up front. The dictionary is built eagerly and never changes, so the records produced are the same.
