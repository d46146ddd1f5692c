/**
 * The process records and the inventory snapshot they are read from:
 * the non-WMI part of `FetchProcInfoByCIMV2`, which is the same code in
 * TaskManager.cs and Program.cs.
 */
module Processes {
  import opened Wrappers

  /** C# `int`. */
  type Int32 = x: int | -0x8000_0000 <= x < 0x8000_0000

  /** C# `ulong`. */
  type UInt64 = x: int | 0 <= x < 0x1_0000_0000_0000_0000

  /** One row of the performance-counter query, its fields already converted
      (`IDProcess`, `Name`, `ElapsedTime`). */
  datatype WmiRow = WmiRow(idProcess: Int32, name: string, elapsedTime: UInt64)

  /** `ProcessInfo` in TaskManager.cs and `ProcInfoDto` in Program.cs (same fields). */
  datatype ProcessInfo = ProcessInfo(processId: Int32, name: string, elapsedTime: UInt64)

  /** The `ArgumentException` `ToDictionary` throws on a repeated key. */
  datatype InventoryError = DuplicateKey(pid: Int32)

  /** `Dictionary<int, ProcessInfo>`: the lookup by pid, and the values in the
      order they were added (the order the dictionary enumerates them in). */
  datatype ProcessDictionary = ProcessDictionary(byPid: map<Int32, ProcessInfo>, values: seq<ProcessInfo>)
  {
    ghost predicate Valid() {
      && DistinctPids(values)
      && byPid.Keys == (set p | p in values :: p.processId)
      && (forall p :: p in values ==> byPid[p.processId] == p)
    }
  }

  function Pids(s: seq<ProcessInfo>): seq<Int32> {
    seq(|s|, i requires 0 <= i < |s| => s[i].processId)
  }

  predicate DistinctPids(s: seq<ProcessInfo>) {
    forall i, j :: 0 <= i < j < |s| ==> s[i].processId != s[j].processId
  }

  /** No non-zero pid occurs in two rows. */
  predicate DistinctNonIdlePids(rows: seq<WmiRow>) {
    forall i, j :: 0 <= i < j < |rows| && rows[i].idProcess != 0 ==> rows[i].idProcess != rows[j].idProcess
  }

  function ToWmiRow(p: ProcessInfo): WmiRow {
    WmiRow(p.processId, p.name, p.elapsedTime)
  }

  /** The `Select` that turns a row into a record, or into `null` for pid 0,
      followed by `Where(p => p != null)`. */
  function DropIdle(rows: seq<WmiRow>): (r: seq<ProcessInfo>)
    ensures |r| <= |rows|
    ensures forall p :: p in r <==> p.processId != 0 && ToWmiRow(p) in rows
  {
    if rows == [] then []
    else
      var row := rows[0];
      var rest := DropIdle(rows[1..]);
      assert forall p :: ToWmiRow(p) in rows <==> ToWmiRow(p) == row || ToWmiRow(p) in rows[1..];
      if row.idProcess == 0 then rest
      else [ProcessInfo(row.idProcess, row.name, row.elapsedTime)] + rest
  }

  /** Rows are turned into records one at a time and in order. */
  lemma {:induction false} DropIdleAppend(a: seq<WmiRow>, b: seq<WmiRow>)
    ensures DropIdle(a + b) == DropIdle(a) + DropIdle(b)
  {
    if a == [] {
      assert a + b == b;
    } else {
      assert (a + b)[1..] == a[1..] + b;
      DropIdleAppend(a[1..], b);
    }
  }

  /** The records are keyed distinctly exactly when the non-zero pids of the rows are. */
  lemma {:induction false} DropIdleDistinct(rows: seq<WmiRow>)
    ensures DistinctPids(DropIdle(rows)) <==> DistinctNonIdlePids(rows)
  {
    if rows != [] {
      var row, tail := rows[0], rows[1..];
      DropIdleDistinct(tail);
      NonIdleCons(rows);
      if row.idProcess != 0 {
        var x := ProcessInfo(row.idProcess, row.name, row.elapsedTime);
        assert DropIdle(rows) == [x] + DropIdle(tail);
        DropIdleKeepsPid(tail, row.idProcess);
        DistinctCons(x, DropIdle(tail));
      }
    }
  }

  lemma NonIdleCons(rows: seq<WmiRow>)
    requires rows != []
    ensures DistinctNonIdlePids(rows) <==>
      DistinctNonIdlePids(rows[1..]) && (rows[0].idProcess != 0 ==> rows[0].idProcess !in RowPids(rows[1..]))
  {
    var tail := rows[1..];
    if DistinctNonIdlePids(tail) && (rows[0].idProcess != 0 ==> rows[0].idProcess !in RowPids(tail)) {
      forall i, j | 0 <= i < j < |rows| && rows[i].idProcess != 0
        ensures rows[i].idProcess != rows[j].idProcess
      {
        assert rows[j] == tail[j - 1] && RowPids(tail)[j - 1] == tail[j - 1].idProcess;
        if i > 0 { assert rows[i] == tail[i - 1]; }
      }
    }
    if DistinctNonIdlePids(rows) {
      forall i, j | 0 <= i < j < |tail| && tail[i].idProcess != 0
        ensures tail[i].idProcess != tail[j].idProcess
      {
        assert rows[i + 1] == tail[i] && rows[j + 1] == tail[j];
      }
    }
    if rows[0].idProcess != 0 && rows[0].idProcess in RowPids(tail) {
      var j :| 0 <= j < |tail| && RowPids(tail)[j] == rows[0].idProcess;
      assert rows[j + 1] == tail[j];
    }
  }

  function RowPids(rows: seq<WmiRow>): seq<Int32> {
    seq(|rows|, i requires 0 <= i < |rows| => rows[i].idProcess)
  }

  /** A non-zero pid is among the rows exactly when it is among the records. */
  lemma DropIdleKeepsPid(rows: seq<WmiRow>, pid: Int32)
    requires pid != 0
    ensures pid in RowPids(rows) <==> pid in Pids(DropIdle(rows))
  {
    var r := DropIdle(rows);
    if pid in RowPids(rows) {
      var j :| 0 <= j < |rows| && RowPids(rows)[j] == pid;
      var q := ProcessInfo(rows[j].idProcess, rows[j].name, rows[j].elapsedTime);
      assert ToWmiRow(q) == rows[j];
      assert q in r;
      var k :| 0 <= k < |r| && r[k] == q;
      assert Pids(r)[k] == pid;
    }
    if pid in Pids(r) {
      var k :| 0 <= k < |r| && Pids(r)[k] == pid;
      assert r[k] in r;
      var j :| 0 <= j < |rows| && rows[j] == ToWmiRow(r[k]);
      assert RowPids(rows)[j] == pid;
    }
  }

  lemma DistinctCons(x: ProcessInfo, s: seq<ProcessInfo>)
    ensures DistinctPids([x] + s) <==> DistinctPids(s) && x.processId !in Pids(s)
  {
    var t := [x] + s;
    if DistinctPids(s) && x.processId !in Pids(s) {
      forall i, j | 0 <= i < j < |t| ensures t[i].processId != t[j].processId {
        assert t[j] == s[j - 1] && Pids(s)[j - 1] == s[j - 1].processId;
        if i > 0 { assert t[i] == s[i - 1]; }
      }
    }
    if DistinctPids(t) {
      forall i, j | 0 <= i < j < |s| ensures s[i].processId != s[j].processId {
        assert t[i + 1] == s[i] && t[j + 1] == s[j];
      }
    }
    if x.processId in Pids(s) {
      var k :| 0 <= k < |s| && Pids(s)[k] == x.processId;
      assert t[0] == x && t[k + 1] == s[k];
    }
  }

  lemma DistinctSnoc(s: seq<ProcessInfo>, x: ProcessInfo)
    ensures DistinctPids(s + [x]) <==> DistinctPids(s) && x.processId !in Pids(s)
  {
    var t := s + [x];
    if DistinctPids(s) && x.processId !in Pids(s) {
      forall i, j | 0 <= i < j < |t| ensures t[i].processId != t[j].processId {
        assert t[i] == s[i] && Pids(s)[i] == s[i].processId;
        if j < |s| { assert t[j] == s[j]; }
      }
    }
    if DistinctPids(t) {
      forall i, j | 0 <= i < j < |s| ensures s[i].processId != s[j].processId {
        assert t[i] == s[i] && t[j] == s[j];
      }
    }
    if x.processId in Pids(s) {
      var i :| 0 <= i < |s| && Pids(s)[i] == x.processId;
      assert t[i] == s[i] && t[|s|] == x;
    }
  }

  /** Adding a record under a fresh key keeps the dictionary consistent. */
  lemma AddKeepsValid(d: ProcessDictionary, x: ProcessInfo)
    requires d.Valid() && x.processId !in d.byPid
    ensures x.processId !in Pids(d.values)
    ensures ProcessDictionary(d.byPid[x.processId := x], d.values + [x]).Valid()
  {
    DistinctSnoc(d.values, x);
    assert forall p :: p in d.values + [x] <==> p in d.values || p == x;
  }

  /** A key of a consistent dictionary is the pid of one of its values. */
  lemma KeyIsPid(d: ProcessDictionary, pid: Int32)
    requires d.Valid() && pid in d.byPid
    ensures pid in Pids(d.values)
  {
    var p :| p in d.values && p.processId == pid;
    var i :| 0 <= i < |d.values| && d.values[i] == p;
    assert Pids(d.values)[i] == pid;
  }

  /**
   * `ToDictionary(p => p.ProcessId, p => p)`: adds the records in order and
   * throws on the first record whose pid is already a key.
   */
  function ToDictionary(s: seq<ProcessInfo>): (r: Result<ProcessDictionary, InventoryError>)
    ensures r.Success? <==> DistinctPids(s)
    ensures r.Success? ==> r.value.values == s && r.value.Valid()
    ensures r.Failure? ==> exists j :: 0 < j < |s| && s[j].processId == r.error.pid
                                    && DistinctPids(s[..j]) && r.error.pid in Pids(s[..j])
    decreases |s|
  {
    if s == [] then Success(ProcessDictionary(map[], []))
    else
      var init, x := s[..|s| - 1], s[|s| - 1];
      assert s == init + [x];
      DistinctSnoc(init, x);
      match ToDictionary(init)
      case Failure(e) =>
        assert forall j :: 0 <= j < |init| ==> s[..j] == init[..j];
        Failure(e)
      case Success(d) =>
        if x.processId in d.byPid then
          KeyIsPid(d, x.processId);
          Failure(DuplicateKey(x.processId))
        else
          AddKeepsValid(d, x);
          Success(ProcessDictionary(d.byPid[x.processId := x], init + [x]))
  }

  /**
   * `FetchProcInfoByCIMV2` on a snapshot: rows with pid 0 are dropped, the
   * rest are keyed by pid; a pid repeated among the remaining rows is an
   * error, never a silent overwrite.
   */
  function FetchProcInfoByCIMV2(rows: seq<WmiRow>): (r: Result<ProcessDictionary, InventoryError>)
    ensures r.Success? <==> DistinctNonIdlePids(rows)
    ensures r.Success? ==> r.value.Valid() && r.value.values == DropIdle(rows)
    ensures r.Success? ==> forall p :: p in r.value.values ==> p.processId != 0
    ensures r.Failure? ==> r.error.pid != 0 && exists row :: row in rows && row.idProcess == r.error.pid
  {
    var records := DropIdle(rows);
    DropIdleDistinct(rows);
    var r := ToDictionary(records);
    assert r.Failure? ==> r.error.pid != 0 && exists row :: row in rows && row.idProcess == r.error.pid by {
      if r.Failure? {
        var j :| 0 < j < |records| && records[j].processId == r.error.pid;
        assert records[j] in records;
        assert ToWmiRow(records[j]) in rows;
      }
    }
    r
  }
}
