/**
 * The LINQ pipeline shared by `QueryProcesses`, `QueryPredecessorProcesses`
 * (TaskManager.cs) and `QueryPredecessorProcess` (Program.cs): the name
 * filter, the stable `OrderBy` on the elapsed time and `Skip`.
 */
module Queries {
  import opened Processes

  /** Ordinal `String.StartsWith(prefix)`. */
  predicate StartsWith(s: string, prefix: string) {
    |prefix| <= |s| && s[..|prefix|] == prefix
  }

  /** `Where(p => p.Value.Name.StartsWith(processName)).Select(p => p.Value)`
      over the dictionary's values: every matching record is kept, with its
      multiplicity, and nothing else. */
  function WhereNameStartsWith(s: seq<ProcessInfo>, processName: string): (r: seq<ProcessInfo>)
    ensures forall p :: multiset(r)[p] == if StartsWith(p.name, processName) then multiset(s)[p] else 0
    ensures forall p :: p in r <==> p in s && StartsWith(p.name, processName)
    ensures |r| <= |s|
  {
    if s == [] then []
    else
      var rest := WhereNameStartsWith(s[1..], processName);
      assert s == [s[0]] + s[1..];
      if StartsWith(s[0].name, processName) then [s[0]] + rest else rest
  }

  /** Filtering keeps the pids distinct. */
  lemma {:induction false} WhereNameDistinct(s: seq<ProcessInfo>, processName: string)
    requires DistinctPids(s)
    ensures DistinctPids(WhereNameStartsWith(s, processName))
  {
    if s != [] {
      var rest := WhereNameStartsWith(s[1..], processName);
      assert s == [s[0]] + s[1..];
      DistinctCons(s[0], s[1..]);
      WhereNameDistinct(s[1..], processName);
      if StartsWith(s[0].name, processName) {
        PidsOfSubset(rest, s[1..]);
        DistinctCons(s[0], rest);
      }
    }
  }

  lemma PidsOfSubset(a: seq<ProcessInfo>, b: seq<ProcessInfo>)
    requires forall p :: p in a ==> p in b
    ensures forall pid :: pid in Pids(a) ==> pid in Pids(b)
  {
    forall pid | pid in Pids(a) ensures pid in Pids(b) {
      var i :| 0 <= i < |a| && Pids(a)[i] == pid;
      assert a[i] in a;
      var j :| 0 <= j < |b| && b[j] == a[i];
      assert Pids(b)[j] == pid;
    }
  }

  /** The filter keeps inventory order: it works element by element. */
  lemma {:induction false} WhereNameAppend(a: seq<ProcessInfo>, b: seq<ProcessInfo>, processName: string)
    ensures WhereNameStartsWith(a + b, processName)
         == WhereNameStartsWith(a, processName) + WhereNameStartsWith(b, processName)
  {
    if a == [] {
      assert a + b == b;
    } else {
      assert (a + b)[1..] == a[1..] + b;
      WhereNameAppend(a[1..], b, processName);
    }
  }

  /** LINQ `Skip(count)`: the suffix left after dropping `count` elements
      (all of them when `count` is at least the length, none when it is not positive). */
  function Skip(s: seq<ProcessInfo>, count: int): (r: seq<ProcessInfo>)
    ensures |r| == if count <= 0 then |s| else if count >= |s| then 0 else |s| - count
    ensures r == s[|s| - |r|..]
  {
    if count <= 0 then s else if count >= |s| then [] else s[count..]
  }

  /** Non-decreasing by `ElapsedTime`. */
  predicate Sorted(s: seq<ProcessInfo>) {
    forall i, j :: 0 <= i < j < |s| ==> s[i].elapsedTime <= s[j].elapsedTime
  }

  /** The records of `s` whose elapsed time is `t`, in the order of `s`. */
  ghost function WithElapsed(s: seq<ProcessInfo>, t: int): seq<ProcessInfo> {
    if s == [] then []
    else (if s[0].elapsedTime == t then [s[0]] else []) + WithElapsed(s[1..], t)
  }

  /** The position of the first record with the smallest elapsed time. */
  function FirstYoungestIndex(s: seq<ProcessInfo>): (i: nat)
    requires s != []
    ensures i < |s|
    ensures forall j :: 0 <= j < |s| ==> s[i].elapsedTime <= s[j].elapsedTime
    ensures forall j :: 0 <= j < i ==> s[i].elapsedTime < s[j].elapsedTime
  {
    if |s| == 1 then 0
    else
      var k := FirstYoungestIndex(s[1..]) + 1;
      if s[0].elapsedTime <= s[k].elapsedTime then 0 else k
  }

  /** Every record of `s` has been running at least `e`. */
  predicate AtLeast(s: seq<ProcessInfo>, e: int) {
    forall k :: 0 <= k < |s| ==> e <= s[k].elapsedTime
  }

  lemma AtLeastPermutation(a: seq<ProcessInfo>, b: seq<ProcessInfo>, e: int)
    requires multiset(a) == multiset(b) && AtLeast(b, e)
    ensures AtLeast(a, e)
  {
    forall k | 0 <= k < |a| ensures e <= a[k].elapsedTime {
      assert a[k] in multiset(b);
      var j :| 0 <= j < |b| && b[j] == a[k];
    }
  }

  lemma SortedCons(y: ProcessInfo, s: seq<ProcessInfo>)
    requires Sorted(s) && AtLeast(s, y.elapsedTime)
    ensures Sorted([y] + s)
  {
    var t := [y] + s;
    forall i, j | 0 <= i < j < |t| ensures t[i].elapsedTime <= t[j].elapsedTime {
      assert t[j] == s[j - 1];
      if i > 0 { assert t[i] == s[i - 1]; }
    }
  }

  /** One step of the stable sort: `x` goes before the first element whose
      elapsed time is not smaller than its own. */
  function InsertByElapsed(x: ProcessInfo, t: seq<ProcessInfo>): (r: seq<ProcessInfo>)
    ensures multiset(r) == multiset(t) + multiset{x}
    ensures Sorted(t) ==> Sorted(r)
  {
    if t == [] || x.elapsedTime <= t[0].elapsedTime then
      assert Sorted(t) ==> AtLeast(t, x.elapsedTime);
      if Sorted(t) then SortedCons(x, t); [x] + t else [x] + t
    else
      var rest := InsertByElapsed(x, t[1..]);
      assert t == [t[0]] + t[1..];
      if Sorted(t) then
        assert AtLeast([x] + t[1..], t[0].elapsedTime);
        AtLeastPermutation(rest, [x] + t[1..], t[0].elapsedTime);
        SortedCons(t[0], rest);
        [t[0]] + rest
      else [t[0]] + rest
  }

  /** `OrderBy(dto => dto.ElapsedTime)`: a stable sort, ascending. */
  function OrderByElapsed(s: seq<ProcessInfo>): (r: seq<ProcessInfo>)
    ensures Sorted(r)
    ensures multiset(r) == multiset(s)
    ensures |r| == |s|
  {
    if s == [] then []
    else
      assert s == [s[0]] + s[1..];
      InsertByElapsed(s[0], OrderByElapsed(s[1..]))
  }

  lemma WithElapsedCons(y: ProcessInfo, s: seq<ProcessInfo>, e: int)
    ensures WithElapsed([y] + s, e) == (if y.elapsedTime == e then [y] else []) + WithElapsed(s, e)
  {
    assert ([y] + s)[0] == y && ([y] + s)[1..] == s;
  }

  lemma {:induction false} InsertStable(x: ProcessInfo, t: seq<ProcessInfo>, e: int)
    ensures WithElapsed(InsertByElapsed(x, t), e) == (if x.elapsedTime == e then [x] else []) + WithElapsed(t, e)
  {
    if t == [] || x.elapsedTime <= t[0].elapsedTime {
      WithElapsedCons(x, t, e);
    } else {
      var head, tail := t[0], t[1..];
      var rest := InsertByElapsed(x, tail);
      var keepX := if x.elapsedTime == e then [x] else [];
      var keepHead := if head.elapsedTime == e then [head] else [];
      assert t == [head] + tail;
      // `head` is strictly younger than `x`, so at most one of them has elapsed time `e`
      assert keepX == [] || keepHead == [];
      calc {
        WithElapsed(InsertByElapsed(x, t), e);
        WithElapsed([head] + rest, e);
        { WithElapsedCons(head, rest, e); }
        keepHead + WithElapsed(rest, e);
        { InsertStable(x, tail, e); }
        keepHead + (keepX + WithElapsed(tail, e));
        keepX + (keepHead + WithElapsed(tail, e));
        { WithElapsedCons(head, tail, e); }
        keepX + WithElapsed(t, e);
      }
    }
  }

  /** Stability: records with equal elapsed time keep their relative order. */
  lemma {:induction false} OrderByElapsedStable(s: seq<ProcessInfo>, e: int)
    ensures WithElapsed(OrderByElapsed(s), e) == WithElapsed(s, e)
  {
    if s != [] {
      OrderByElapsedStable(s[1..], e);
      InsertStable(s[0], OrderByElapsed(s[1..]), e);
    }
  }

  lemma {:induction false} WithElapsedFirst(s: seq<ProcessInfo>, i: nat)
    requires i < |s|
    requires forall j :: 0 <= j < i ==> s[j].elapsedTime != s[i].elapsedTime
    ensures WithElapsed(s, s[i].elapsedTime) != []
    ensures WithElapsed(s, s[i].elapsedTime)[0] == s[i]
  {
    if i > 0 {
      assert s[1..][i - 1] == s[i];
      WithElapsedFirst(s[1..], i - 1);
    }
  }

  /** The head of the sorted list is the earliest-listed of the records tied
      for the smallest elapsed time. */
  lemma OrderByElapsedHead(s: seq<ProcessInfo>)
    requires s != []
    ensures OrderByElapsed(s)[0] == s[FirstYoungestIndex(s)]
  {
    var o, i := OrderByElapsed(s), FirstYoungestIndex(s);
    var e := s[i].elapsedTime;
    assert o[0].elapsedTime == e by {
      assert o[0] in multiset(s);
      assert s[i] in multiset(o);
    }
    OrderByElapsedStable(s, e);
    WithElapsedFirst(s, i);
  }

  /**
   * What `OrderBy(ElapsedTime).Skip(1)` yields from the matching records:
   * nothing when nothing matches; otherwise all of them but one, sorted,
   * where the one left out is the earliest-listed record with the smallest
   * elapsed time, and records with equal elapsed time stay in inventory order.
   */
  ghost predicate IsPredecessorList(matches: seq<ProcessInfo>, r: seq<ProcessInfo>) {
    if matches == [] then r == []
    else
      var self := matches[FirstYoungestIndex(matches)];
      && |r| == |matches| - 1
      && Sorted(r)
      && multiset(r) + multiset{self} == multiset(matches)
      && AtLeast(r, self.elapsedTime)
      && (forall e: int :: WithElapsed(r, e) ==
            if e == self.elapsedTime then Skip(WithElapsed(matches, e), 1) else WithElapsed(matches, e))
  }

  /** Dropping the head of the sorted list drops the first record of its own
      elapsed time and no other. */
  lemma SkipHeadStable(matches: seq<ProcessInfo>, e: int)
    requires matches != []
    ensures var o := OrderByElapsed(matches);
      WithElapsed(o[1..], e) ==
        if e == o[0].elapsedTime then Skip(WithElapsed(matches, e), 1) else WithElapsed(matches, e)
  {
    var o := OrderByElapsed(matches);
    assert o == [o[0]] + o[1..];
    WithElapsedCons(o[0], o[1..], e);
    OrderByElapsedStable(matches, e);
  }

  lemma SortedTail(o: seq<ProcessInfo>)
    requires o != [] && Sorted(o)
    ensures Sorted(o[1..]) && AtLeast(o[1..], o[0].elapsedTime)
  {
  }

  /** Every predecessor is one of the matches. */
  lemma PredecessorsAreMatches(matches: seq<ProcessInfo>, r: seq<ProcessInfo>)
    requires IsPredecessorList(matches, r)
    ensures forall p :: p in r ==> p in matches
  {
    if matches != [] {
      var self := matches[FirstYoungestIndex(matches)];
      assert multiset(r) + multiset{self} == multiset(matches);
      forall p | p in r ensures p in matches {
        assert multiset(matches)[p] >= multiset(r)[p] > 0;
      }
    }
  }

  lemma SkipYoungestOrder(matches: seq<ProcessInfo>)
    requires matches != []
    ensures var r, self := Skip(OrderByElapsed(matches), 1), matches[FirstYoungestIndex(matches)];
      && multiset(r) + multiset{self} == multiset(matches)
      && Sorted(r)
      && AtLeast(r, self.elapsedTime)
  {
    var o := OrderByElapsed(matches);
    OrderByElapsedHead(matches);
    SortedTail(o);
    assert o == [o[0]] + o[1..];
  }

  lemma SkipYoungest(matches: seq<ProcessInfo>)
    ensures IsPredecessorList(matches, Skip(OrderByElapsed(matches), 1))
  {
    if matches != [] {
      SkipYoungestOrder(matches);
      OrderByElapsedHead(matches);
      forall e: int ensures WithElapsed(Skip(OrderByElapsed(matches), 1), e) ==
        if e == matches[FirstYoungestIndex(matches)].elapsedTime
        then Skip(WithElapsed(matches, e), 1) else WithElapsed(matches, e)
      {
        SkipHeadStable(matches, e);
      }
    }
  }

  lemma {:induction false} DistinctOnce(s: seq<ProcessInfo>, x: ProcessInfo)
    requires DistinctPids(s)
    ensures multiset(s)[x] <= 1
  {
    if s != [] {
      assert s == [s[0]] + s[1..];
      DistinctCons(s[0], s[1..]);
      DistinctOnce(s[1..], x);
    }
  }

  /** With distinct pids, the record left out is the only one carrying its pid:
      no returned record shares the pid of the skipped one. */
  lemma SelfNotPredecessor(matches: seq<ProcessInfo>, r: seq<ProcessInfo>)
    requires matches != [] && DistinctPids(matches) && IsPredecessorList(matches, r)
    ensures matches[FirstYoungestIndex(matches)].processId !in Pids(r)
  {
    var b := FirstYoungestIndex(matches);
    var self := matches[b];
    if self.processId in Pids(r) {
      var k :| 0 <= k < |r| && Pids(r)[k] == self.processId;
      assert r[k] in multiset(matches);
      var a :| 0 <= a < |matches| && matches[a] == r[k];
      assert a == b;
      assert multiset(matches)[self] >= 2;
      DistinctOnce(matches, self);
    }
  }
}
