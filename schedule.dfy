/**
 * The pure part of the critical-path engine (CriticalPathEngine.java): the code index, the maximum
 * critical cost, the execution ordering, and the properties a finished evaluation has, with the
 * lemmas that say what they mean for the schedule.
 */
module Schedule {
  import opened Results
  import opened Tasks
  import opened Graph
  import opened Evaluated

  /** The failures that abort an evaluation. */
  datatype EvalError =
    | DuplicateTaskCode(code: string)  // two tasks share a code: building the code index fails
    | UnknownDependency(code: string)  // a dependency code names no task: its lookup yields null
    | CyclicDependency                 // a backflow pass finalised nothing

  function Codes(src: seq<Task>): (codes: seq<string>)
    ensures |codes| == |src| && forall i :: 0 <= i < |src| ==> codes[i] == src[i].taskCode
  {
    seq(|src|, i requires 0 <= i < |src| => src[i].taskCode)
  }

  predicate Distinct(codes: seq<string>) {
    forall i, j :: 0 <= i < j < |codes| ==> codes[i] != codes[j]
  }

  /**
   * The index from task code to arena position, built in list order; the first code met a second
   * time aborts the build.
   */
  function TaskMapOf(codes: seq<string>): (r: Result<map<string, nat>, EvalError>)
    ensures r.Ok? <==> Distinct(codes)
    ensures r.Ok? ==> r.value.Keys == (set c | c in codes)
    ensures r.Ok? ==> forall i :: 0 <= i < |codes| ==> r.value[codes[i]] == i
    ensures r.Err? ==> r.error.DuplicateTaskCode?
    ensures r.Err? ==> exists i, j :: 0 <= i < j < |codes| && codes[i] == r.error.code && codes[j] == r.error.code
  {
    if codes == [] then Ok(map[])
    else
      var init := codes[..|codes| - 1];
      var last := codes[|codes| - 1];
      var prefix := TaskMapOf(init);
      if prefix.Err? then
        assert forall i :: 0 <= i < |init| ==> init[i] == codes[i];
        prefix
      else if last in prefix.value then
        var i :| 0 <= i < |init| && init[i] == last;
        assert codes[i] == last;
        Err(DuplicateTaskCode(last))
      else
        assert codes == init + [last];
        IndexExtends(init, last, prefix.value);
        Ok(prefix.value[last := |codes| - 1])
  }

  /** An index of distinct codes, extended by a new code at the end. */
  lemma IndexExtends(init: seq<string>, last: string, m: map<string, nat>)
    requires Distinct(init) && m.Keys == (set c | c in init)
    requires forall i :: 0 <= i < |init| ==> m[init[i]] == i
    requires last !in m
    ensures Distinct(init + [last])
    ensures m[last := |init|].Keys == (set c | c in init + [last])
    ensures forall i :: 0 <= i < |init| + 1 ==> m[last := |init|][(init + [last])[i]] == i
  {
    forall i | 0 <= i < |init|
      ensures init[i] in m && init[i] != last
    {
    }
  }

  /** Every dependency code of every task is the code of some task. */
  ghost predicate DependenciesKnown(src: seq<Task>) {
    forall i, c :: 0 <= i < |src| && c in src[i].dependencies ==> c in Codes(src)
  }

  /** The arena indices of the tasks whose codes are in `codes`. */
  function ResolveCodes(codes: set<string>, taskMap: map<string, nat>): set<nat>
    requires codes <= taskMap.Keys
  {
    set c | c in codes :: taskMap[c]
  }

  /** Every code the index knows resolves to an index of the arena. */
  lemma ResolvedInRange(codes: seq<string>, taskMap: map<string, nat>, cs: set<string>)
    requires TaskMapOf(codes) == Ok(taskMap) && cs <= taskMap.Keys
    ensures forall d :: d in ResolveCodes(cs, taskMap) ==> d < |codes|
  {
    forall d | d in ResolveCodes(cs, taskMap)
      ensures d < |codes|
    {
      var c :| c in cs && d == taskMap[c];
      assert c in taskMap.Keys;
      var j :| 0 <= j < |codes| && codes[j] == c;
    }
  }

  /** The dependency graph an input describes once every code is resolved to its task's index. */
  ghost function ResolvedGraph(src: seq<Task>): (g: Deps)
    requires Distinct(Codes(src)) && DependenciesKnown(src)
    ensures |g| == |src|
  {
    var taskMap := TaskMapOf(Codes(src)).value;
    seq(|src|, i requires 0 <= i < |src| => ResolveCodes(src[i].dependencies, taskMap))
  }

  /** The successor sets are exactly the reverse of the dependency sets, and both stay in the arena. */
  ghost predicate BlockedIsReverse(ts: seq<TaskEvaluated>) {
    && (forall d, t {:trigger t in ts[d].blocked} ::
          0 <= d < |ts| && t in ts[d].blocked ==> t < |ts| && d in ts[t].dependencies)
    && (forall t, d {:trigger d in ts[t].dependencies} ::
          0 <= t < |ts| && d in ts[t].dependencies ==> d < |ts| && t in ts[d].blocked)
  }

  lemma ReverseInRange(ts: seq<TaskEvaluated>)
    requires BlockedIsReverse(ts)
    ensures InRange(GraphOf(ts))
  {
    var g := GraphOf(ts);
    forall i, d | 0 <= i < |g| && d in g[i]
      ensures d < |g|
    {
      assert d in ts[i].dependencies;
    }
  }

  function EarlyFinishes(ts: seq<TaskEvaluated>): (ef: seq<int>)
    ensures |ef| == |ts| && forall i :: 0 <= i < |ts| ==> ef[i] == ts[i].earlyFinish
  {
    seq(|ts|, i requires 0 <= i < |ts| => ts[i].earlyFinish)
  }

  function LatestStarts(ts: seq<TaskEvaluated>): (ls: seq<int>)
    ensures |ls| == |ts| && forall i :: 0 <= i < |ts| ==> ls[i] == ts[i].latestStart
  {
    seq(|ts|, i requires 0 <= i < |ts| => ts[i].latestStart)
  }

  /**
   * Earliest intervals: a task starts when its last dependency finishes (at 0 without dependencies)
   * and finishes its cost later.
   */
  ghost predicate EarlyIntervalsHold(ts: seq<TaskEvaluated>) {
    && InRange(GraphOf(ts))
    && forall i {:trigger EarlyIntervalAt(ts, i)} :: 0 <= i < |ts| ==> EarlyIntervalAt(ts, i)
  }

  /** The earliest-interval equations of node `i`. */
  ghost predicate EarlyIntervalAt(ts: seq<TaskEvaluated>, i: nat) {
    && i < |ts|
    && (forall d :: d in ts[i].dependencies ==> d < |ts|)
    && ts[i].earlyStart == MaxOver(ts[i].dependencies, EarlyFinishes(ts))
    && ts[i].earlyFinish == ts[i].earlyStart + ts[i].cost
  }

  /**
   * Latest intervals of the critical path method: a task must finish by the latest start of each task
   * it blocks (by `maxCost` when it blocks none) and starts its cost earlier.
   */
  ghost predicate LatestIntervalsHold(ts: seq<TaskEvaluated>, maxCost: int) {
    forall i {:trigger LatestIntervalAt(ts, i, maxCost)} :: 0 <= i < |ts| ==> LatestIntervalAt(ts, i, maxCost)
  }

  /** The latest-interval equations of node `i` for total duration `maxCost`. */
  ghost predicate LatestIntervalAt(ts: seq<TaskEvaluated>, i: nat, maxCost: int) {
    && i < |ts|
    && (forall s :: s in ts[i].blocked ==> s < |ts|)
    && ts[i].latestFinish == (if ts[i].blocked == {} then maxCost else MinOver(ts[i].blocked, LatestStarts(ts)))
    && ts[i].latestStart == ts[i].latestFinish - ts[i].cost
  }

  /** The largest critical cost in the list, 0 for an empty list: the project's total duration. */
  function MaxCriticalCost(ts: seq<TaskEvaluated>): (m: int)
    ensures ts == [] ==> m == 0
    ensures ts != [] ==> exists i :: 0 <= i < |ts| && m == ts[i].criticalCost
    ensures forall i :: 0 <= i < |ts| ==> ts[i].criticalCost <= m
  {
    if ts == [] then 0
    else if |ts| == 1 then ts[0].criticalCost
    else
      var rest := MaxCriticalCost(ts[1..]);
      assert forall i :: 1 <= i < |ts| ==> ts[i] == ts[1..][i - 1];
      if ts[0].criticalCost < rest then rest else ts[0].criticalCost
  }

  // ---------------------------------------------------------------------------------------------
  // Execution order: a stable sort by earliest start.

  predicate SortedByStart(ts: seq<TaskEvaluated>) {
    forall i, j :: 0 <= i < j < |ts| ==> ts[i].earlyStart <= ts[j].earlyStart
  }

  /** The tasks of `ts` that start at `v`, in their order in `ts`. */
  function StartingAt(ts: seq<TaskEvaluated>, v: int): seq<TaskEvaluated> {
    if ts == [] then []
    else (if ts[0].earlyStart == v then [ts[0]] else []) + StartingAt(ts[1..], v)
  }

  /** Inserts `t` after every task that starts no later than it. */
  function InsertByStart(t: TaskEvaluated, s: seq<TaskEvaluated>): (r: seq<TaskEvaluated>)
    ensures multiset(r) == multiset(s) + multiset{t}
  {
    if s == [] then [t]
    else if t.earlyStart < s[0].earlyStart then [t] + s
    else
      assert s == [s[0]] + s[1..];
      [s[0]] + InsertByStart(t, s[1..])
  }

  /** The tasks ordered by earliest start; tasks that start together keep their relative order. */
  function SortByExecutionOrder(ts: seq<TaskEvaluated>): (r: seq<TaskEvaluated>)
    ensures multiset(r) == multiset(ts)
  {
    if ts == [] then []
    else
      assert ts == ts[..|ts| - 1] + [ts[|ts| - 1]];
      InsertByStart(ts[|ts| - 1], SortByExecutionOrder(ts[..|ts| - 1]))
  }

  lemma {:induction false} StartingAtAppend(a: seq<TaskEvaluated>, b: seq<TaskEvaluated>, v: int)
    ensures StartingAt(a + b, v) == StartingAt(a, v) + StartingAt(b, v)
  {
    if a != [] {
      assert (a + b)[1..] == a[1..] + b;
      StartingAtAppend(a[1..], b, v);
    } else {
      assert a + b == b;
    }
  }

  lemma {:induction false} StartingAtLater(s: seq<TaskEvaluated>, v: int)
    requires SortedByStart(s) && s != [] && v < s[0].earlyStart
    ensures StartingAt(s, v) == []
  {
    if |s| > 1 {
      StartingAtLater(s[1..], v);
    }
  }

  lemma {:induction false} InsertByStartSorted(t: TaskEvaluated, s: seq<TaskEvaluated>)
    requires SortedByStart(s)
    ensures SortedByStart(InsertByStart(t, s))
  {
    if s != [] && s[0].earlyStart <= t.earlyStart {
      var r' := InsertByStart(t, s[1..]);
      InsertByStartSorted(t, s[1..]);
      forall j | 0 <= j < |r'|
        ensures s[0].earlyStart <= r'[j].earlyStart
      {
        assert r'[j] in multiset(r');
        if r'[j] != t {
          assert r'[j] in multiset(s[1..]);
          var k :| 0 <= k < |s[1..]| && s[1..][k] == r'[j];
          assert s[k + 1] == r'[j];
        }
      }
      assert InsertByStart(t, s) == [s[0]] + r';
    }
  }

  lemma {:induction false} InsertByStartStable(t: TaskEvaluated, s: seq<TaskEvaluated>, v: int)
    requires SortedByStart(s)
    ensures StartingAt(InsertByStart(t, s), v) == StartingAt(s, v) + (if t.earlyStart == v then [t] else [])
  {
    var r := InsertByStart(t, s);
    if s == [] {
      assert StartingAt(r, v) == (if t.earlyStart == v then [t] else []) + StartingAt([], v);
    } else if t.earlyStart < s[0].earlyStart {
      assert r[1..] == s;
      if t.earlyStart == v {
        StartingAtLater(s, v);
      }
    } else {
      var r' := InsertByStart(t, s[1..]);
      InsertByStartStable(t, s[1..], v);
      assert r[0] == s[0] && r[1..] == r';
      var head := if s[0].earlyStart == v then [s[0]] else [];
      var tail := if t.earlyStart == v then [t] else [];
      assert StartingAt(r, v) == head + (StartingAt(s[1..], v) + tail);
      assert StartingAt(s, v) == head + StartingAt(s[1..], v);
    }
  }

  /** The execution order is sorted by earliest start. */
  lemma {:induction false} SortByExecutionOrderSorted(ts: seq<TaskEvaluated>)
    ensures SortedByStart(SortByExecutionOrder(ts))
  {
    if ts != [] {
      var init := ts[..|ts| - 1];
      SortByExecutionOrderSorted(init);
      InsertByStartSorted(ts[|ts| - 1], SortByExecutionOrder(init));
    }
  }

  /** The tasks of a non-empty list that start at `v`: those of all but its last, then the last if it does. */
  lemma StartingAtLast(ts: seq<TaskEvaluated>, v: int)
    requires ts != []
    ensures StartingAt(ts, v)
         == StartingAt(ts[..|ts| - 1], v) + (if ts[|ts| - 1].earlyStart == v then [ts[|ts| - 1]] else [])
  {
    var init, last := ts[..|ts| - 1], ts[|ts| - 1];
    assert ts == init + [last];
    StartingAtAppend(init, [last], v);
    assert StartingAt([last], v) == (if last.earlyStart == v then [last] else []) + StartingAt([], v);
  }

  /** The tasks of the execution order that start at `v` are those of the input, in input order. */
  lemma {:induction false} SortByExecutionOrderStable(ts: seq<TaskEvaluated>, v: int)
    ensures StartingAt(SortByExecutionOrder(ts), v) == StartingAt(ts, v)
  {
    if ts != [] {
      var init, last := ts[..|ts| - 1], ts[|ts| - 1];
      SortByExecutionOrderStable(init, v);
      SortByExecutionOrderSorted(init);
      InsertByStartStable(last, SortByExecutionOrder(init), v);
      StartingAtLast(ts, v);
    }
  }

  /**
   * The execution order is sorted by earliest start, holds exactly the input tasks, and is stable:
   * for every start time, the tasks starting then appear in their input order.
   */
  lemma SortByExecutionOrderCorrect(ts: seq<TaskEvaluated>)
    ensures SortedByStart(SortByExecutionOrder(ts))
    ensures multiset(SortByExecutionOrder(ts)) == multiset(ts)
    ensures forall v :: StartingAt(SortByExecutionOrder(ts), v) == StartingAt(ts, v)
  {
    SortByExecutionOrderSorted(ts);
    forall v
      ensures StartingAt(SortByExecutionOrder(ts), v) == StartingAt(ts, v)
    {
      SortByExecutionOrderStable(ts, v);
    }
  }

  // ---------------------------------------------------------------------------------------------
  // What the critical costs mean: the longest chains of work.

  ghost predicate CostsNonNegative(ts: seq<TaskEvaluated>) {
    forall i :: 0 <= i < |ts| ==> ts[i].cost >= 0
  }

  /** The total cost of the tasks on chain `p`. */
  function ChainCost(ts: seq<TaskEvaluated>, p: seq<nat>): int
    requires forall k :: 0 <= k < |p| ==> p[k] < |ts|
  {
    if p == [] then 0 else ts[p[0]].cost + ChainCost(ts, p[1..])
  }

  /** With non-negative costs, a task's critical cost is at least its own cost. */
  lemma {:induction false} CriticalCostAtLeastCost(ts: seq<TaskEvaluated>, rank: seq<nat>, i: nat)
    requires CriticalCostsHold(ts) && Ranked(GraphOf(ts), rank) && CostsNonNegative(ts)
    requires i < |ts|
    ensures ts[i].criticalCost >= ts[i].cost >= 0
    decreases rank[i]
  {
    var cc := CriticalCosts(ts);
    assert CriticalCostAt(ts, i);
    if ts[i].dependencies != {} {
      var d :| d in ts[i].dependencies && MaxOver(ts[i].dependencies, cc) == cc[d];
      assert d in GraphOf(ts)[i];
      CriticalCostAtLeastCost(ts, rank, d);
    }
  }

  /** No chain of dependencies starting at a task costs more than the task's critical cost. */
  lemma {:induction false} ChainCostAtMostCriticalCost(ts: seq<TaskEvaluated>, rank: seq<nat>, p: seq<nat>)
    requires CriticalCostsHold(ts) && Ranked(GraphOf(ts), rank) && CostsNonNegative(ts)
    requires IsChain(GraphOf(ts), p)
    ensures ChainCost(ts, p) <= ts[p[0]].criticalCost
  {
    var cc := CriticalCosts(ts);
    if |p| == 1 {
      CriticalCostAtLeastCost(ts, rank, p[0]);
      assert p[1..] == [];
    } else {
      var q := p[1..];
      assert forall k :: 1 <= k < |q| ==> q[k] == p[k + 1] && q[k - 1] == p[k];
      ChainCostAtMostCriticalCost(ts, rank, q);
      assert CriticalCostAt(ts, p[0]);
      assert p[1] in ts[p[0]].dependencies;
      assert cc[p[1]] <= MaxOver(ts[p[0]].dependencies, cc);
    }
  }

  /** Every task's critical cost is the cost of some chain from it back to a task without dependencies. */
  lemma {:induction false} CriticalChainExists(ts: seq<TaskEvaluated>, rank: seq<nat>, i: nat)
    returns (p: seq<nat>)
    requires CriticalCostsHold(ts) && Ranked(GraphOf(ts), rank)
    requires i < |ts|
    ensures IsChain(GraphOf(ts), p) && p[0] == i && ts[p[|p| - 1]].dependencies == {}
    ensures ChainCost(ts, p) == ts[i].criticalCost
    decreases rank[i]
  {
    var g, cc := GraphOf(ts), CriticalCosts(ts);
    assert CriticalCostAt(ts, i);
    if ts[i].dependencies == {} {
      p := [i];
      assert p[1..] == [];
    } else {
      var d :| d in ts[i].dependencies && MaxOver(ts[i].dependencies, cc) == cc[d];
      assert d in g[i];
      var q := CriticalChainExists(ts, rank, d);
      p := [i] + q;
      assert p[1..] == q;
      assert forall k :: 1 <= k < |p| ==> p[k] == q[k - 1];
    }
  }

  /**
   * The total duration is the cost of the longest chain of dependent tasks: no chain costs more,
   * and (for a non-empty project) some chain costs exactly that much.
   */
  lemma TotalDurationIsLongestChain(ts: seq<TaskEvaluated>, rank: seq<nat>)
    requires CriticalCostsHold(ts) && Ranked(GraphOf(ts), rank) && CostsNonNegative(ts)
    ensures forall p :: IsChain(GraphOf(ts), p) ==> ChainCost(ts, p) <= MaxCriticalCost(ts)
    ensures ts != [] ==> exists p :: IsChain(GraphOf(ts), p) && ChainCost(ts, p) == MaxCriticalCost(ts)
  {
    forall p | IsChain(GraphOf(ts), p)
      ensures ChainCost(ts, p) <= MaxCriticalCost(ts)
    {
      ChainCostAtMostCriticalCost(ts, rank, p);
    }
    if ts != [] {
      var i :| 0 <= i < |ts| && MaxCriticalCost(ts) == ts[i].criticalCost;
      var p := CriticalChainExists(ts, rank, i);
    }
  }

  /**
   * The critical costs are determined by the graph and the costs alone: whatever order the backflow
   * visits the tasks in, an acyclic input always gets the same values.
   */
  lemma {:induction false} CriticalCostsUnique(ts: seq<TaskEvaluated>, us: seq<TaskEvaluated>, rank: seq<nat>, i: nat)
    requires CriticalCostsHold(ts) && CriticalCostsHold(us) && Ranked(GraphOf(ts), rank)
    requires GraphOf(ts) == GraphOf(us)
    requires forall j :: 0 <= j < |ts| ==> ts[j].cost == us[j].cost
    requires i < |ts|
    ensures ts[i].criticalCost == us[i].criticalCost
    decreases rank[i]
  {
    var deps := ts[i].dependencies;
    assert deps == GraphOf(us)[i] == us[i].dependencies;
    forall d | d in deps
      ensures CriticalCosts(ts)[d] == CriticalCosts(us)[d]
    {
      assert d in GraphOf(ts)[i];
      CriticalCostsUnique(ts, us, rank, d);
    }
    MaxOverAgree(deps, CriticalCosts(ts), CriticalCosts(us));
    assert CriticalCostAt(ts, i) && CriticalCostAt(us, i);
  }

  /** The earliest finish of every task is its critical cost. */
  lemma {:induction false} EarlyFinishIsCriticalCost(ts: seq<TaskEvaluated>, rank: seq<nat>, i: nat)
    requires CriticalCostsHold(ts) && EarlyIntervalsHold(ts) && Ranked(GraphOf(ts), rank)
    requires i < |ts|
    ensures ts[i].earlyFinish == ts[i].criticalCost
    decreases rank[i]
  {
    var deps := ts[i].dependencies;
    forall d | d in deps
      ensures EarlyFinishes(ts)[d] == CriticalCosts(ts)[d]
    {
      assert d in GraphOf(ts)[i];
      EarlyFinishIsCriticalCost(ts, rank, d);
    }
    MaxOverAgree(deps, EarlyFinishes(ts), CriticalCosts(ts));
    assert CriticalCostAt(ts, i) && EarlyIntervalAt(ts, i);
  }

  /** The total duration depends only on the critical costs. */
  lemma MaxCriticalCostAgree(ts: seq<TaskEvaluated>, us: seq<TaskEvaluated>)
    requires CriticalCosts(ts) == CriticalCosts(us)
    ensures MaxCriticalCost(ts) == MaxCriticalCost(us)
  {
    assert |ts| == |CriticalCosts(ts)| == |us|;
    if ts != [] {
      var i :| 0 <= i < |ts| && MaxCriticalCost(ts) == ts[i].criticalCost;
      var j :| 0 <= j < |us| && MaxCriticalCost(us) == us[j].criticalCost;
      assert ts[j].criticalCost == CriticalCosts(ts)[j] == us[j].criticalCost;
      assert us[i].criticalCost == CriticalCosts(us)[i] == ts[i].criticalCost;
    }
  }

  /** Earliest intervals that end at the critical costs satisfy the earliest-interval equations. */
  lemma EarlyIntervalsFromCriticalCosts(ts: seq<TaskEvaluated>)
    requires CriticalCostsHold(ts)
    requires forall i :: 0 <= i < |ts| ==>
               ts[i].earlyFinish == ts[i].criticalCost && ts[i].earlyStart == ts[i].criticalCost - ts[i].cost
    ensures EarlyIntervalsHold(ts)
  {
    assert EarlyFinishes(ts) == CriticalCosts(ts);
    forall i | 0 <= i < |ts|
      ensures EarlyIntervalAt(ts, i)
    {
      assert CriticalCostAt(ts, i);
    }
  }

  /**
   * Bounds on the latest finish: never before the task's critical cost (its earliest finish) and
   * never after the project's total duration.
   */
  lemma {:induction false} LatestFinishBounds(ts: seq<TaskEvaluated>, rank: seq<nat>, maxCost: int, i: nat)
    requires CriticalCostsHold(ts) && BlockedIsReverse(ts) && Ranked(GraphOf(ts), rank) && CostsNonNegative(ts)
    requires LatestIntervalsHold(ts, maxCost) && maxCost == MaxCriticalCost(ts)
    requires i < |ts|
    ensures ts[i].criticalCost <= ts[i].latestFinish <= maxCost
    decreases |ts| - rank[i]
  {
    var succ := ts[i].blocked;
    assert LatestIntervalAt(ts, i, maxCost);
    if succ != {} {
      var ls, cc := LatestStarts(ts), CriticalCosts(ts);
      forall s | s in succ
        ensures ts[i].criticalCost <= ls[s] <= maxCost
      {
        assert s < |ts| && i in ts[s].dependencies;
        assert i in GraphOf(ts)[s];
        LatestFinishBounds(ts, rank, maxCost, s);
        assert CriticalCostAt(ts, s) && LatestIntervalAt(ts, s, maxCost);
        assert cc[i] <= MaxOver(ts[s].dependencies, cc);
      }
      var m := MinOver(succ, ls);
      var s :| s in succ && m == ls[s];
    }
  }

  /**
   * Slack (latest start minus earliest start) is never negative, no task must finish after the
   * project, and a task whose critical cost is the total duration has no slack at all.
   */
  lemma LatestIntervalsLeaveNonNegativeSlack(ts: seq<TaskEvaluated>, rank: seq<nat>, maxCost: int)
    requires CriticalCostsHold(ts) && EarlyIntervalsHold(ts) && BlockedIsReverse(ts)
    requires Ranked(GraphOf(ts), rank) && CostsNonNegative(ts)
    requires LatestIntervalsHold(ts, maxCost) && maxCost == MaxCriticalCost(ts)
    ensures forall i :: 0 <= i < |ts| ==> ts[i].earlyStart <= ts[i].latestStart && ts[i].latestFinish <= maxCost
    ensures forall i :: 0 <= i < |ts| && ts[i].criticalCost == maxCost ==> ts[i].latestStart == ts[i].earlyStart
  {
    forall i | 0 <= i < |ts|
      ensures ts[i].earlyStart <= ts[i].latestStart && ts[i].latestFinish <= maxCost
      ensures ts[i].criticalCost == maxCost ==> ts[i].latestStart == ts[i].earlyStart
    {
      LatestFinishBounds(ts, rank, maxCost, i);
      EarlyFinishIsCriticalCost(ts, rank, i);
      assert CriticalCostAt(ts, i) && EarlyIntervalAt(ts, i) && LatestIntervalAt(ts, i, maxCost);
    }
  }

  /**
   * The forward pass's promise: every task finishes its own cost after it starts, starts no earlier
   * than any of its dependencies finishes, and a task without dependencies starts at 0.
   */
  lemma EarlyStartAfterDependencies(ts: seq<TaskEvaluated>)
    requires EarlyIntervalsHold(ts)
    ensures forall i :: 0 <= i < |ts| ==> ts[i].earlyFinish == ts[i].earlyStart + ts[i].cost
    ensures forall i :: 0 <= i < |ts| && ts[i].dependencies == {} ==> ts[i].earlyStart == 0
    ensures forall i, d :: 0 <= i < |ts| && d in ts[i].dependencies ==> d < |ts| && ts[d].earlyFinish <= ts[i].earlyStart
  {
    forall i | 0 <= i < |ts|
      ensures ts[i].earlyFinish == ts[i].earlyStart + ts[i].cost
      ensures ts[i].dependencies == {} ==> ts[i].earlyStart == 0
      ensures forall d :: d in ts[i].dependencies ==> d < |ts| && ts[d].earlyFinish <= ts[i].earlyStart
    {
      assert EarlyIntervalAt(ts, i);
    }
  }
}
