/**
 * The per-task evaluation node (TaskEvaluated.java). Nodes live in an arena, the evaluated task list,
 * and refer to each other by index: `dependencies` are the tasks this one waits for and `blocked` the
 * tasks waiting for this one.
 */
module Evaluated {
  import opened Tasks
  import opened Graph

  datatype TaskEvaluated = TaskEvaluated(
    cost: int,
    criticalCost: int,
    name: string,
    earlyStart: int,
    earlyFinish: int,
    latestStart: int,
    latestFinish: int,
    task: Task,
    dependencies: set<nat>,
    blocked: set<nat>)
  {
    function TaskCode(): string {
      task.taskCode
    }

    /**
     * Sets the latest start to `maxCost - criticalCost`, as the source does. Because `criticalCost`
     * is the longest chain ending at this node, this is not the latest start that lets the project
     * finish at `maxCost` (see Findings in README.md).
     */
    function SetLatestIntervalFor(maxCost: int): (t: TaskEvaluated)
      ensures t.latestStart == maxCost - criticalCost
      ensures t.latestFinish == t.latestStart + cost
      ensures t.(latestStart := latestStart, latestFinish := latestFinish) == this
    {
      var start := maxCost - criticalCost;
      this.(latestStart := start, latestFinish := start + cost)
    }
  }

  /** A fresh node for `task`: its cost is the task's duration; nothing is scheduled or linked yet. */
  function FromTask(task: Task): (t: TaskEvaluated)
    ensures t.task == task && t.cost == task.duration
    ensures t.name == task.operationName + ":" + task.elementName
    ensures t.criticalCost == 0 && t.earlyStart == 0 && t.earlyFinish == 0
    ensures t.latestStart == 0 && t.latestFinish == 0
    ensures t.dependencies == {} && t.blocked == {}
  {
    TaskEvaluated(task.duration, 0, task.operationName + ":" + task.elementName, 0, 0, 0, 0, task, {}, {})
  }

  /** The dependency graph of an arena. */
  function GraphOf(ts: seq<TaskEvaluated>): (g: Deps)
    ensures |g| == |ts|
    ensures forall i :: 0 <= i < |ts| ==> g[i] == ts[i].dependencies
  {
    seq(|ts|, i requires 0 <= i < |ts| => ts[i].dependencies)
  }

  function CriticalCosts(ts: seq<TaskEvaluated>): (cc: seq<int>)
    ensures |cc| == |ts|
    ensures forall i :: 0 <= i < |ts| ==> cc[i] == ts[i].criticalCost
  {
    seq(|ts|, i requires 0 <= i < |ts| => ts[i].criticalCost)
  }

  /**
   * Node `i`'s critical cost is its own cost plus the largest critical cost among its dependencies
   * (plus 0 when it has none).
   */
  ghost predicate CriticalCostAt(ts: seq<TaskEvaluated>, i: nat) {
    && i < |ts|
    && (forall d :: d in ts[i].dependencies ==> d < |ts|)
    && ts[i].criticalCost == ts[i].cost + MaxOver(ts[i].dependencies, CriticalCosts(ts))
  }

  /**
   * Every node's critical cost is its own cost plus the largest critical cost among its dependencies:
   * the length of the longest chain of work ending with the node. The equation of a node is only
   * instantiated where it is named, so that it does not unfold along the whole graph.
   */
  ghost predicate CriticalCostsHold(ts: seq<TaskEvaluated>) {
    && InRange(GraphOf(ts))
    && forall i {:trigger CriticalCostAt(ts, i)} :: 0 <= i < |ts| ==> CriticalCostAt(ts, i)
  }

  /**
   * Whether `other` is a dependency of node `i`, directly or through a chain of dependencies.
   * The recursion terminates because the graph is acyclic; `rank` witnesses that.
   */
  function IsDependent(g: Deps, i: nat, other: nat, ghost rank: seq<nat>): bool
    requires i < |g| && Ranked(g, rank)
    decreases rank[i]
  {
    other in g[i]
    || exists d :: d in g[i] && IsDependent(g, d, other, rank)
  }

  /** `IsDependent` decides reachability through dependency edges. */
  lemma {:induction false} IsDependentIffReaches(g: Deps, i: nat, other: nat, rank: seq<nat>)
    requires i < |g| && Ranked(g, rank)
    ensures IsDependent(g, i, other, rank) <==> Reaches(g, i, other)
    decreases rank[i]
  {
    if IsDependent(g, i, other, rank) {
      if other in g[i] {
        assert IsChain(g, [i, other]);
      } else {
        var d :| d in g[i] && IsDependent(g, d, other, rank);
        IsDependentIffReaches(g, d, other, rank);
        var p :| IsChain(g, p) && |p| >= 2 && p[0] == d && p[|p| - 1] == other;
        var q := [i] + p;
        assert forall k :: 1 <= k < |q| ==> q[k] == p[k - 1];
        assert IsChain(g, q);
      }
    }
    if Reaches(g, i, other) {
      var p :| IsChain(g, p) && |p| >= 2 && p[0] == i && p[|p| - 1] == other;
      var d := p[1];
      assert d in g[i];
      if |p| > 2 {
        var q := p[1..];
        assert forall k :: 1 <= k < |q| ==> q[k] == p[k + 1] && q[k - 1] == p[k];
        assert IsChain(g, q) && q[|q| - 1] == other;
        IsDependentIffReaches(g, d, other, rank);
      }
    }
  }

  /** Two nodes never depend on each other in an acyclic graph. */
  lemma NoMutualDependence(g: Deps, i: nat, j: nat, rank: seq<nat>)
    requires i < |g| && j < |g| && Ranked(g, rank)
    ensures !(IsDependent(g, i, j, rank) && IsDependent(g, j, i, rank))
  {
    if IsDependent(g, i, j, rank) && IsDependent(g, j, i, rank) {
      IsDependentIffReaches(g, i, j, rank);
      IsDependentIffReaches(g, j, i, rank);
      var p :| IsChain(g, p) && |p| >= 2 && p[0] == i && p[|p| - 1] == j;
      var q :| IsChain(g, q) && |q| >= 2 && q[0] == j && q[|q| - 1] == i;
      RankDecreasesAlongChain(g, rank, p);
      RankDecreasesAlongChain(g, rank, q);
    }
  }

  /**
   * A dependent node's critical cost covers its dependency's critical cost plus its own cost; with
   * non-negative costs, `a` dependent on `b` gives criticalCost(a) >= criticalCost(b).
   */
  lemma {:induction false} DependentHasLargerCriticalCost(ts: seq<TaskEvaluated>, a: nat, b: nat, rank: seq<nat>)
    requires CriticalCostsHold(ts) && Ranked(GraphOf(ts), rank) && a < |ts|
    requires forall i :: 0 <= i < |ts| ==> ts[i].cost >= 0
    requires IsDependent(GraphOf(ts), a, b, rank)
    ensures b < |ts| && ts[a].criticalCost >= ts[b].criticalCost + ts[a].cost
    decreases rank[a]
  {
    var g := GraphOf(ts);
    var cc := CriticalCosts(ts);
    assert CriticalCostAt(ts, a);
    if b in g[a] {
      assert cc[b] <= MaxOver(ts[a].dependencies, cc);
    } else {
      var d :| d in g[a] && IsDependent(g, d, b, rank);
      DependentHasLargerCriticalCost(ts, d, b, rank);
      assert cc[d] <= MaxOver(ts[a].dependencies, cc);
    }
  }

  /**
   * The ordering of TaskEvaluated.compareTo: by critical cost, ties broken by dependency (a node
   * that depends on the other compares lower), otherwise equal.
   */
  function CompareTo(ts: seq<TaskEvaluated>, i: nat, j: nat, ghost rank: seq<nat>): (r: int)
    requires i < |ts| && j < |ts| && Ranked(GraphOf(ts), rank)
    ensures ts[i].criticalCost != ts[j].criticalCost ==>
              (r < 0 <==> ts[i].criticalCost < ts[j].criticalCost) && r != 0
    ensures ts[i].criticalCost == ts[j].criticalCost ==>
              -1 <= r <= 1 && (r < 0 <==> IsDependent(GraphOf(ts), i, j, rank))
  {
    if ts[j].criticalCost != ts[i].criticalCost then ts[i].criticalCost - ts[j].criticalCost
    else if IsDependent(GraphOf(ts), i, j, rank) then -1
    else if IsDependent(GraphOf(ts), j, i, rank) then 1
    else 0
  }

  /** On an acyclic graph the ordering is antisymmetric: swapping the operands flips the sign. */
  lemma CompareToAntisymmetric(ts: seq<TaskEvaluated>, i: nat, j: nat, rank: seq<nat>)
    requires i < |ts| && j < |ts| && Ranked(GraphOf(ts), rank)
    ensures CompareTo(ts, i, j, rank) < 0 <==> CompareTo(ts, j, i, rank) > 0
    ensures CompareTo(ts, i, j, rank) == 0 <==> CompareTo(ts, j, i, rank) == 0
  {
    NoMutualDependence(GraphOf(ts), i, j, rank);
  }
}
