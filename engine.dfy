/**
 * The critical path engine (CriticalPathEngine.java). It turns the input tasks into evaluated nodes
 * and links them into a dependency graph. The backflow algorithm then computes every node's critical
 * cost, from which the engine derives the total duration and the latest and earliest intervals. Last,
 * it orders the nodes by earliest start.
 */
module Engine {
  import opened Results
  import opened Tasks
  import opened Graph
  import opened Evaluated
  import opened Schedule

  /** The total duration before any evaluation: Integer.MIN_VALUE. */
  const UnsetCost: int := -0x8000_0000

  /** How an evaluation ends: normally, or with the exception the engine throws. */
  datatype Outcome = Pass | Fail(error: EvalError)

  /** Evaluating `src` succeeds: the codes are unique, every dependency is known and nothing is cyclic. */
  ghost predicate Succeeds(src: seq<Task>) {
    Distinct(Codes(src)) && DependenciesKnown(src) && !HasCycle(ResolvedGraph(src))
  }

  /** `e` is an error evaluating `src` can stop with, reported at the stage that detects it. */
  ghost predicate FailsWith(src: seq<Task>, e: EvalError) {
    match e
    case DuplicateTaskCode(code) =>
      exists i, j :: 0 <= i < j < |src| && src[i].taskCode == code && src[j].taskCode == code
    case UnknownDependency(code) =>
      && Distinct(Codes(src))
      && (exists i :: 0 <= i < |src| && code in src[i].dependencies)
      && code !in Codes(src)
    case CyclicDependency =>
      Distinct(Codes(src)) && DependenciesKnown(src) && HasCycle(ResolvedGraph(src))
  }

  /**
   * The arena `ts` holds one fresh node per task of `src`, the index `taskMap` covers all of them,
   * and the first `k` nodes are linked to their dependencies (in both directions).
   */
  ghost predicate LinkedUpTo(src: seq<Task>, ts: seq<TaskEvaluated>, taskMap: map<string, nat>, k: nat) {
    && |ts| == |src| && k <= |ts|
    && TaskMapOf(Codes(src)) == Ok(taskMap)
    && (forall i :: 0 <= i < |ts| ==>
          ts[i] == FromTask(src[i]).(dependencies := ts[i].dependencies, blocked := ts[i].blocked))
    && (forall i :: 0 <= i < k ==>
          src[i].dependencies <= taskMap.Keys && ts[i].dependencies == ResolveCodes(src[i].dependencies, taskMap))
    && (forall i :: k <= i < |ts| ==> ts[i].dependencies == {})
    && BlockedIsReverse(ts)
  }

  /** The node `t` was made from `task`: only its links and schedule can differ from a fresh node. */
  ghost predicate MadeFrom(t: TaskEvaluated, task: Task) {
    t.task == task && t.cost == task.duration && t.name == FromTask(task).name
  }

  /** Everything a successful evaluation of `src` establishes about the arena `ts`. */
  ghost predicate Scheduled(src: seq<Task>, ts: seq<TaskEvaluated>, taskMap: map<string, nat>, maxCost: int, rank: seq<nat>) {
    && |ts| == |src|
    && TaskMapOf(Codes(src)) == Ok(taskMap)
    && DependenciesKnown(src)
    && (forall i :: 0 <= i < |ts| ==> MadeFrom(ts[i], src[i]))
    && GraphOf(ts) == ResolvedGraph(src)
    && BlockedIsReverse(ts)
    && Ranked(GraphOf(ts), rank)
    && CriticalCostsHold(ts)
    && maxCost == MaxCriticalCost(ts)
    && LatestIntervalsHold(ts, maxCost)
    && EarlyIntervalsHold(ts)
  }

  /**
   * Before node `i` is visited by the forward pass, its earliest interval reflects the finishes `cc`
   * of its dependencies among `visited`: it starts at the latest of them, or is still [0, 0].
   */
  ghost predicate WaitingAt(ts: seq<TaskEvaluated>, g: Deps, cc: seq<int>, visited: set<nat>, i: nat) {
    && i < |ts| && i < |g|
    && (forall d :: d in g[i] * visited ==> d < |cc|)
    && if g[i] * visited == {} then ts[i].earlyStart == 0 && ts[i].earlyFinish == 0
       else ts[i].earlyStart == MaxOver(g[i] * visited, cc) && ts[i].earlyFinish == ts[i].earlyStart + ts[i].cost
  }

  /** Node `i`'s earliest interval ends at its critical cost `cc[i]`. */
  ghost predicate FinishedAt(ts: seq<TaskEvaluated>, cc: seq<int>, i: nat) {
    i < |ts| && i < |cc| && ts[i].earlyFinish == cc[i] && ts[i].earlyStart == cc[i] - ts[i].cost
  }

  /**
   * The state the forward pass keeps after visiting the first `k` nodes of the finalisation order
   * (`visited`, by `pos`): only earliest intervals differ from `ts0`, visited nodes are finished and
   * the others are waiting.
   */
  ghost predicate ForwardState(ts0: seq<TaskEvaluated>, ts: seq<TaskEvaluated>, cc: seq<int>, pos: seq<nat>,
                               visited: set<nat>, k: nat) {
    && |ts| == |ts0| == |cc| == |pos| && k <= |ts|
    && (forall i :: 0 <= i < |ts| ==> ts[i] == ts0[i].(earlyStart := ts[i].earlyStart, earlyFinish := ts[i].earlyFinish))
    && (forall j: nat :: j in visited <==> j < |ts| && pos[j] < k)
    && (forall i {:trigger FinishedAt(ts, cc, i)} :: 0 <= i < |ts| && pos[i] < k ==> FinishedAt(ts, cc, i))
    && (forall i {:trigger WaitingAt(ts, GraphOf(ts0), cc, visited, i)} ::
          0 <= i < |ts| && pos[i] >= k ==> WaitingAt(ts, GraphOf(ts0), cc, visited, i))
  }

  /** Node `t` after node `u` pushes its earliest finish to the nodes it blocks. */
  ghost function PushedFinish(ts: seq<TaskEvaluated>, u: nat, t: nat): TaskEvaluated
    requires u < |ts| && t < |ts|
  {
    if t in ts[u].blocked && ts[u].earlyFinish >= ts[t].earlyStart
    then ts[t].(earlyStart := ts[u].earlyFinish, earlyFinish := ts[u].earlyFinish + ts[t].cost)
    else ts[t]
  }

  /**
   * Visiting node `u = order[k]` (starting it at 0 if it has no dependencies, then pushing its finish)
   * finishes it and keeps every later node waiting on the visited ones.
   */
  lemma ForwardStep(ts0: seq<TaskEvaluated>, ts1: seq<TaskEvaluated>, ts2: seq<TaskEvaluated>, ts3: seq<TaskEvaluated>,
                    order: seq<nat>, pos: seq<nat>, visited: set<nat>, k: nat)
    requires TopologicalOrder(GraphOf(ts0), order, pos) && BlockedIsReverse(ts0)
    requires CriticalCostsHold(ts0) && CostsNonNegative(ts0)
    requires ForwardState(ts0, ts1, CriticalCosts(ts0), pos, visited, k) && k < |ts1|
    requires ts2 == if ts0[order[k]].dependencies == {}
                    then ts1[order[k] := ts1[order[k]].(earlyStart := 0, earlyFinish := ts1[order[k]].cost)]
                    else ts1
    requires |ts3| == |ts2| && forall t :: 0 <= t < |ts3| ==> ts3[t] == PushedFinish(ts2, order[k], t)
    ensures ForwardState(ts0, ts3, CriticalCosts(ts0), pos, visited + {order[k]}, k + 1)
  {
    var g, cc, u := GraphOf(ts0), CriticalCosts(ts0), order[k];
    VisitFinishes(ts0, ts1, ts2, order, pos, visited, k);
    var visited' := visited + {u};
    forall j: nat | j < |ts3| && pos[j] == k
      ensures j == u
    {
      assert order[pos[j]] == j;
    }
    forall i | 0 <= i < |ts3| && pos[i] < k + 1
      ensures FinishedAt(ts3, cc, i)
    {
      if i != u {
        assert FinishedAt(ts1, cc, i);
      }
    }
    forall i | 0 <= i < |ts3| && pos[i] >= k + 1
      ensures WaitingAt(ts3, g, cc, visited', i)
    {
      assert WaitingAt(ts1, g, cc, visited, i);
      assert i != u && ts2[i] == ts1[i];
      assert WaitingAt(ts2, g, cc, visited, i);
      PushKeepsWaiting(ts0, ts2, ts3, cc, visited, u, i);
    }
  }

  /**
   * The node `u = order[k]` the forward pass visits has all its dependencies visited, so starting it
   * (at 0 without dependencies) leaves it finished at its critical cost; it blocks only later nodes.
   */
  lemma VisitFinishes(ts0: seq<TaskEvaluated>, ts1: seq<TaskEvaluated>, ts2: seq<TaskEvaluated>,
                      order: seq<nat>, pos: seq<nat>, visited: set<nat>, k: nat)
    requires TopologicalOrder(GraphOf(ts0), order, pos) && BlockedIsReverse(ts0)
    requires CriticalCostsHold(ts0) && CostsNonNegative(ts0)
    requires ForwardState(ts0, ts1, CriticalCosts(ts0), pos, visited, k) && k < |ts1|
    requires ts2 == if ts0[order[k]].dependencies == {}
                    then ts1[order[k] := ts1[order[k]].(earlyStart := 0, earlyFinish := ts1[order[k]].cost)]
                    else ts1
    ensures FinishedAt(ts2, CriticalCosts(ts0), order[k]) && CriticalCosts(ts0)[order[k]] >= 0 && order[k] !in visited
    ensures forall t :: t in ts2[order[k]].blocked ==> t < |ts0| && order[k] in GraphOf(ts0)[t] && pos[t] > k
    ensures forall i :: 0 <= i < |ts2| && i != order[k] ==> ts2[i] == ts1[i]
    ensures forall i :: 0 <= i < |ts2| ==> ts2[i] == ts0[i].(earlyStart := ts2[i].earlyStart, earlyFinish := ts2[i].earlyFinish)
  {
    var g, cc, u := GraphOf(ts0), CriticalCosts(ts0), order[k];
    forall d | d in g[u]
      ensures d in visited
    {
      assert pos[d] < pos[u];
    }
    assert g[u] * visited == g[u];
    assert WaitingAt(ts1, g, cc, visited, u);
    assert CriticalCostAt(ts0, u);
    CriticalCostAtLeastCost(ts0, pos, u);
    forall t | t in ts2[u].blocked
      ensures t < |ts0| && u in g[t] && pos[t] > k
    {
      assert t in ts0[u].blocked;
      assert u in ts0[t].dependencies;
    }
  }

  /**
   * A node `i` other than `u` that waited on the visited nodes waits on them and `u` once `u`, finished
   * at its critical cost, has pushed its finish to the nodes it blocks.
   */
  lemma PushKeepsWaiting(ts0: seq<TaskEvaluated>, ts2: seq<TaskEvaluated>, ts3: seq<TaskEvaluated>, cc: seq<int>,
                         visited: set<nat>, u: nat, i: nat)
    requires BlockedIsReverse(ts0) && |ts2| == |ts0| == |cc| && u < |ts0| && i < |ts0| && i != u
    requires forall j :: 0 <= j < |ts2| ==> ts2[j] == ts0[j].(earlyStart := ts2[j].earlyStart, earlyFinish := ts2[j].earlyFinish)
    requires FinishedAt(ts2, cc, u) && cc[u] >= 0 && u !in visited
    requires WaitingAt(ts2, GraphOf(ts0), cc, visited, i)
    requires |ts3| == |ts2| && ts3[i] == PushedFinish(ts2, u, i)
    ensures WaitingAt(ts3, GraphOf(ts0), cc, visited + {u}, i)
  {
    var g := GraphOf(ts0);
    if i in ts2[u].blocked {
      assert u in ts0[i].dependencies;
      assert g[i] * (visited + {u}) == g[i] * visited + {u};
      MaxOverInsert(g[i] * visited, u, cc);
    } else {
      assert u !in ts0[i].dependencies;
      assert g[i] * (visited + {u}) == g[i] * visited;
    }
  }

  /** Node `i` of graph `g` with the costs of `ts` has the final critical cost in `cc`. */
  ghost predicate FinalCost(ts: seq<TaskEvaluated>, g: Deps, cc: seq<int>, i: nat) {
    && i < |ts| && i < |g| && i < |cc|
    && (forall d :: d in g[i] ==> d < |cc|)
    && cc[i] == ts[i].cost + MaxOver(g[i], cc)
  }

  /**
   * When every node of `completed` is final, each with its dependencies final before it, and
   * `completed` is the whole arena, the critical costs hold and `order` is a topological order.
   */
  lemma BackflowComplete(ts0: seq<TaskEvaluated>, ts: seq<TaskEvaluated>, cc: seq<int>, completed: set<nat>,
                         order: seq<nat>, pos: seq<nat>)
    requires |ts0| == |ts| == |cc| == |pos| && InRange(GraphOf(ts0))
    requires forall i :: 0 <= i < |ts| ==> ts[i] == ts0[i].(criticalCost := cc[i])
    requires forall i: nat :: i in completed <==> i < |ts|
    requires FinalisedInOrder(GraphOf(ts0), completed, order, pos)
    requires forall i {:trigger FinalCost(ts0, GraphOf(ts0), cc, i)} :: i in completed ==> FinalCost(ts0, GraphOf(ts0), cc, i)
    ensures GraphOf(ts) == GraphOf(ts0)
    ensures CriticalCostsHold(ts) && TopologicalOrder(GraphOf(ts), order, pos)
  {
    var g := GraphOf(ts0);
    AllIndicesCount(completed, |ts|);
    assert GraphOf(ts) == g;
    assert CriticalCosts(ts) == cc;
    forall i | 0 <= i < |ts|
      ensures CriticalCostAt(ts, i)
    {
      assert FinalCost(ts0, g, cc, i);
    }
  }

  /** The ordering facts the backflow keeps about the nodes of `completed`. */
  ghost predicate FinalisedInOrder(g: Deps, completed: set<nat>, order: seq<nat>, pos: seq<nat>) {
    && |order| == |completed|
    && (forall i :: i in completed ==> i < |pos| && pos[i] < |order| && order[pos[i]] == i)
    && (forall k :: 0 <= k < |order| ==> order[k] in completed && pos[order[k]] == k)
    && (forall i :: i in completed ==> i < |g|)
    && (forall i {:trigger g[i]} :: 0 <= i < |g| && i in completed ==> g[i] <= completed)
    && (forall i, d {:trigger d in g[i]} :: i in completed && d in g[i] ==> pos[d] < pos[i])
  }

  /**
   * The state the backflow keeps. `ts` is the arena `ts0` with the critical costs `cc`. `completed`
   * and `remaining` split the arena. The nodes of `completed` were finalised in `order`, each after
   * its dependencies, and they satisfy the critical-cost equation.
   */
  ghost predicate BackflowState(ts0: seq<TaskEvaluated>, ts: seq<TaskEvaluated>, cc: seq<int>, completed: set<nat>,
                                remaining: set<nat>, order: seq<nat>, pos: seq<nat>) {
    && |ts| == |ts0| == |cc| == |pos|
    && InRange(GraphOf(ts0))
    && (forall i :: 0 <= i < |ts| ==> ts[i] == ts0[i].(criticalCost := cc[i]))
    && completed !! remaining
    && (forall i: nat :: i in completed || i in remaining <==> i < |ts|)
    && FinalisedInOrder(GraphOf(ts0), completed, order, pos)
    && forall i {:trigger FinalCost(ts0, GraphOf(ts0), cc, i)} :: i in completed ==> FinalCost(ts0, GraphOf(ts0), cc, i)
  }

  /** Appending `task`, whose dependencies are all finalised, keeps the finalisation order. */
  lemma OrderStep(g: Deps, completed: set<nat>, order: seq<nat>, pos: seq<nat>, task: nat)
    requires task < |g| == |pos| && task !in completed && g[task] <= completed
    requires FinalisedInOrder(g, completed, order, pos)
    ensures FinalisedInOrder(g, completed + {task}, order + [task], pos[task := |order|])
  {
    var completed', order', pos' := completed + {task}, order + [task], pos[task := |order|];
    forall k | 0 <= k < |order'|
      ensures order'[k] in completed' && pos'[order'[k]] == k
    {
      if k < |order| {
        assert order'[k] == order[k] != task;
      }
    }
    forall i | i in completed'
      ensures i < |pos'| && pos'[i] < |order'| && order'[pos'[i]] == i
    {
      if i != task {
        assert pos'[i] == pos[i] && order'[pos[i]] == order[pos[i]];
      }
    }
    forall i | 0 <= i < |g| && i in completed'
      ensures g[i] <= completed'
    {
      if i != task {
        assert g[i] <= completed;
      }
    }
    forall i, d | i in completed' && d in g[i]
      ensures pos'[d] < pos'[i]
    {
      if i == task {
        assert d in completed && d != task;
      } else {
        assert g[i] <= completed;
        assert d != task;
      }
    }
  }

  /**
   * Finalising `task`, whose dependencies are all final, with the largest of their critical costs
   * plus its own cost keeps the equation of every finalised node.
   */
  lemma CostStep(ts0: seq<TaskEvaluated>, cc: seq<int>, completed: set<nat>, task: nat, m: int)
    requires |cc| == |ts0| && InRange(GraphOf(ts0))
    requires task < |ts0| && task !in completed && GraphOf(ts0)[task] <= completed
    requires forall i {:trigger GraphOf(ts0)[i]} :: 0 <= i < |ts0| && i in completed ==> GraphOf(ts0)[i] <= completed
    requires m == MaxOver(GraphOf(ts0)[task], cc)
    requires forall i {:trigger FinalCost(ts0, GraphOf(ts0), cc, i)} :: i in completed ==> FinalCost(ts0, GraphOf(ts0), cc, i)
    ensures forall i {:trigger FinalCost(ts0, GraphOf(ts0), cc[task := m + ts0[task].cost], i)} ::
      i in completed + {task} ==> FinalCost(ts0, GraphOf(ts0), cc[task := m + ts0[task].cost], i)
  {
    var g := GraphOf(ts0);
    var cc' := cc[task := m + ts0[task].cost];
    forall i | i in completed + {task}
      ensures FinalCost(ts0, g, cc', i)
    {
      if i != task {
        assert FinalCost(ts0, g, cc, i);
        assert g[i] <= completed;
      }
      MaxOverAgree(g[i], cc, cc');
    }
  }

  /** If no node of `remaining` has all its dependencies in `completed`, and the two split the graph, it has a cycle. */
  lemma NoProgressMeansCycle(g: Deps, completed: set<nat>, remaining: set<nat>)
    requires InRange(g) && remaining != {}
    requires forall i: nat :: i in completed || i in remaining <==> i < |g|
    requires forall r :: r in remaining ==> !(g[r] <= completed)
    ensures HasCycle(g)
  {
    forall i | 0 <= i < |g| && i in remaining
      ensures exists d :: d in g[i] && d in remaining
    {
      var d :| d in g[i] && d !in completed;
    }
    StuckSetHasCycle(g, remaining);
  }

  /** The arena `ts` after node `task` is recorded in the successor set of each node of `deps`. */
  function WithBlocked(ts: seq<TaskEvaluated>, deps: set<nat>, task: nat): (us: seq<TaskEvaluated>)
    ensures |us| == |ts|
    ensures forall d :: 0 <= d < |ts| ==> us[d].blocked == ts[d].blocked + (if d in deps then {task} else {})
    ensures forall d :: 0 <= d < |ts| ==> us[d] == ts[d].(blocked := us[d].blocked)
  {
    seq(|ts|, d requires 0 <= d < |ts| => if d in deps then ts[d].(blocked := ts[d].blocked + {task}) else ts[d])
  }

  /** Recording `i` as blocked by each of `deps`, and `deps` as the dependencies of `i`, keeps the two relations reverse. */
  lemma LinkKeepsReverse(before: seq<TaskEvaluated>, after: seq<TaskEvaluated>, i: nat, deps: set<nat>)
    requires BlockedIsReverse(before) && i < |before| && before[i].dependencies == {}
    requires forall d :: d in deps ==> d < |before|
    requires after == WithBlocked(before[i := before[i].(dependencies := deps)], deps, i)
    ensures BlockedIsReverse(after)
  {
    forall d, t | 0 <= d < |after| && t in after[d].blocked
      ensures t < |after| && d in after[t].dependencies
    {
      if t != i {
        assert t in before[d].blocked;
      }
    }
    forall t, d | 0 <= t < |after| && d in after[t].dependencies
      ensures d < |after| && t in after[d].blocked
    {
      if t != i {
        assert d in before[t].dependencies;
      }
    }
  }

  /** Changing only the links of a node keeps each node made from its task. */
  lemma LinkKeepsTasks(src: seq<Task>, before: seq<TaskEvaluated>, after: seq<TaskEvaluated>, i: nat, deps: set<nat>)
    requires |before| == |src| && i < |before|
    requires forall d :: 0 <= d < |before| ==>
               before[d] == FromTask(src[d]).(dependencies := before[d].dependencies, blocked := before[d].blocked)
    requires after == WithBlocked(before[i := before[i].(dependencies := deps)], deps, i)
    ensures forall d :: 0 <= d < |after| ==>
              after[d] == FromTask(src[d]).(dependencies := after[d].dependencies, blocked := after[d].blocked)
  {
    forall d | 0 <= d < |after|
      ensures after[d] == FromTask(src[d]).(dependencies := after[d].dependencies, blocked := after[d].blocked)
    {
      assert before[d] == FromTask(src[d]).(dependencies := before[d].dependencies, blocked := before[d].blocked);
    }
  }

  /** Linking node `i` to its resolved dependencies extends the resolved prefix by one node. */
  lemma LinkExtendsResolved(src: seq<Task>, before: seq<TaskEvaluated>, after: seq<TaskEvaluated>,
                            taskMap: map<string, nat>, i: nat, deps: set<nat>)
    requires i < |before| == |src|
    requires forall j :: 0 <= j < i ==>
               src[j].dependencies <= taskMap.Keys && before[j].dependencies == ResolveCodes(src[j].dependencies, taskMap)
    requires forall j :: i <= j < |before| ==> before[j].dependencies == {}
    requires src[i].dependencies <= taskMap.Keys && deps == ResolveCodes(src[i].dependencies, taskMap)
    requires after == WithBlocked(before[i := before[i].(dependencies := deps)], deps, i)
    ensures forall j :: 0 <= j < i + 1 ==>
              src[j].dependencies <= taskMap.Keys && after[j].dependencies == ResolveCodes(src[j].dependencies, taskMap)
    ensures forall j :: i + 1 <= j < |after| ==> after[j].dependencies == {}
  {
  }

  /** Linking node `i` to `deps` in both directions extends the linked prefix by one node. */
  lemma LinkStep(src: seq<Task>, before: seq<TaskEvaluated>, after: seq<TaskEvaluated>, taskMap: map<string, nat>,
                 i: nat, deps: set<nat>)
    requires LinkedUpTo(src, before, taskMap, i) && i < |before|
    requires src[i].dependencies <= taskMap.Keys && deps == ResolveCodes(src[i].dependencies, taskMap)
    requires forall d :: d in deps ==> d < |before|
    requires after == WithBlocked(before[i := before[i].(dependencies := deps)], deps, i)
    ensures LinkedUpTo(src, after, taskMap, i + 1)
  {
    LinkKeepsReverse(before, after, i, deps);
    LinkKeepsTasks(src, before, after, i, deps);
    LinkExtendsResolved(src, before, after, taskMap, i, deps);
  }

  /** Fresh nodes for the tasks of `src`, none linked yet. */
  lemma FreshNodesLinked(src: seq<Task>, ts: seq<TaskEvaluated>, taskMap: map<string, nat>)
    requires |ts| == |src| && forall i :: 0 <= i < |ts| ==> ts[i] == FromTask(src[i])
    requires TaskMapOf(Codes(src)) == Ok(taskMap)
    ensures LinkedUpTo(src, ts, taskMap, 0)
  {
  }

  /** Once every node is linked, every dependency code is known and the links are the resolved graph. */
  lemma AllLinked(src: seq<Task>, ts: seq<TaskEvaluated>, taskMap: map<string, nat>)
    requires LinkedUpTo(src, ts, taskMap, |ts|)
    ensures Distinct(Codes(src)) && DependenciesKnown(src)
    ensures GraphOf(ts) == ResolvedGraph(src)
  {
    forall i, c | 0 <= i < |src| && c in src[i].dependencies
      ensures c in Codes(src)
    {
      assert c in taskMap.Keys;
    }
  }

  /** A dependency code that names no task makes the dependencies of `src` unknown. */
  lemma UnknownCode(src: seq<Task>, taskMap: map<string, nat>, i: nat, code: string)
    requires TaskMapOf(Codes(src)) == Ok(taskMap)
    requires i < |src| && code in src[i].dependencies && code !in taskMap
    ensures FailsWith(src, UnknownDependency(code)) && !DependenciesKnown(src)
  {
  }

  /** `us` differs from `ts` at most in the critical cost of each node. */
  ghost predicate OnlyCriticalCostsChanged(ts: seq<TaskEvaluated>, us: seq<TaskEvaluated>) {
    |us| == |ts| && forall i :: 0 <= i < |ts| ==> us[i] == ts[i].(criticalCost := us[i].criticalCost)
  }

  /** `us` differs from `ts` at most in the latest interval of each node. */
  ghost predicate OnlyLatestIntervalsChanged(ts: seq<TaskEvaluated>, us: seq<TaskEvaluated>) {
    && |us| == |ts|
    && forall i :: 0 <= i < |ts| ==> us[i] == ts[i].(latestStart := us[i].latestStart, latestFinish := us[i].latestFinish)
  }

  /** `us` differs from `ts` at most in the earliest interval of each node. */
  ghost predicate OnlyEarlyIntervalsChanged(ts: seq<TaskEvaluated>, us: seq<TaskEvaluated>) {
    && |us| == |ts|
    && forall i :: 0 <= i < |ts| ==> us[i] == ts[i].(earlyStart := us[i].earlyStart, earlyFinish := us[i].earlyFinish)
  }

  /** Computing critical costs keeps the graph and its reverse. */
  lemma CostingKeepsGraph(ts: seq<TaskEvaluated>, us: seq<TaskEvaluated>)
    requires OnlyCriticalCostsChanged(ts, us)
    ensures GraphOf(us) == GraphOf(ts)
    ensures BlockedIsReverse(ts) ==> BlockedIsReverse(us)
  {
    assert SameLinks(ts, us);
    SameLinksKeepGraph(ts, us);
  }

  /** `us` differs from `ts` at most in the schedule of each node: its critical cost and both intervals. */
  ghost predicate SameLinks(ts: seq<TaskEvaluated>, us: seq<TaskEvaluated>) {
    && |ts| == |us|
    && forall i :: 0 <= i < |ts| ==>
         us[i] == ts[i].(criticalCost := us[i].criticalCost, earlyStart := us[i].earlyStart, earlyFinish := us[i].earlyFinish,
                         latestStart := us[i].latestStart, latestFinish := us[i].latestFinish)
  }

  /** Rescheduling keeps the graph, its reverse and the costs. */
  lemma SameLinksKeepGraph(ts: seq<TaskEvaluated>, us: seq<TaskEvaluated>)
    requires SameLinks(ts, us)
    ensures GraphOf(us) == GraphOf(ts)
    ensures BlockedIsReverse(ts) ==> BlockedIsReverse(us)
    ensures forall i :: 0 <= i < |ts| ==> us[i].cost == ts[i].cost && us[i].blocked == ts[i].blocked
  {
    if BlockedIsReverse(ts) {
      forall d, t | 0 <= d < |us| && t in us[d].blocked
        ensures t < |us| && d in us[t].dependencies
      {
        assert t in ts[d].blocked;
      }
      forall t, d | 0 <= t < |us| && d in us[t].dependencies
        ensures d < |us| && t in us[d].blocked
      {
        assert d in ts[t].dependencies;
      }
    }
  }

  /**
   * What the forward pass needs of the arena `ts`: a finalisation order of its graph, blocking as the
   * reverse of depending, the critical-cost equations, non-negative costs and earliest intervals
   * still at [0, 0].
   */
  ghost predicate ForwardReady(ts: seq<TaskEvaluated>, order: seq<nat>, pos: seq<nat>) {
    && TopologicalOrder(GraphOf(ts), order, pos) && BlockedIsReverse(ts)
    && CriticalCostsHold(ts) && CostsNonNegative(ts)
    && forall i :: 0 <= i < |ts| ==> ts[i].earlyStart == 0 && ts[i].earlyFinish == 0
  }

  /** After the forward pass every node finishes at its critical cost and starts its cost earlier. */
  ghost predicate ForwardDone(ts: seq<TaskEvaluated>) {
    forall i :: 0 <= i < |ts| ==> ts[i].earlyFinish == ts[i].criticalCost && ts[i].earlyStart == ts[i].criticalCost - ts[i].cost
  }

  /** `initials` are the nodes of `ts` without dependencies. */
  ghost predicate InitialNodes(ts: seq<TaskEvaluated>, initials: set<nat>) {
    forall i: nat :: i in initials <==> i < |ts| && ts[i].dependencies == {}
  }

  /**
   * After the backflow and the backward pass on the linked arena `linked`, the arena `latest` meets
   * what the forward pass needs: the critical-cost equations, non-negative costs, blocking as the
   * reverse of depending and earliest intervals still at [0, 0].
   */
  lemma ReadyForForwardPass(src: seq<Task>, linked: seq<TaskEvaluated>, costed: seq<TaskEvaluated>,
                            latest: seq<TaskEvaluated>, taskMap: map<string, nat>, order: seq<nat>, pos: seq<nat>)
    requires LinkedUpTo(src, linked, taskMap, |linked|)
    requires OnlyCriticalCostsChanged(linked, costed) && OnlyLatestIntervalsChanged(costed, latest)
    requires CriticalCostsHold(costed) && TopologicalOrder(GraphOf(costed), order, pos)
    ensures SameLinks(linked, latest) && CriticalCosts(latest) == CriticalCosts(costed)
    ensures GraphOf(costed) == GraphOf(linked) && ForwardReady(latest, order, pos)
  {
    assert SameLinks(linked, latest);
    SameLinksKeepGraph(linked, latest);
    assert SameLinks(linked, costed);
    SameLinksKeepGraph(linked, costed);
    assert CriticalCosts(latest) == CriticalCosts(costed);
    forall i | 0 <= i < |latest|
      ensures CriticalCostAt(latest, i)
    {
      assert CriticalCostAt(costed, i);
    }
    forall i | 0 <= i < |latest|
      ensures latest[i].cost >= 0
    {
      assert latest[i].cost == linked[i].cost == src[i].duration;
    }
  }

  /** Changing only earliest intervals keeps the critical-cost and latest-interval equations. */
  lemma ForwardPassKeepsEquations(latest: seq<TaskEvaluated>, final: seq<TaskEvaluated>, maxCost: int)
    requires CriticalCostsHold(latest) && LatestIntervalsHold(latest, maxCost)
    requires OnlyEarlyIntervalsChanged(latest, final)
    ensures CriticalCosts(final) == CriticalCosts(latest)
    ensures CriticalCostsHold(final) && LatestIntervalsHold(final, maxCost)
  {
    assert CriticalCosts(final) == CriticalCosts(latest);
    assert LatestStarts(final) == LatestStarts(latest);
    forall i | 0 <= i < |final|
      ensures CriticalCostAt(final, i)
    {
      assert CriticalCostAt(latest, i);
    }
    forall i | 0 <= i < |final|
      ensures LatestIntervalAt(final, i, maxCost)
    {
      assert LatestIntervalAt(latest, i, maxCost);
    }
    assert GraphOf(final) == GraphOf(latest);
  }

  /** After the forward pass on `latest`, the arena `final` is the complete schedule of `src`. */
  lemma ScheduledAfterPasses(src: seq<Task>, linked: seq<TaskEvaluated>, latest: seq<TaskEvaluated>,
                             final: seq<TaskEvaluated>, taskMap: map<string, nat>, maxCost: int,
                             order: seq<nat>, pos: seq<nat>)
    requires LinkedUpTo(src, linked, taskMap, |linked|) && DependenciesKnown(src)
    requires GraphOf(linked) == ResolvedGraph(src)
    requires SameLinks(linked, latest) && ForwardReady(latest, order, pos)
    requires maxCost == MaxCriticalCost(latest) && LatestIntervalsHold(latest, maxCost)
    requires OnlyEarlyIntervalsChanged(latest, final) && ForwardDone(final)
    ensures Scheduled(src, final, taskMap, maxCost, pos)
  {
    assert SameLinks(latest, final);
    SameLinksKeepGraph(latest, final);
    assert SameLinks(linked, final);
    SameLinksKeepGraph(linked, final);
    ForwardPassKeepsEquations(latest, final, maxCost);
    MaxCriticalCostAgree(final, latest);
    EarlyIntervalsFromCriticalCosts(final);
    forall i | 0 <= i < |final|
      ensures MadeFrom(final[i], src[i])
    {
      assert final[i].task == linked[i].task;
    }
  }

  /** The nodes of a schedule cost their tasks' durations, which are never negative. */
  lemma ScheduledCostsNonNegative(src: seq<Task>, ts: seq<TaskEvaluated>, taskMap: map<string, nat>, maxCost: int,
                                  rank: seq<nat>)
    requires Scheduled(src, ts, taskMap, maxCost, rank)
    ensures CostsNonNegative(ts)
  {
    forall i | 0 <= i < |ts|
      ensures ts[i].cost >= 0
    {
      assert MadeFrom(ts[i], src[i]);
    }
  }

  class CriticalPathEngine {
    /** The evaluated tasks in execution order. */
    var tasks: seq<TaskEvaluated>
    /** The evaluated tasks in input order; the links between them are indices into this array. */
    var nodes: array<TaskEvaluated>
    /** The index in `nodes` of each task code. */
    var taskMap: map<string, nat>
    /** The total duration of the project. */
    var maxCost: int
    /** The input of the last evaluation. */
    ghost var source: seq<Task>
    /** A rank of the dependency graph that drops along every edge, witnessing that it has no cycle. */
    ghost var rank: seq<nat>

    ghost predicate Valid()
      reads this, nodes
    {
      && Scheduled(source, nodes[..], taskMap, maxCost, rank)
      && tasks == SortByExecutionOrder(nodes[..])
    }

    /** An engine that has evaluated nothing yet. */
    constructor ()
      ensures tasks == [] && nodes.Length == 0 && taskMap == map[] && maxCost == UnsetCost
    {
      tasks := [];
      nodes := new TaskEvaluated[0];
      taskMap := map[];
      maxCost := UnsetCost;
      source := [];
      rank := [];
    }

    /** An engine that has evaluated `sourceTasks`, or the error the evaluation stops with. */
    static method Create(sourceTasks: seq<Task>) returns (r: Result<CriticalPathEngine, EvalError>)
      ensures r.Ok? <==> Succeeds(sourceTasks)
      ensures r.Ok? ==> fresh(r.value) && r.value.Valid() && r.value.source == sourceTasks
      ensures r.Err? ==> FailsWith(sourceTasks, r.error)
    {
      var engine := new CriticalPathEngine();
      var outcome := engine.EvaluateTasks(sourceTasks);
      if outcome.Fail? {
        return Err(outcome.error);
      }
      return Ok(engine);
    }

    /**
     * The evaluated tasks in execution order: a rearrangement of the nodes, ordered by earliest start,
     * that keeps tasks starting together in input order.
     */
    function GetTasks(): (ts: seq<TaskEvaluated>)
      reads this, nodes
      requires Valid()
      ensures SortedByStart(ts) && multiset(ts) == multiset(nodes[..])
      ensures forall v :: StartingAt(ts, v) == StartingAt(nodes[..], v)
    {
      SortByExecutionOrderCorrect(nodes[..]);
      tasks
    }

    /**
     * The total duration of the project: the largest critical cost, 0 without tasks. No chain of
     * dependencies costs more, and some chain costs exactly that.
     */
    function GetTotalDuration(): (d: int)
      reads this, nodes
      requires Valid()
      ensures nodes.Length == 0 ==> d == 0
      ensures forall i :: 0 <= i < nodes.Length ==> nodes[i].criticalCost <= d
      ensures forall p :: IsChain(GraphOf(nodes[..]), p) ==> ChainCost(nodes[..], p) <= d
      ensures nodes.Length > 0 ==> exists p :: IsChain(GraphOf(nodes[..]), p) && ChainCost(nodes[..], p) == d
    {
      ScheduledCostsNonNegative(source, nodes[..], taskMap, maxCost, rank);
      TotalDurationIsLongestChain(nodes[..], rank);
      maxCost
    }

    /**
     * Evaluates `sourceTasks`: the nodes, the code index, the links, the critical costs, the total
     * duration, both intervals of every task and the execution order.
     */
    method EvaluateTasks(sourceTasks: seq<Task>) returns (outcome: Outcome)
      modifies this
      ensures fresh(nodes) && source == sourceTasks
      ensures outcome.Pass? <==> Succeeds(sourceTasks)
      ensures outcome.Pass? ==> Valid()
      ensures outcome.Fail? ==> FailsWith(sourceTasks, outcome.error)
    {
      var n := |sourceTasks|;
      nodes := new TaskEvaluated[n](i requires 0 <= i < n => FromTask(sourceTasks[i]));
      source := sourceTasks;
      var indexed := TaskMapOf(Codes(sourceTasks));
      if indexed.Err? {
        return Fail(indexed.error);
      }
      taskMap := indexed.value;
      FreshNodesLinked(source, nodes[..], taskMap);
      for i := 0 to n
        invariant fresh(nodes) && source == sourceTasks && taskMap == indexed.value
        invariant LinkedUpTo(source, nodes[..], taskMap, i)
      {
        outcome := LoadDependencies(i);
        if outcome.Fail? {
          UnknownCode(source, taskMap, i, outcome.error.code);
          return;
        }
      }
      AllLinked(source, nodes[..], taskMap);
      outcome := CalculateCriticalPath();
    }

    /**
     * Links node `i` to the nodes of its dependency codes and records `i` as blocked by each of them.
     * A code that names no task stops the evaluation.
     */
    method LoadDependencies(i: nat) returns (outcome: Outcome)
      requires i < nodes.Length && LinkedUpTo(source, nodes[..], taskMap, i)
      modifies nodes
      ensures outcome.Pass? <==> source[i].dependencies <= taskMap.Keys
      ensures outcome.Pass? ==> LinkedUpTo(source, nodes[..], taskMap, i + 1)
      ensures outcome.Fail? ==> outcome.error.UnknownDependency?
      ensures outcome.Fail? ==> outcome.error.code in source[i].dependencies && outcome.error.code !in taskMap
    {
      var codes := nodes[i].task.dependencies;
      if !(codes <= taskMap.Keys) {
        var missing :| missing in codes && missing !in taskMap;
        return Fail(UnknownDependency(missing));
      }
      ghost var before := nodes[..];
      var dependencies := ResolveCodes(codes, taskMap);
      ResolvedInRange(Codes(source), taskMap, codes);
      nodes[i] := nodes[i].(dependencies := dependencies);
      AddBlocked(dependencies, i);
      LinkStep(source, before, nodes[..], taskMap, i, dependencies);
      outcome := Pass;
    }

    /** Records node `task` in the successor set of each node of `dependencies`. */
    method AddBlocked(dependencies: set<nat>, task: nat)
      requires forall d :: d in dependencies ==> d < nodes.Length
      modifies nodes
      ensures nodes[..] == WithBlocked(old(nodes[..]), dependencies, task)
    {
      ghost var before := nodes[..];
      var pending := dependencies;
      while pending != {}
        invariant pending <= dependencies
        invariant nodes[..] == WithBlocked(before, dependencies - pending, task)
      {
        var dependency :| dependency in pending;
        nodes[dependency] := nodes[dependency].(blocked := nodes[dependency].blocked + {task});
        pending := pending - {dependency};
      }
      assert dependencies - pending == dependencies;
    }

    /**
     * Computes the critical costs, the total duration, the latest and earliest intervals and the
     * execution order; a cycle in the dependencies stops the evaluation.
     */
    method CalculateCriticalPath() returns (outcome: Outcome)
      requires LinkedUpTo(source, nodes[..], taskMap, nodes.Length) && DependenciesKnown(source)
      requires GraphOf(nodes[..]) == ResolvedGraph(source)
      modifies this, nodes
      ensures nodes == old(nodes) && source == old(source) && taskMap == old(taskMap)
      ensures outcome.Pass? <==> !HasCycle(GraphOf(old(nodes[..])))
      ensures outcome.Pass? ==> Valid()
      ensures outcome.Fail? ==> outcome.error == CyclicDependency
    {
      ghost var linked := nodes[..];
      ReverseInRange(linked);
      var order;
      ghost var pos;
      outcome, order, pos := Backflow();
      ghost var costed := nodes[..];
      CostingKeepsGraph(linked, costed);
      if outcome.Fail? {
        return;
      }
      maxCost := MaxCriticalCost(nodes[..]);
      CalculateLatestIntervals(order, pos);
      ghost var latest := nodes[..];
      ReadyForForwardPass(source, linked, costed, latest, taskMap, order, pos);
      MaxCriticalCostAgree(latest, costed);
      var initialNodes := FindInitialNodes(nodes[..]);
      CalculateEarlyIntervals(initialNodes, order, pos);
      tasks := SortByExecutionOrder(nodes[..]);
      rank := pos;
      ScheduledAfterPasses(source, linked, latest, nodes[..], taskMap, maxCost, order, pos);
      RankedIsAcyclic(GraphOf(costed), pos);
    }

    /**
     * The backflow algorithm: repeatedly finalises every remaining node whose dependencies are all
     * final, giving it its own cost plus the largest critical cost among them. A pass that finalises
     * nothing means a cycle. `order` is the order nodes were finalised in.
     */
    method Backflow() returns (outcome: Outcome, order: seq<nat>, ghost pos: seq<nat>)
      requires InRange(GraphOf(nodes[..]))
      modifies nodes
      ensures OnlyCriticalCostsChanged(old(nodes[..]), nodes[..])
      ensures outcome.Pass? ==> CriticalCostsHold(nodes[..]) && TopologicalOrder(GraphOf(nodes[..]), order, pos)
      ensures outcome.Fail? ==> outcome.error == CyclicDependency && HasCycle(GraphOf(nodes[..]))
    {
      ghost var ts0 := nodes[..];
      ghost var cc := CriticalCosts(ts0);
      var completed: set<nat> := {};
      var remaining: set<nat> := Indices(nodes.Length);
      order := [];
      pos := seq(nodes.Length, _ => 0);
      while remaining != {}
        invariant BackflowState(ts0, nodes[..], cc, completed, remaining, order, pos)
        decreases |remaining|
      {
        var progress;
        completed, remaining, order, pos, cc, progress := FinaliseReadyTasks(completed, remaining, order, pos, cc, ts0);
        if !progress {
          NoProgressMeansCycle(GraphOf(ts0), completed, remaining);
          assert GraphOf(nodes[..]) == GraphOf(ts0);
          return Fail(CyclicDependency), order, pos;
        }
      }
      outcome := Pass;
      BackflowComplete(ts0, nodes[..], cc, completed, order, pos);
    }

    /**
     * One pass of the backflow over the nodes of `remaining`: each one whose dependencies are all
     * final is given its critical cost and moves to the completed ones.
     */
    method FinaliseReadyTasks(completed: set<nat>, remaining: set<nat>, order: seq<nat>, ghost pos: seq<nat>,
                              ghost cc: seq<int>, ghost ts0: seq<TaskEvaluated>)
      returns (completed': set<nat>, remaining': set<nat>, order': seq<nat>, ghost pos': seq<nat>,
               ghost cc': seq<int>, progress: bool)
      requires BackflowState(ts0, nodes[..], cc, completed, remaining, order, pos)
      modifies nodes
      ensures BackflowState(ts0, nodes[..], cc', completed', remaining', order', pos')
      ensures progress ==> |remaining'| < |remaining|
      ensures !progress ==> completed' == completed && remaining' == remaining
      ensures !progress ==> forall r :: r in remaining ==> !(GraphOf(ts0)[r] <= completed)
    {
      ghost var g := GraphOf(ts0);
      completed', remaining', order', pos', cc' := completed, remaining, order, pos, cc;
      progress := false;
      var pending := remaining;
      while pending != {}
        invariant pending <= remaining' <= remaining
        invariant BackflowState(ts0, nodes[..], cc', completed', remaining', order', pos')
        invariant progress ==> |remaining'| < |remaining|
        invariant !progress ==> completed' == completed && remaining' == remaining
        invariant !progress ==> forall r :: r in remaining - pending ==> !(g[r] <= completed)
      {
        var task :| task in pending;
        pending := pending - {task};
        if nodes[task].dependencies <= completed' {
          assert CriticalCosts(nodes[..]) == cc';
          var maxCriticalCost := MaxDependencyCriticalCost(nodes[..], nodes[task].dependencies);
          nodes[task] := nodes[task].(criticalCost := maxCriticalCost + nodes[task].cost);
          OrderStep(g, completed', order', pos', task);
          CostStep(ts0, cc', completed', task, maxCriticalCost);
          cc' := cc'[task := maxCriticalCost + ts0[task].cost];
          completed' := completed' + {task};
          remaining' := remaining' - {task};
          pos' := pos'[task := |order'|];
          order' := order' + [task];
          progress := true;
        }
      }
    }

    /** The largest critical cost among the dependencies `deps`, 0 when there are none. */
    static method MaxDependencyCriticalCost(ts: seq<TaskEvaluated>, deps: set<nat>) returns (m: int)
      requires forall d :: d in deps ==> d < |ts|
      ensures m == MaxOver(deps, CriticalCosts(ts))
    {
      ghost var cc := CriticalCosts(ts);
      ghost var seen: set<nat> := {};
      var max: Option<int> := None;
      var pending := deps;
      while pending != {}
        invariant pending <= deps && seen == deps - pending
        invariant max.None? <==> seen == {}
        invariant max.Some? ==> max.value == MaxOver(seen, cc)
      {
        var d :| d in pending;
        MaxOverInsert(seen, d, cc);
        if max.None? || max.value < ts[d].criticalCost {
          max := Some(ts[d].criticalCost);
        }
        seen := seen + {d};
        pending := pending - {d};
      }
      m := max.GetOr(0);
    }
  
    /**
     * The backward pass of the critical path method. In reverse finalisation order, each node must
     * finish by the latest start of every node it blocks, or by the total duration when it blocks none.
     */
    method CalculateLatestIntervals(order: seq<nat>, ghost pos: seq<nat>)
      requires TopologicalOrder(GraphOf(nodes[..]), order, pos) && BlockedIsReverse(nodes[..])
      modifies nodes
      ensures OnlyLatestIntervalsChanged(old(nodes[..]), nodes[..])
      ensures LatestIntervalsHold(nodes[..], maxCost)
    {
      ghost var ts0 := nodes[..];
      ghost var g := GraphOf(ts0);
      var k := nodes.Length;
      while k > 0
        invariant 0 <= k <= nodes.Length
        invariant forall i :: 0 <= i < nodes.Length ==>
          nodes[i] == ts0[i].(latestStart := nodes[i].latestStart, latestFinish := nodes[i].latestFinish)
        invariant forall i :: 0 <= i < nodes.Length && pos[i] >= k ==> LatestIntervalAt(nodes[..], i, maxCost)
      {
        k := k - 1;
        var u := order[k];
        ghost var before := nodes[..];
        var latestFinish := MinLatestStart(nodes[..], nodes[u].blocked, maxCost);
        nodes[u] := nodes[u].(latestStart := latestFinish - nodes[u].cost, latestFinish := latestFinish);
        forall i | 0 <= i < nodes.Length && pos[i] >= k
          ensures LatestIntervalAt(nodes[..], i, maxCost)
        {
          forall s | s in nodes[i].blocked
            ensures s < nodes.Length && s != u && pos[i] < pos[s]
          {
            assert i in g[s];
          }
          if nodes[i].blocked != {} {
            MinOverAgree(nodes[i].blocked, LatestStarts(before), LatestStarts(nodes[..]));
          }
        }
      }
      forall i | 0 <= i < nodes.Length
        ensures LatestIntervalAt(nodes[..], i, maxCost)
      {
        assert pos[i] >= k;
      }
    }

    /** The smallest latest start among the nodes `successors`, `maxCost` when there are none. */
    static method MinLatestStart(ts: seq<TaskEvaluated>, successors: set<nat>, maxCost: int) returns (m: int)
      requires forall s :: s in successors ==> s < |ts|
      ensures m == if successors == {} then maxCost else MinOver(successors, LatestStarts(ts))
    {
      ghost var ls := LatestStarts(ts);
      ghost var seen: set<nat> := {};
      var min: Option<int> := None;
      var pending := successors;
      while pending != {}
        invariant pending <= successors && seen == successors - pending
        invariant min.None? <==> seen == {}
        invariant min.Some? ==> min.value == MinOver(seen, ls)
      {
        var s :| s in pending;
        MinOverInsert(seen, s, ls);
        assert ls[s] == ts[s].latestStart;
        if min.None? || ts[s].latestStart < min.value {
          min := Some(ts[s].latestStart);
        }
        seen := seen + {s};
        pending := pending - {s};
      }
      m := min.GetOr(maxCost);
    }

    /**
     * The nodes that no node blocks. When blocking is the reverse of depending, these are exactly the
     * nodes without dependencies.
     */
    static method FindInitialNodes(ts: seq<TaskEvaluated>) returns (initials: set<nat>)
      ensures forall i: nat :: i in initials <==> i < |ts| && forall t :: 0 <= t < |ts| ==> i !in ts[t].blocked
      ensures BlockedIsReverse(ts) ==> InitialNodes(ts, initials)
    {
      var remaining: set<nat> := Indices(|ts|);
      for j := 0 to |ts|
        invariant forall i: nat :: i in remaining <==> i < |ts| && forall t :: 0 <= t < j ==> i !in ts[t].blocked
      {
        var pending := ts[j].blocked;
        while pending != {}
          invariant pending <= ts[j].blocked
          invariant forall i: nat :: i in remaining <==>
            && i < |ts|
            && (forall t :: 0 <= t < j ==> i !in ts[t].blocked)
            && !(i in ts[j].blocked && i !in pending)
        {
          var blocked :| blocked in pending;
          remaining := remaining - {blocked};
          pending := pending - {blocked};
        }
      }
      initials := remaining;
    }

    /**
     * The forward pass. Visiting the nodes in finalisation order, a node without dependencies starts
     * at 0, and each visited node pushes its earliest finish to the nodes it blocks.
     */
    method CalculateEarlyIntervals(initials: set<nat>, order: seq<nat>, ghost pos: seq<nat>)
      requires ForwardReady(nodes[..], order, pos) && InitialNodes(nodes[..], initials)
      modifies nodes
      ensures OnlyEarlyIntervalsChanged(old(nodes[..]), nodes[..]) && ForwardDone(nodes[..])
    {
      ghost var ts0 := nodes[..];
      ghost var cc := CriticalCosts(ts0);
      ghost var visited: set<nat> := {};
      forall i | 0 <= i < nodes.Length
        ensures WaitingAt(ts0, GraphOf(ts0), cc, visited, i)
      {
        assert GraphOf(ts0)[i] * visited == {};
      }
      for k := 0 to nodes.Length
        invariant ForwardState(ts0, nodes[..], cc, pos, visited, k)
      {
        var initial := order[k];
        ghost var ts1 := nodes[..];
        if initial in initials {
          nodes[initial] := nodes[initial].(earlyStart := 0, earlyFinish := nodes[initial].cost);
        }
        ghost var ts2 := nodes[..];
        SetEarlyInterval(initial);
        ForwardStep(ts0, ts1, ts2, nodes[..], order, pos, visited, k);
        visited := visited + {initial};
      }
      forall i | 0 <= i < nodes.Length
        ensures nodes[i].earlyFinish == nodes[i].criticalCost && nodes[i].earlyStart == nodes[i].criticalCost - nodes[i].cost
      {
        assert FinishedAt(nodes[..], cc, i);
      }
      assert ForwardDone(nodes[..]);
    }

    /** Pushes node `initial`'s earliest finish to every node it blocks that would otherwise start earlier. */
    method SetEarlyInterval(initial: nat)
      requires initial < nodes.Length && forall t :: t in nodes[initial].blocked ==> t < nodes.Length
      modifies nodes
      ensures forall t :: 0 <= t < nodes.Length ==> nodes[t] == PushedFinish(old(nodes[..]), initial, t)
    {
      var completionTime := nodes[initial].earlyFinish;
      var successors := nodes[initial].blocked;
      ghost var before := nodes[..];
      var pending := successors;
      while pending != {}
        invariant pending <= successors
        invariant forall t :: 0 <= t < nodes.Length ==>
          nodes[t] == if t in pending then before[t] else PushedFinish(before, initial, t)
      {
        var task :| task in pending;
        if completionTime >= nodes[task].earlyStart {
          nodes[task] := nodes[task].(earlyStart := completionTime, earlyFinish := completionTime + nodes[task].cost);
        }
        pending := pending - {task};
      }
    }
  }
}
