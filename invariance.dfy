/**
 * What a finished evaluation does not depend on: the order in which the tasks are listed, and any
 * earlier evaluation. Listing the tasks in another order relabels the arena; every node keeps its
 * critical cost and both of its intervals, and the total duration and the peak crew demand are the
 * same. Evaluating the same list twice gives the same arena.
 */
module Invariance {
  import opened Results
  import opened Tasks
  import opened Graph
  import opened Evaluated
  import opened Schedule
  import opened Engine
  import opened CrewMembers

  /** Some position of `perm` holds `e`. */
  ghost predicate Listed(perm: seq<nat>, e: nat) {
    exists k :: 0 <= k < |perm| && perm[k] == e
  }

  /** `perm` lists every index below `n` exactly once. */
  ghost predicate IsPermutation(perm: seq<nat>, n: nat) {
    && |perm| == n
    && (forall k :: 0 <= k < n ==> perm[k] < n)
    && (forall j, k :: 0 <= j < k < n ==> perm[j] != perm[k])
    && (forall e :: 0 <= e < n ==> Listed(perm, e))
  }

  /** `src'` lists the tasks of `src` in another order: its `k`-th task is the `perm[k]`-th of `src`. */
  ghost predicate Reordered(src: seq<Task>, src': seq<Task>, perm: seq<nat>) {
    && IsPermutation(perm, |src|)
    && |src'| == |src|
    && forall k :: 0 <= k < |src'| ==> src'[k] == src[perm[k]]
  }

  /** The two nodes have the same task, critical cost and earliest and latest intervals. */
  predicate SameSchedule(a: TaskEvaluated, b: TaskEvaluated) {
    && a.task == b.task
    && a.cost == b.cost
    && a.criticalCost == b.criticalCost
    && a.earlyStart == b.earlyStart && a.earlyFinish == b.earlyFinish
    && a.latestStart == b.latestStart && a.latestFinish == b.latestFinish
  }

  // ---------------------------------------------------------------------------------------------
  // Relabelling.

  /** The identity lists every index once. */
  lemma IdentityIsPermutation(n: nat) returns (perm: seq<nat>)
    ensures IsPermutation(perm, n) && forall k :: 0 <= k < n ==> perm[k] == k
  {
    perm := seq(n, k requires 0 <= k < n => k);
    forall e | 0 <= e < n
      ensures Listed(perm, e)
    {
      assert perm[e] == e;
    }
  }

  /** The largest value over `a` under `f` is the largest over its image `b` under `g`. */
  lemma MaxOverRelabel(a: set<nat>, b: set<nat>, perm: seq<nat>, f: seq<int>, g: seq<int>)
    requires forall d :: d in a ==> d < |perm| && d < |f| && perm[d] in b && perm[d] < |g| && f[d] == g[perm[d]]
    requires forall e :: e in b ==> e < |g| && exists d :: d in a && perm[d] == e
    ensures MaxOver(a, f) == MaxOver(b, g)
  {
    if b != {} {
      var e :| e in b;
      var d :| d in a && perm[d] == e;
    }
    if a != {} {
      var d :| d in a && MaxOver(a, f) == f[d];
      assert perm[d] in b;
      var e :| e in b && MaxOver(b, g) == g[e];
      var d' :| d' in a && perm[d'] == e;
      assert f[d'] <= MaxOver(a, f);
    }
  }

  /** The smallest value over a non-empty `a` under `f` is the smallest over its image `b` under `g`. */
  lemma MinOverRelabel(a: set<nat>, b: set<nat>, perm: seq<nat>, f: seq<int>, g: seq<int>)
    requires a != {}
    requires forall d :: d in a ==> d < |perm| && d < |f| && perm[d] in b && perm[d] < |g| && f[d] == g[perm[d]]
    requires forall e :: e in b ==> e < |g| && exists d :: d in a && perm[d] == e
    ensures b != {} && MinOver(a, f) == MinOver(b, g)
  {
    var d :| d in a && MinOver(a, f) == f[d];
    assert perm[d] in b;
    var e :| e in b && MinOver(b, g) == g[e];
    var d' :| d' in a && perm[d'] == e;
    assert MinOver(a, f) <= f[d'];
  }

  // ---------------------------------------------------------------------------------------------
  // The arena of a reordered input.

  /** A code of the list resolves to its position. */
  lemma ResolvesToPosition(codes: seq<string>, taskMap: map<string, nat>, j: nat)
    requires TaskMapOf(codes) == Ok(taskMap) && j < |codes|
    ensures codes[j] in taskMap && taskMap[codes[j]] == j
  {
  }

  /** A code the index knows is the code listed at the position it resolves to. */
  lemma PositionHoldsCode(codes: seq<string>, taskMap: map<string, nat>, c: string)
    requires TaskMapOf(codes) == Ok(taskMap) && c in taskMap
    ensures taskMap[c] < |codes| && codes[taskMap[c]] == c
  {
    var j :| 0 <= j < |codes| && codes[j] == c;
    ResolvesToPosition(codes, taskMap, j);
  }

  /**
   * With the same dependency codes, the node listed at `d` in one list is a resolved dependency
   * exactly when the node holding the same task, at `e` in the other list, is one.
   */
  lemma EdgeTransfer(codes: seq<string>, codes': seq<string>, taskMap: map<string, nat>, taskMap': map<string, nat>,
                     deps: set<string>, d: nat, e: nat)
    requires TaskMapOf(codes) == Ok(taskMap) && TaskMapOf(codes') == Ok(taskMap')
    requires deps <= taskMap.Keys && deps <= taskMap'.Keys
    requires d < |codes'| && e < |codes| && codes'[d] == codes[e]
    ensures d in ResolveCodes(deps, taskMap') <==> e in ResolveCodes(deps, taskMap)
  {
    ResolvesToPosition(codes, taskMap, e);
    ResolvesToPosition(codes', taskMap', d);
    if d in ResolveCodes(deps, taskMap') {
      var c :| c in deps && taskMap'[c] == d;
      PositionHoldsCode(codes', taskMap', c);
    }
    if e in ResolveCodes(deps, taskMap) {
      var c :| c in deps && taskMap[c] == e;
      PositionHoldsCode(codes, taskMap, c);
    }
  }

  /**
   * Resolved through their code indices, the reordered input has an edge from `k` to `d` exactly
   * when the original one has an edge from `perm[k]` to `perm[d]`: a code resolves to wherever its
   * task is listed.
   */
  lemma ReorderedGraph(src: seq<Task>, src': seq<Task>, perm: seq<nat>, k: nat, d: nat)
    requires Distinct(Codes(src)) && DependenciesKnown(src) && Distinct(Codes(src')) && DependenciesKnown(src')
    requires Reordered(src, src', perm)
    requires k < |src'| && d < |src'|
    ensures d in ResolvedGraph(src')[k] <==> perm[d] in ResolvedGraph(src)[perm[k]]
  {
    var codes, codes' := Codes(src), Codes(src');
    var taskMap, taskMap' := TaskMapOf(codes).value, TaskMapOf(codes').value;
    var i := perm[k];
    var deps := src[i].dependencies;
    assert src'[k] == src[i] && src'[d] == src[perm[d]];
    assert ResolvedGraph(src')[k] == ResolveCodes(deps, taskMap');
    assert ResolvedGraph(src)[i] == ResolveCodes(deps, taskMap);
    EdgeTransfer(codes, codes', taskMap, taskMap', deps, d, perm[d]);
  }

  /** Reordering keeps the codes distinct and every dependency code known. */
  lemma ReorderedKnown(src: seq<Task>, src': seq<Task>, perm: seq<nat>)
    requires Reordered(src, src', perm) && Distinct(Codes(src)) && DependenciesKnown(src)
    ensures Distinct(Codes(src')) && DependenciesKnown(src')
  {
    var codes, codes' := Codes(src), Codes(src');
    forall i, j | 0 <= i < j < |codes'|
      ensures codes'[i] != codes'[j]
    {
      assert codes'[i] == codes[perm[i]] && codes'[j] == codes[perm[j]];
    }
    forall i, c | 0 <= i < |src'| && c in src'[i].dependencies
      ensures c in codes'
    {
      assert src'[i] == src[perm[i]] && c in src[perm[i]].dependencies;
      assert c in codes;
      var e :| 0 <= e < |codes| && codes[e] == c;
      assert Listed(perm, e);
      var k :| 0 <= k < |perm| && perm[k] == e;
      assert codes'[k] == c;
    }
  }

  /** Relabelling the nodes of a graph through `perm`, edge for edge, carries each of its cycles along. */
  lemma RelabelledCycle(g: Deps, g': Deps, perm: seq<nat>)
    requires |perm| == |g'| && forall k :: 0 <= k < |g'| ==> perm[k] < |g|
    requires forall k, d {:trigger d in g'[k]} :: 0 <= k < |g'| && 0 <= d < |g'| && d in g'[k] ==> perm[d] in g[perm[k]]
    ensures HasCycle(g') ==> HasCycle(g)
  {
    if HasCycle(g') {
      var i :| 0 <= i < |g'| && Reaches(g', i, i);
      var p :| IsChain(g', p) && |p| >= 2 && p[0] == i && p[|p| - 1] == i;
      var q := seq(|p|, k requires 0 <= k < |p| => perm[p[k]]);
      forall k | 1 <= k < |q|
        ensures q[k] in g[q[k - 1]]
      {
        assert p[k] in g'[p[k - 1]];
      }
      assert IsChain(g, q);
      assert Reaches(g, perm[i], perm[i]);
    }
  }

  /** A cycle of the reordered input, relabelled through `perm`, is a cycle of the original one. */
  lemma ReorderedCycle(src: seq<Task>, src': seq<Task>, perm: seq<nat>)
    requires Reordered(src, src', perm)
    requires Distinct(Codes(src)) && DependenciesKnown(src) && Distinct(Codes(src')) && DependenciesKnown(src')
    ensures HasCycle(ResolvedGraph(src')) ==> HasCycle(ResolvedGraph(src))
  {
    var g, g' := ResolvedGraph(src), ResolvedGraph(src');
    forall k, d | 0 <= k < |g'| && 0 <= d < |g'| && d in g'[k]
      ensures perm[d] in g[perm[k]]
    {
      ReorderedGraph(src, src', perm, k, d);
    }
    RelabelledCycle(g, g', perm);
  }

  /** Every reordering can be undone: `src` is `src'` listed in the inverse order. */
  lemma InverseReordered(src: seq<Task>, src': seq<Task>, perm: seq<nat>) returns (inv: seq<nat>)
    requires Reordered(src, src', perm)
    ensures Reordered(src', src, inv)
  {
    var n := |src|;
    inv := seq(n, e requires 0 <= e < n => assert Listed(perm, e); var k :| 0 <= k < n && perm[k] == e; k);
    forall e | 0 <= e < n
      ensures inv[e] < n && perm[inv[e]] == e && src[e] == src'[inv[e]]
    {
    }
    forall k | 0 <= k < n
      ensures Listed(inv, k)
    {
      assert perm[inv[perm[k]]] == perm[k];
    }
  }

  /**
   * Whether an evaluation succeeds does not depend on the order of the tasks: the codes stay
   * distinct, the dependencies stay known, and a cycle stays a cycle.
   */
  lemma ReorderedSucceeds(src: seq<Task>, src': seq<Task>, perm: seq<nat>)
    requires Reordered(src, src', perm)
    ensures Succeeds(src') <==> Succeeds(src)
  {
    if Succeeds(src) {
      ReorderedKnown(src, src', perm);
      ReorderedCycle(src, src', perm);
    }
    if Succeeds(src') {
      var inv := InverseReordered(src, src', perm);
      ReorderedKnown(src', src, inv);
      ReorderedCycle(src', src, inv);
    }
  }

  /**
   * Node `k` of `us` is node `perm[k]` of `ts` relabelled: the same cost, and its dependencies and
   * the nodes it blocks are, through `perm`, those of `ts[perm[k]]`.
   */
  ghost predicate RelabelledAt(ts: seq<TaskEvaluated>, us: seq<TaskEvaluated>, perm: seq<nat>, k: nat)
    requires |perm| == |us| == |ts| && k < |us| && perm[k] < |ts|
  {
    var i := perm[k];
    && us[k].cost == ts[i].cost
    && (forall d :: d in us[k].dependencies ==> d < |us| && perm[d] in ts[i].dependencies)
    && (forall e :: e in ts[i].dependencies ==> e < |ts| && exists d :: d in us[k].dependencies && perm[d] == e)
    && (forall s :: s in us[k].blocked ==> s < |us| && perm[s] in ts[i].blocked)
    && (forall e :: e in ts[i].blocked ==> e < |ts| && exists s :: s in us[k].blocked && perm[s] == e)
  }

  /** The arena `us` is the arena `ts` listed in the order `perm`. */
  ghost predicate Relabelled(ts: seq<TaskEvaluated>, us: seq<TaskEvaluated>, perm: seq<nat>) {
    && IsPermutation(perm, |ts|) && |us| == |ts|
    && forall k {:trigger RelabelledAt(ts, us, perm, k)} :: 0 <= k < |us| ==> RelabelledAt(ts, us, perm, k)
  }

  /** The links of node `k` of the reordered arena, relabelled, are those of node `perm[k]`. */
  lemma ReorderedLinks(ts: seq<TaskEvaluated>, us: seq<TaskEvaluated>, perm: seq<nat>, k: nat)
    requires IsPermutation(perm, |ts|) && |us| == |ts| && k < |us|
    requires BlockedIsReverse(ts) && BlockedIsReverse(us)
    requires forall j, d :: 0 <= j < |us| && 0 <= d < |us| ==>
               (d in us[j].dependencies <==> perm[d] in ts[perm[j]].dependencies)
    requires us[k].cost == ts[perm[k]].cost
    ensures RelabelledAt(ts, us, perm, k)
  {
    var i := perm[k];
    forall e | e in ts[i].dependencies
      ensures e < |ts| && exists d :: d in us[k].dependencies && perm[d] == e
    {
      assert Listed(perm, e);
      var d :| 0 <= d < |perm| && perm[d] == e;
    }
    forall s | s in us[k].blocked
      ensures s < |us| && perm[s] in ts[i].blocked
    {
      assert k in us[s].dependencies;
    }
    forall e | e in ts[i].blocked
      ensures e < |ts| && exists s :: s in us[k].blocked && perm[s] == e
    {
      assert i in ts[e].dependencies;
      assert Listed(perm, e);
      var s :| 0 <= s < |perm| && perm[s] == e;
      assert perm[k] in ts[perm[s]].dependencies;
    }
  }

  /** The arena of the reordered input is the original arena, listed in the new order. */
  lemma ReorderedArena(src: seq<Task>, src': seq<Task>, perm: seq<nat>,
                       ts: seq<TaskEvaluated>, us: seq<TaskEvaluated>,
                       taskMap: map<string, nat>, taskMap': map<string, nat>,
                       maxCost: int, maxCost': int, rank: seq<nat>, rank': seq<nat>)
    requires Scheduled(src, ts, taskMap, maxCost, rank) && Scheduled(src', us, taskMap', maxCost', rank')
    requires Reordered(src, src', perm)
    ensures Relabelled(ts, us, perm)
    ensures forall k :: 0 <= k < |us| ==> us[k].task == ts[perm[k]].task
  {
    forall j, d | 0 <= j < |us| && 0 <= d < |us|
      ensures d in us[j].dependencies <==> perm[d] in ts[perm[j]].dependencies
    {
      ReorderedGraph(src, src', perm, j, d);
      assert us[j].dependencies == GraphOf(us)[j];
      assert ts[perm[j]].dependencies == GraphOf(ts)[perm[j]];
    }
    forall k | 0 <= k < |us|
      ensures RelabelledAt(ts, us, perm, k) && us[k].task == ts[perm[k]].task
    {
      assert MadeFrom(us[k], src'[k]) && MadeFrom(ts[perm[k]], src[perm[k]]);
      ReorderedLinks(ts, us, perm, k);
    }
  }

  /** Node `k` of a relabelled arena has the critical cost of node `perm[k]` of the original one. */
  lemma {:induction false} RelabelledCriticalCost(ts: seq<TaskEvaluated>, us: seq<TaskEvaluated>, perm: seq<nat>,
                                                  rank: seq<nat>, k: nat)
    requires Relabelled(ts, us, perm) && Ranked(GraphOf(ts), rank)
    requires CriticalCostsHold(ts) && CriticalCostsHold(us)
    requires k < |us|
    ensures us[k].criticalCost == ts[perm[k]].criticalCost
    decreases rank[perm[k]]
  {
    var i := perm[k];
    var cc, cc' := CriticalCosts(ts), CriticalCosts(us);
    assert RelabelledAt(ts, us, perm, k);
    forall d | d in us[k].dependencies
      ensures cc'[d] == cc[perm[d]]
    {
      assert perm[d] in GraphOf(ts)[i];
      RelabelledCriticalCost(ts, us, perm, rank, d);
    }
    MaxOverRelabel(us[k].dependencies, ts[i].dependencies, perm, cc', cc);
    assert CriticalCostAt(us, k) && CriticalCostAt(ts, i);
  }

  /** A relabelled arena has the total duration of the original one. */
  lemma RelabelledTotalDuration(ts: seq<TaskEvaluated>, us: seq<TaskEvaluated>, perm: seq<nat>)
    requires IsPermutation(perm, |ts|) && |us| == |ts|
    requires forall k :: 0 <= k < |us| ==> us[k].criticalCost == ts[perm[k]].criticalCost
    ensures MaxCriticalCost(us) == MaxCriticalCost(ts)
  {
    if ts != [] {
      var i :| 0 <= i < |ts| && MaxCriticalCost(ts) == ts[i].criticalCost;
      assert Listed(perm, i);
      var k :| 0 <= k < |perm| && perm[k] == i;
      assert us[k].criticalCost <= MaxCriticalCost(us);
      var j :| 0 <= j < |us| && MaxCriticalCost(us) == us[j].criticalCost;
      assert ts[perm[j]].criticalCost <= MaxCriticalCost(ts);
    }
  }

  /**
   * A relabelled node whose successors already have the latest starts of the nodes they relabel
   * gets the latest interval of the node it relabels.
   */
  lemma LatestIntervalStep(ts: seq<TaskEvaluated>, us: seq<TaskEvaluated>, perm: seq<nat>, maxCost: int, k: nat)
    requires |perm| == |us| == |ts| && k < |us| && perm[k] < |ts| && RelabelledAt(ts, us, perm, k)
    requires LatestIntervalAt(us, k, maxCost) && LatestIntervalAt(ts, perm[k], maxCost)
    requires forall s :: s in us[k].blocked ==> s < |us| && perm[s] < |ts| && us[s].latestStart == ts[perm[s]].latestStart
    ensures us[k].latestStart == ts[perm[k]].latestStart && us[k].latestFinish == ts[perm[k]].latestFinish
  {
    var i := perm[k];
    if ts[i].blocked != {} {
      var e :| e in ts[i].blocked;
      var s :| s in us[k].blocked && perm[s] == e;
    }
    if us[k].blocked != {} {
      MinOverRelabel(us[k].blocked, ts[i].blocked, perm, LatestStarts(us), LatestStarts(ts));
    }
  }

  /** Node `k` of a relabelled arena has the latest interval of node `perm[k]` of the original one. */
  lemma {:induction false} RelabelledLatestInterval(ts: seq<TaskEvaluated>, us: seq<TaskEvaluated>, perm: seq<nat>,
                                                    rank: seq<nat>, maxCost: int, k: nat)
    requires Relabelled(ts, us, perm) && Ranked(GraphOf(ts), rank) && BlockedIsReverse(ts)
    requires LatestIntervalsHold(ts, maxCost) && LatestIntervalsHold(us, maxCost)
    requires k < |us|
    ensures us[k].latestStart == ts[perm[k]].latestStart && us[k].latestFinish == ts[perm[k]].latestFinish
    decreases |ts| - rank[perm[k]]
  {
    var i := perm[k];
    assert RelabelledAt(ts, us, perm, k);
    forall s | s in us[k].blocked
      ensures s < |us| && perm[s] < |ts| && us[s].latestStart == ts[perm[s]].latestStart
    {
      assert i in GraphOf(ts)[perm[s]];
      RelabelledLatestInterval(ts, us, perm, rank, maxCost, s);
    }
    assert LatestIntervalAt(us, k, maxCost) && LatestIntervalAt(ts, i, maxCost);
    LatestIntervalStep(ts, us, perm, maxCost, k);
  }

  // ---------------------------------------------------------------------------------------------
  // Peak demand of relabelled tasks.

  /** Leaving out the last position of a permutation, and closing the gap it held, is a permutation. */
  lemma DropLast(perm: seq<nat>, n: nat) returns (perm': seq<nat>)
    requires IsPermutation(perm, n) && n > 0
    ensures IsPermutation(perm', n - 1)
    ensures forall k :: 0 <= k < n - 1 ==>
              perm[k] != perm[n - 1] && perm'[k] == if perm[k] < perm[n - 1] then perm[k] else perm[k] - 1
  {
    var j := perm[n - 1];
    perm' := seq(n - 1, k requires 0 <= k < n - 1 => if perm[k] < j then perm[k] else perm[k] - 1);
    forall k | 0 <= k < n - 1
      ensures perm[k] != j && perm'[k] < n - 1
    {
      assert perm[k] != perm[n - 1];
    }
    forall e | 0 <= e < n - 1
      ensures Listed(perm', e)
    {
      var e' := if e < j then e else e + 1;
      assert Listed(perm, e');
      var k :| 0 <= k < |perm| && perm[k] == e';
      assert k != n - 1;
      assert perm'[k] == e;
    }
    forall a, b | 0 <= a < b < n - 1
      ensures perm'[a] != perm'[b]
    {
      assert perm[a] != perm[b];
    }
  }

  /** A sum over the tasks does not change when they are listed in another order. */
  lemma {:induction false} SumOfReordered(us: seq<TaskEvaluated>, vs: seq<TaskEvaluated>, perm: seq<nat>,
                                          f: TaskEvaluated -> int)
    requires IsPermutation(perm, |vs|) && |us| == |vs|
    requires forall k :: 0 <= k < |us| ==> f(us[k]) == f(vs[perm[k]])
    ensures SumOf(us, f) == SumOf(vs, f)
    decreases |us|
  {
    if us != [] {
      var n := |us|;
      var j := perm[n - 1];
      var rest := vs[..j] + vs[j + 1..];
      SumOfRemove(vs, j, f);
      var perm' := DropLast(perm, n);
      var init := us[..n - 1];
      forall k | 0 <= k < n - 1
        ensures f(init[k]) == f(rest[perm'[k]])
      {
        assert rest[perm'[k]] == vs[perm[k]];
      }
      SumOfReordered(init, rest, perm', f);
    }
  }

  /**
   * Tasks listed in another order, with the same range and crew assignment at corresponding
   * positions, have the same peak demand.
   */
  lemma PeakDemandReordered(ts: seq<TaskEvaluated>, us: seq<TaskEvaluated>, perm: seq<nat>)
    requires IsPermutation(perm, |ts|) && |us| == |ts|
    requires forall k :: 0 <= k < |us| ==>
               TaskRange(us[k]) == TaskRange(ts[perm[k]]) && AssignmentOf(us[k]) == AssignmentOf(ts[perm[k]])
    ensures PeakDemand(us) == PeakDemand(ts)
  {
    forall x
      ensures IsEndpoint(us, x) <==> IsEndpoint(ts, x)
    {
      if IsEndpoint(us, x) {
        var k :| 0 <= k < |us| && (us[k].earlyStart == x || us[k].earlyFinish == x);
        assert TaskRange(us[k]) == TaskRange(ts[perm[k]]);
      }
      if IsEndpoint(ts, x) {
        var i :| 0 <= i < |ts| && (ts[i].earlyStart == x || ts[i].earlyFinish == x);
        assert Listed(perm, i);
        var k :| 0 <= k < |perm| && perm[k] == i;
        assert TaskRange(us[k]) == TaskRange(ts[i]);
      }
    }
    StrictlyIncreasingUnique(GetAllTimePoints(us), GetAllTimePoints(ts));
    forall r
      ensures Covered(us, r) <==> Covered(ts, r)
      ensures Load(us, r) == Load(ts, r)
    {
      SumOfReordered(us, ts, perm, Contribution(r));
      if Covered(us, r) {
        var k :| 0 <= k < |us| && TaskRange(us[k]).Encloses(r);
        assert TaskRange(us[k]) == TaskRange(ts[perm[k]]);
      }
      if Covered(ts, r) {
        var i :| 0 <= i < |ts| && TaskRange(ts[i]).Encloses(r);
        assert Listed(perm, i);
        var k :| 0 <= k < |perm| && perm[k] == i;
        assert TaskRange(us[k]) == TaskRange(ts[i]);
      }
    }
    assert Loads(us) == Loads(ts);
  }

  // ---------------------------------------------------------------------------------------------
  // The evaluation's results.

  /**
   * A relabelled arena that satisfies the same equations has the same total duration, and each of its
   * nodes has the critical cost and both intervals of the node it relabels.
   */
  lemma RelabelledSchedule(ts: seq<TaskEvaluated>, us: seq<TaskEvaluated>, perm: seq<nat>,
                           rank: seq<nat>, rank': seq<nat>, maxCost: int, maxCost': int)
    requires Relabelled(ts, us, perm) && Ranked(GraphOf(ts), rank) && Ranked(GraphOf(us), rank')
    requires BlockedIsReverse(ts)
    requires CriticalCostsHold(ts) && CriticalCostsHold(us) && EarlyIntervalsHold(ts) && EarlyIntervalsHold(us)
    requires maxCost == MaxCriticalCost(ts) && maxCost' == MaxCriticalCost(us)
    requires LatestIntervalsHold(ts, maxCost) && LatestIntervalsHold(us, maxCost')
    requires forall k :: 0 <= k < |us| ==> us[k].task == ts[perm[k]].task
    ensures maxCost' == maxCost
    ensures forall k :: 0 <= k < |us| ==> SameSchedule(us[k], ts[perm[k]])
  {
    forall k | 0 <= k < |us|
      ensures us[k].criticalCost == ts[perm[k]].criticalCost
    {
      RelabelledCriticalCost(ts, us, perm, rank, k);
    }
    RelabelledTotalDuration(ts, us, perm);
    forall k | 0 <= k < |us|
      ensures SameSchedule(us[k], ts[perm[k]])
    {
      var i := perm[k];
      assert RelabelledAt(ts, us, perm, k);
      RelabelledLatestInterval(ts, us, perm, rank, maxCost, k);
      EarlyFinishIsCriticalCost(us, rank', k);
      EarlyFinishIsCriticalCost(ts, rank, i);
      assert EarlyIntervalAt(us, k) && EarlyIntervalAt(ts, i);
    }
  }

  /**
   * Relabelled tasks with the same ranges and crew assignments give the engine's task lists the same
   * peak crew demand.
   */
  lemma RelabelledPeak(ts: seq<TaskEvaluated>, us: seq<TaskEvaluated>, perm: seq<nat>)
    requires IsPermutation(perm, |ts|) && |us| == |ts|
    requires forall k :: 0 <= k < |us| ==> SameSchedule(us[k], ts[perm[k]])
    ensures PeakDemand(SortByExecutionOrder(us)) == PeakDemand(SortByExecutionOrder(ts))
  {
    PeakDemandReordered(ts, us, perm);
    SortByExecutionOrderCorrect(us);
    SortByExecutionOrderCorrect(ts);
    PeakPermutationInvariant(SortByExecutionOrder(us), us);
    PeakPermutationInvariant(SortByExecutionOrder(ts), ts);
  }

  /**
   * Listing the tasks in another order changes nothing an evaluation computes: the total duration is
   * the same, each task keeps its critical cost and both of its intervals (and the latest start that
   * setLatestIntervalFor as written would give), and the peak crew demand over the engine's task list
   * is the same. That the reordered evaluation succeeds whenever the original does is
   * `ReorderedSucceeds`.
   */
  lemma OrderIndependent(src: seq<Task>, src': seq<Task>, perm: seq<nat>,
                         ts: seq<TaskEvaluated>, us: seq<TaskEvaluated>,
                         taskMap: map<string, nat>, taskMap': map<string, nat>,
                         maxCost: int, maxCost': int, rank: seq<nat>, rank': seq<nat>)
    requires Scheduled(src, ts, taskMap, maxCost, rank) && Scheduled(src', us, taskMap', maxCost', rank')
    requires Reordered(src, src', perm)
    ensures maxCost' == maxCost
    ensures forall k :: 0 <= k < |us| ==> SameSchedule(us[k], ts[perm[k]])
    ensures forall k :: 0 <= k < |us| ==>
              us[k].SetLatestIntervalFor(maxCost').latestStart == ts[perm[k]].SetLatestIntervalFor(maxCost).latestStart
    ensures PeakDemand(SortByExecutionOrder(us)) == PeakDemand(SortByExecutionOrder(ts))
  {
    ReorderedArena(src, src', perm, ts, us, taskMap, taskMap', maxCost, maxCost', rank, rank');
    RelabelledSchedule(ts, us, perm, rank, rank', maxCost, maxCost');
    RelabelledPeak(ts, us, perm);
  }

  /** Two arenas with the same graph whose nodes agree on everything else are the same arena. */
  lemma SameArena(ts: seq<TaskEvaluated>, us: seq<TaskEvaluated>)
    requires |us| == |ts| && GraphOf(us) == GraphOf(ts) && BlockedIsReverse(ts) && BlockedIsReverse(us)
    requires forall k :: 0 <= k < |us| ==> SameSchedule(us[k], ts[k]) && us[k].name == ts[k].name
    ensures us == ts
  {
    forall k | 0 <= k < |us|
      ensures us[k] == ts[k]
    {
      assert SameSchedule(us[k], ts[k]);
      assert us[k].dependencies == GraphOf(us)[k] == ts[k].dependencies;
      forall s | s in us[k].blocked
        ensures s in ts[k].blocked
      {
        assert k in us[s].dependencies && us[s].dependencies == GraphOf(us)[s] == GraphOf(ts)[s];
      }
      forall s | s in ts[k].blocked
        ensures s in us[k].blocked
      {
        assert k in ts[s].dependencies && us[s].dependencies == GraphOf(us)[s] == GraphOf(ts)[s];
      }
    }
  }

  /**
   * Evaluating the same input twice gives the same arena, code index and total duration, whatever
   * order the backflow happened to visit the tasks in.
   */
  lemma Deterministic(src: seq<Task>, ts: seq<TaskEvaluated>, us: seq<TaskEvaluated>,
                      taskMap: map<string, nat>, taskMap': map<string, nat>,
                      maxCost: int, maxCost': int, rank: seq<nat>, rank': seq<nat>)
    requires Scheduled(src, ts, taskMap, maxCost, rank) && Scheduled(src, us, taskMap', maxCost', rank')
    ensures us == ts && taskMap' == taskMap && maxCost' == maxCost
  {
    var perm := IdentityIsPermutation(|src|);
    OrderIndependent(src, src, perm, ts, us, taskMap, taskMap', maxCost, maxCost', rank, rank');
    forall k | 0 <= k < |us|
      ensures SameSchedule(us[k], ts[k]) && us[k].name == ts[k].name
    {
      assert perm[k] == k;
      assert MadeFrom(us[k], src[k]) && MadeFrom(ts[k], src[k]);
    }
    SameArena(ts, us);
  }
}
