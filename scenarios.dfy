/**
 * Concrete evaluations: the single chain of work the engine is meant for (a foundation, the walls on
 * it and the roof on them), what a finished evaluation of it holds, and what the latest interval
 * formula of TaskEvaluated.setLatestIntervalFor gives on it.
 */
module Scenarios {
  import opened Results
  import opened Tasks
  import opened Graph
  import opened Evaluated
  import opened Schedule
  import opened Engine
  import opened CrewMembers

  /** A task for one crew member of the same team. */
  function Job(code: string, operation: string, duration: nat, dependencies: set<string>): Task {
    Task(code, operation, "", duration, Some(Crew("team", 1)), dependencies)
  }

  /** The roof (C) waits for the walls (B), which wait for the foundation (A); listed roof first. */
  function OneFlow(): seq<Task> {
    [Job("C", "build roof", 4, {"B"}), Job("B", "build walls", 3, {"A"}), Job("A", "lay foundation", 5, {})]
  }

  /** The code index of the chain. */
  lemma OneFlowIndex(taskMap: map<string, nat>)
    requires TaskMapOf(Codes(OneFlow())) == Ok(taskMap)
    ensures taskMap.Keys == {"C", "B", "A"}
    ensures taskMap["C"] == 0 && taskMap["B"] == 1 && taskMap["A"] == 2
  {
    var codes := Codes(OneFlow());
    assert codes[0] == "C" && codes[1] == "B" && codes[2] == "A";
  }

  /** The codes of the chain are distinct and every dependency names one of them. */
  lemma OneFlowCodes()
    ensures Codes(OneFlow()) == ["C", "B", "A"]
    ensures Distinct(Codes(OneFlow())) && DependenciesKnown(OneFlow())
  {
    var codes := Codes(OneFlow());
    assert codes == ["C", "B", "A"];
  }

  /** Resolved through the code index, the roof depends on the walls and the walls on the foundation. */
  lemma OneFlowGraph()
    requires Distinct(Codes(OneFlow())) && DependenciesKnown(OneFlow())
    ensures ResolvedGraph(OneFlow()) == [{1}, {2}, {}]
  {
    OneFlowCodes();
    var taskMap := TaskMapOf(["C", "B", "A"]).value;
    OneFlowIndex(taskMap);
    var g := ResolvedGraph(OneFlow());
    assert g[0] == ResolveCodes({"B"}, taskMap) == {1};
    assert g[1] == ResolveCodes({"A"}, taskMap) == {2};
    assert g[2] == ResolveCodes({}, taskMap) == {};
  }

  /** The chain is evaluated without error: it has no cycle. */
  lemma OneFlowSucceeds()
    ensures Succeeds(OneFlow())
  {
    OneFlowCodes();
    OneFlowGraph();
    ChainAcyclic(ResolvedGraph(OneFlow()));
  }

  /** A graph of one chain, ranked by distance from its end. */
  lemma ChainAcyclic(g: Deps)
    requires g == [{1}, {2}, {}]
    ensures !HasCycle(g)
  {
    var rank := [2, 1, 0];
    forall i, d | 0 <= i < 3 && d in g[i]
      ensures d < 3 && rank[d] < rank[i]
    {
      assert d == i + 1;
    }
    RankedIsAcyclic(g, rank);
  }

  /** Blocking is the reverse of depending: the foundation blocks the walls and the walls the roof. */
  lemma OneFlowLinks(ts: seq<TaskEvaluated>)
    requires |ts| == 3 && GraphOf(ts) == [{1}, {2}, {}] && BlockedIsReverse(ts)
    ensures ts[0].dependencies == {1} && ts[1].dependencies == {2} && ts[2].dependencies == {}
    ensures ts[0].blocked == {} && ts[1].blocked == {0} && ts[2].blocked == {1}
  {
    assert GraphOf(ts)[0] == {1} && GraphOf(ts)[1] == {2} && GraphOf(ts)[2] == {};
    assert 0 in ts[1].blocked && 1 in ts[2].blocked;
    forall d, t | 0 <= d < 3 && t in ts[d].blocked
      ensures (d, t) == (1, 0) || (d, t) == (2, 1)
    {
      assert t < 3 && d in ts[t].dependencies;
    }
  }

  /** The nodes of the chain cost their tasks' durations and need one crew member each. */
  lemma OneFlowCosts(ts: seq<TaskEvaluated>)
    requires |ts| == 3 && forall i :: 0 <= i < 3 ==> MadeFrom(ts[i], OneFlow()[i])
    ensures ts[0].cost == 4 && ts[1].cost == 3 && ts[2].cost == 5
    ensures AssignmentOf(ts[0]) == 1 && AssignmentOf(ts[1]) == 1 && AssignmentOf(ts[2]) == 1
  {
    assert MadeFrom(ts[0], OneFlow()[0]) && MadeFrom(ts[1], OneFlow()[1]) && MadeFrom(ts[2], OneFlow()[2]);
  }

  /** The shape of the evaluated chain: links, costs and crew. */
  ghost predicate ChainArena(ts: seq<TaskEvaluated>) {
    && |ts| == 3
    && ts[0].dependencies == {1} && ts[1].dependencies == {2} && ts[2].dependencies == {}
    && ts[0].blocked == {} && ts[1].blocked == {0} && ts[2].blocked == {1}
    && ts[0].cost == 4 && ts[1].cost == 3 && ts[2].cost == 5
    && AssignmentOf(ts[0]) == 1 && AssignmentOf(ts[1]) == 1 && AssignmentOf(ts[2]) == 1
  }

  /** Every evaluation of the chain has its shape. */
  lemma OneFlowArena(ts: seq<TaskEvaluated>, taskMap: map<string, nat>, maxCost: int, rank: seq<nat>)
    requires Scheduled(OneFlow(), ts, taskMap, maxCost, rank)
    ensures ChainArena(ts)
  {
    OneFlowCodes();
    OneFlowGraph();
    OneFlowLinks(ts);
    OneFlowCosts(ts);
  }

  /** The critical costs along the chain: 5, 8 and 12, the largest being the total duration. */
  lemma ChainCriticalCosts(ts: seq<TaskEvaluated>, maxCost: int)
    requires ChainArena(ts) && CriticalCostsHold(ts) && maxCost == MaxCriticalCost(ts)
    ensures ts[2].criticalCost == 5 && ts[1].criticalCost == 8 && ts[0].criticalCost == 12
    ensures maxCost == 12
  {
    CostWithoutDependencies(ts, 2);
    CostAfterOne(ts, 1, 2);
    CostAfterOne(ts, 0, 1);
  }

  /** A node without dependencies costs its own cost. */
  lemma CostWithoutDependencies(ts: seq<TaskEvaluated>, i: nat)
    requires CriticalCostsHold(ts) && i < |ts| && ts[i].dependencies == {}
    ensures ts[i].criticalCost == ts[i].cost
  {
    assert CriticalCostAt(ts, i);
  }

  /** A node with the single dependency `d` costs its own cost plus the critical cost of `d`. */
  lemma CostAfterOne(ts: seq<TaskEvaluated>, i: nat, d: nat)
    requires CriticalCostsHold(ts) && i < |ts| && ts[i].dependencies == {d}
    ensures d < |ts| && ts[i].criticalCost == ts[i].cost + ts[d].criticalCost
  {
    assert CriticalCostAt(ts, i);
    assert MaxOver({d}, CriticalCosts(ts)) == CriticalCosts(ts)[d];
  }

  /** The earliest intervals along the chain: [0, 5], [5, 8] and [8, 12]. */
  lemma ChainEarlyIntervals(ts: seq<TaskEvaluated>)
    requires ChainArena(ts) && EarlyIntervalsHold(ts)
    ensures ts[2].earlyStart == 0 && ts[2].earlyFinish == 5
    ensures ts[1].earlyStart == 5 && ts[1].earlyFinish == 8
    ensures ts[0].earlyStart == 8 && ts[0].earlyFinish == 12
  {
    var ef := EarlyFinishes(ts);
    assert EarlyIntervalAt(ts, 2);
    assert MaxOver({2}, ef) == ef[2];
    assert EarlyIntervalAt(ts, 1);
    assert MaxOver({1}, ef) == ef[1];
    assert EarlyIntervalAt(ts, 0);
  }

  /** The latest intervals along the chain, for a total duration of 12: [8, 12], [5, 8] and [0, 5]. */
  lemma ChainLatestIntervals(ts: seq<TaskEvaluated>)
    requires ChainArena(ts) && LatestIntervalsHold(ts, 12)
    ensures ts[0].latestStart == 8 && ts[0].latestFinish == 12
    ensures ts[1].latestStart == 5 && ts[1].latestFinish == 8
    ensures ts[2].latestStart == 0 && ts[2].latestFinish == 5
  {
    var ls := LatestStarts(ts);
    assert LatestIntervalAt(ts, 0, 12);
    assert MinOver({0}, ls) == ls[0];
    assert LatestIntervalAt(ts, 1, 12);
    assert MinOver({1}, ls) == ls[1];
    assert LatestIntervalAt(ts, 2, 12);
  }

  /** Sorted by earliest start, the chain runs foundation, walls, roof. */
  lemma ChainExecutionOrder(ts: seq<TaskEvaluated>)
    requires |ts| == 3 && ts[2].earlyStart < ts[1].earlyStart < ts[0].earlyStart
    ensures |SortByExecutionOrder(ts)| == 3
    ensures SortByExecutionOrder(ts)[0] == ts[2] && SortByExecutionOrder(ts)[1] == ts[1]
    ensures SortByExecutionOrder(ts)[2] == ts[0]
  {
    var first, firstTwo := ts[..1], ts[..2];
    SortLast(first);
    assert first[..0] == [] && first[0] == ts[0];
    assert SortByExecutionOrder(first) == [ts[0]];
    SortLast(firstTwo);
    assert firstTwo[..1] == first && firstTwo[1] == ts[1];
    InsertBefore(ts[1], [ts[0]]);
    var two := SortByExecutionOrder(firstTwo);
    assert two == [ts[1], ts[0]];
    SortLast(ts);
    assert ts[..2] == firstTwo;
    InsertBefore(ts[2], two);
  }

  /**
   * The evaluation of the chain: a total duration of 12, the foundation over [0, 5], the walls over
   * [5, 8] and the roof over [8, 12]. The corrected latest intervals equal the earliest ones (the
   * single chain is critical throughout); setLatestIntervalFor as written gives instead the roof
   * [0, 4], the walls [4, 7] and the foundation [7, 12].
   */
  lemma OneFlowSchedule(ts: seq<TaskEvaluated>, taskMap: map<string, nat>, maxCost: int, rank: seq<nat>)
    requires Scheduled(OneFlow(), ts, taskMap, maxCost, rank)
    ensures |ts| == 3 && maxCost == 12
    ensures ts[2].earlyStart == 0 && ts[2].earlyFinish == 5
    ensures ts[1].earlyStart == 5 && ts[1].earlyFinish == 8
    ensures ts[0].earlyStart == 8 && ts[0].earlyFinish == 12
    ensures forall i :: 0 <= i < 3 ==> ts[i].latestStart == ts[i].earlyStart && ts[i].latestFinish == ts[i].earlyFinish
    ensures ts[0].SetLatestIntervalFor(maxCost).latestStart == 0 && ts[0].SetLatestIntervalFor(maxCost).latestFinish == 4
    ensures ts[1].SetLatestIntervalFor(maxCost).latestStart == 4 && ts[1].SetLatestIntervalFor(maxCost).latestFinish == 7
    ensures ts[2].SetLatestIntervalFor(maxCost).latestStart == 7 && ts[2].SetLatestIntervalFor(maxCost).latestFinish == 12
  {
    OneFlowArena(ts, taskMap, maxCost, rank);
    ChainCriticalCosts(ts, maxCost);
    ChainEarlyIntervals(ts);
    ChainLatestIntervals(ts);
  }

  /** The engine's task list for the chain: foundation, walls, roof. */
  lemma OneFlowExecutionOrder(ts: seq<TaskEvaluated>, taskMap: map<string, nat>, maxCost: int, rank: seq<nat>)
    requires Scheduled(OneFlow(), ts, taskMap, maxCost, rank)
    ensures |SortByExecutionOrder(ts)| == 3
    ensures SortByExecutionOrder(ts)[0] == ts[2] && SortByExecutionOrder(ts)[1] == ts[1]
    ensures SortByExecutionOrder(ts)[2] == ts[0]
    ensures SortByExecutionOrder(ts)[0].TaskCode() == "A" && SortByExecutionOrder(ts)[1].TaskCode() == "B"
    ensures SortByExecutionOrder(ts)[2].TaskCode() == "C"
  {
    OneFlowSchedule(ts, taskMap, maxCost, rank);
    ChainExecutionOrder(ts);
    assert MadeFrom(ts[0], OneFlow()[0]) && MadeFrom(ts[1], OneFlow()[1]) && MadeFrom(ts[2], OneFlow()[2]);
  }

  /** Only the foundation waits for nothing: it is the one initial node. */
  lemma OneFlowInitialNode(ts: seq<TaskEvaluated>, taskMap: map<string, nat>, maxCost: int, rank: seq<nat>,
                           initials: set<nat>)
    requires Scheduled(OneFlow(), ts, taskMap, maxCost, rank) && InitialNodes(ts, initials)
    ensures initials == {2}
  {
    OneFlowArena(ts, taskMap, maxCost, rank);
    ChainInitialNode(ts, initials);
  }

  /** In the chain's shape, the foundation is the one node without dependencies. */
  lemma ChainInitialNode(ts: seq<TaskEvaluated>, initials: set<nat>)
    requires ChainArena(ts) && InitialNodes(ts, initials)
    ensures initials == {2}
  {
    assert 2 in initials && 0 !in initials && 1 !in initials;
  }

  /** At most one task of the chain runs at any instant, and the foundation runs at 0. */
  lemma ChainDemand(ts: seq<TaskEvaluated>)
    requires ChainArena(ts)
    requires ts[2].earlyStart == 0 && ts[2].earlyFinish == 5 && ts[1].earlyStart == 5 && ts[1].earlyFinish == 8
    requires ts[0].earlyStart == 8 && ts[0].earlyFinish == 12
    ensures forall t :: DemandAt(ts, t) <= 1
    ensures DemandAt(ts, 0) == 1
  {
    assert ts[..2][..1] == [ts[0]] && ts[..2][..1][..0] == [];
    forall t
      ensures DemandAt(ts, t) == Activity(t)(ts[0]) + Activity(t)(ts[1]) + Activity(t)(ts[2])
    {
      var f := Activity(t);
      assert SumOf(ts[..2][..1], f) == f(ts[0]);
      assert SumOf(ts[..2], f) == f(ts[0]) + f(ts[1]);
    }
  }

  /** One crew member works at any instant of the chain, so the peak demand is 1. */
  lemma OneFlowPeak(ts: seq<TaskEvaluated>, taskMap: map<string, nat>, maxCost: int, rank: seq<nat>)
    requires Scheduled(OneFlow(), ts, taskMap, maxCost, rank)
    ensures PeakDemand(ts) == 1
  {
    OneFlowSchedule(ts, taskMap, maxCost, rank);
    OneFlowArena(ts, taskMap, maxCost, rank);
    ChainDemand(ts);
    PeakIsLargestDemand(ts);
    assert Busy(ts, 0) by {
      assert TaskRange(ts[2]).Contains(0);
    }
  }

  /**
   * Evaluating the chain through the engine: a total duration of 12, the task list A[0-5], B[5-8],
   * C[8-12], and a peak of one crew member.
   */
  method OneFlowEvaluation() returns (total: int, tasks: seq<TaskEvaluated>, peak: Option<int>)
    ensures total == 12 && |tasks| == 3
    ensures tasks[0].TaskCode() == "A" && tasks[1].TaskCode() == "B" && tasks[2].TaskCode() == "C"
    ensures tasks[0].earlyStart == 0 && tasks[0].earlyFinish == 5
    ensures tasks[1].earlyStart == 5 && tasks[1].earlyFinish == 8
    ensures tasks[2].earlyStart == 8 && tasks[2].earlyFinish == 12
    ensures peak == Some(1)
  {
    OneFlowSucceeds();
    var created := CriticalPathEngine.Create(OneFlow());
    var engine := created.value;
    total := engine.GetTotalDuration();
    tasks := engine.GetTasks();
    OneFlowTaskList(engine.nodes[..], engine.taskMap, engine.maxCost, engine.rank, tasks);
    peak := GetMaxCrewMembers(tasks);
  }

  /** The chain's task list in execution order, with its intervals and peak demand. */
  lemma OneFlowTaskList(ts: seq<TaskEvaluated>, taskMap: map<string, nat>, maxCost: int, rank: seq<nat>,
                        tasks: seq<TaskEvaluated>)
    requires Scheduled(OneFlow(), ts, taskMap, maxCost, rank) && tasks == SortByExecutionOrder(ts)
    ensures maxCost == 12 && |tasks| == 3
    ensures tasks[0].TaskCode() == "A" && tasks[1].TaskCode() == "B" && tasks[2].TaskCode() == "C"
    ensures tasks[0].earlyStart == 0 && tasks[0].earlyFinish == 5
    ensures tasks[1].earlyStart == 5 && tasks[1].earlyFinish == 8
    ensures tasks[2].earlyStart == 8 && tasks[2].earlyFinish == 12
    ensures PeakDemand(tasks) == 1
    ensures forall i :: 0 <= i < |tasks| ==> tasks[i].earlyStart <= tasks[i].earlyFinish
  {
    OneFlowSchedule(ts, taskMap, maxCost, rank);
    OneFlowExecutionOrder(ts, taskMap, maxCost, rank);
    OneFlowPeak(ts, taskMap, maxCost, rank);
    SortByExecutionOrderCorrect(ts);
    PeakPermutationInvariant(tasks, ts);
    assert |tasks| == 3 && tasks[0] == ts[2] && tasks[1] == ts[1] && tasks[2] == ts[0];
    forall i | 0 <= i < |tasks|
      ensures tasks[i].earlyStart <= tasks[i].earlyFinish
    {
      assert i == 0 || i == 1 || i == 2;
    }
  }

  /**
   * As written, TaskEvaluated.setLatestIntervalFor subtracts the critical cost, the longest chain
   * ending with the task, from the total duration. On the chain this sets the roof's latest start to
   * 0, before the walls it waits for finish at 8 and before its own earliest start.
   */
  lemma AsWrittenLatestStartPrecedesEarliestStart(ts: seq<TaskEvaluated>, taskMap: map<string, nat>, maxCost: int,
                                                  rank: seq<nat>)
    requires Scheduled(OneFlow(), ts, taskMap, maxCost, rank)
    ensures ts[0].SetLatestIntervalFor(maxCost).latestStart == 0
    ensures ts[0].earlyStart == 8 && ts[1].earlyFinish == 8
  {
    OneFlowArena(ts, taskMap, maxCost, rank);
    ChainCriticalCosts(ts, maxCost);
    ChainEarlyIntervals(ts);
  }

  // ---------------------------------------------------------------------------------------------
  // Two independent chains: roof on walls on foundation, and coffee after lunch.

  /** Roof (C) on walls (B) on foundation (A), and coffee (D) after lunch (E), in that input order. */
  function TwoFlows(): seq<Task> {
    [ Job("C", "build roof", 4, {"B"}), Job("B", "build walls", 20, {"A"}), Job("A", "lay foundation", 5, {})
    , Job("D", "drink coffee", 2, {"E"}), Job("E", "eat lunch", 3, {}) ]
  }

  /** The code index of the two chains. */
  lemma TwoFlowsIndex(codes: seq<string>, taskMap: map<string, nat>)
    requires codes == ["C", "B", "A", "D", "E"] && TaskMapOf(codes) == Ok(taskMap)
    ensures taskMap.Keys == {"C", "B", "A", "D", "E"}
    ensures taskMap["C"] == 0 && taskMap["B"] == 1 && taskMap["A"] == 2 && taskMap["D"] == 3 && taskMap["E"] == 4
  {
    assert codes[0] == "C" && codes[1] == "B" && codes[2] == "A" && codes[3] == "D" && codes[4] == "E";
  }

  /** The codes of the two chains are distinct and every dependency names one of them. */
  lemma TwoFlowsCodes()
    ensures Codes(TwoFlows()) == ["C", "B", "A", "D", "E"]
    ensures Distinct(Codes(TwoFlows())) && DependenciesKnown(TwoFlows())
  {
    var codes := Codes(TwoFlows());
    assert codes == ["C", "B", "A", "D", "E"];
  }

  /** Resolved through the code index: C on B, B on A, D on E. */
  lemma TwoFlowsGraph()
    requires Distinct(Codes(TwoFlows())) && DependenciesKnown(TwoFlows())
    ensures ResolvedGraph(TwoFlows()) == [{1}, {2}, {}, {4}, {}]
  {
    TwoFlowsCodes();
    var codes := Codes(TwoFlows());
    var taskMap := TaskMapOf(codes).value;
    TwoFlowsIndex(codes, taskMap);
    TwoFlowsResolved(TwoFlows(), taskMap);
  }

  /** Resolving the dependency codes of the two chains through their index. */
  lemma TwoFlowsResolved(src: seq<Task>, taskMap: map<string, nat>)
    requires |src| == 5 && Distinct(Codes(src)) && DependenciesKnown(src)
    requires TaskMapOf(Codes(src)) == Ok(taskMap)
    requires src[0].dependencies == {"B"} && src[1].dependencies == {"A"} && src[2].dependencies == {}
    requires src[3].dependencies == {"E"} && src[4].dependencies == {}
    requires taskMap.Keys == {"C", "B", "A", "D", "E"}
    requires taskMap["C"] == 0 && taskMap["B"] == 1 && taskMap["A"] == 2 && taskMap["D"] == 3 && taskMap["E"] == 4
    ensures ResolvedGraph(src) == [{1}, {2}, {}, {4}, {}]
  {
    var g := ResolvedGraph(src);
    ResolveOne("B", taskMap);
    ResolveOne("A", taskMap);
    ResolveOne("E", taskMap);
    assert g[0] == {1} && g[1] == {2} && g[3] == {4};
    assert g[2] == ResolveCodes({}, taskMap) == {};
    assert g[4] == ResolveCodes({}, taskMap) == {};
    assert g == [g[0], g[1], g[2], g[3], g[4]];
  }

  /** A single known code resolves to its index. */
  lemma ResolveOne(code: string, taskMap: map<string, nat>)
    requires code in taskMap
    ensures ResolveCodes({code}, taskMap) == {taskMap[code]}
  {
  }

  /** The two chains are evaluated without error: they have no cycle. */
  lemma TwoFlowsSucceeds()
    ensures Succeeds(TwoFlows())
  {
    TwoFlowsCodes();
    TwoFlowsGraph();
    TwoChainsAcyclic(ResolvedGraph(TwoFlows()));
  }

  /** A graph of two chains, ranked by distance from their ends. */
  lemma TwoChainsAcyclic(g: Deps)
    requires g == [{1}, {2}, {}, {4}, {}]
    ensures !HasCycle(g)
  {
    var rank := [2, 1, 0, 1, 0];
    forall i, d | 0 <= i < 5 && d in g[i]
      ensures d < 5 && rank[d] < rank[i]
    {
      assert d == i + 1;
    }
    RankedIsAcyclic(g, rank);
  }

  /** Blocking is the reverse of depending: A blocks B, B blocks C and E blocks D. */
  lemma TwoFlowsLinks(ts: seq<TaskEvaluated>)
    requires |ts| == 5 && GraphOf(ts) == [{1}, {2}, {}, {4}, {}] && BlockedIsReverse(ts)
    ensures ts[0].dependencies == {1} && ts[1].dependencies == {2} && ts[2].dependencies == {}
    ensures ts[3].dependencies == {4} && ts[4].dependencies == {}
    ensures ts[0].blocked == {} && ts[1].blocked == {0} && ts[2].blocked == {1}
    ensures ts[3].blocked == {} && ts[4].blocked == {3}
  {
    assert GraphOf(ts)[0] == {1} && GraphOf(ts)[1] == {2} && GraphOf(ts)[2] == {};
    assert GraphOf(ts)[3] == {4} && GraphOf(ts)[4] == {};
    assert 0 in ts[1].blocked && 1 in ts[2].blocked && 3 in ts[4].blocked;
    forall d, t | 0 <= d < 5 && t in ts[d].blocked
      ensures (d, t) == (1, 0) || (d, t) == (2, 1) || (d, t) == (4, 3)
    {
      assert t < 5 && d in ts[t].dependencies;
    }
  }

  /** The nodes of the two chains cost their tasks' durations and need one crew member each. */
  lemma TwoFlowsCosts(ts: seq<TaskEvaluated>)
    requires |ts| == 5 && forall i :: 0 <= i < 5 ==> MadeFrom(ts[i], TwoFlows()[i])
    ensures ts[0].cost == 4 && ts[1].cost == 20 && ts[2].cost == 5 && ts[3].cost == 2 && ts[4].cost == 3
    ensures forall i :: 0 <= i < 5 ==> AssignmentOf(ts[i]) == 1
  {
    assert MadeFrom(ts[0], TwoFlows()[0]) && MadeFrom(ts[1], TwoFlows()[1]) && MadeFrom(ts[2], TwoFlows()[2]);
    assert MadeFrom(ts[3], TwoFlows()[3]) && MadeFrom(ts[4], TwoFlows()[4]);
  }

  /** The shape of the two evaluated chains: links, costs and crew. */
  ghost predicate TwoChainArena(ts: seq<TaskEvaluated>) {
    && |ts| == 5
    && ts[0].dependencies == {1} && ts[1].dependencies == {2} && ts[2].dependencies == {}
    && ts[3].dependencies == {4} && ts[4].dependencies == {}
    && ts[0].blocked == {} && ts[1].blocked == {0} && ts[2].blocked == {1}
    && ts[3].blocked == {} && ts[4].blocked == {3}
    && ts[0].cost == 4 && ts[1].cost == 20 && ts[2].cost == 5 && ts[3].cost == 2 && ts[4].cost == 3
    && forall i :: 0 <= i < 5 ==> AssignmentOf(ts[i]) == 1
  }

  /** Every evaluation of the two chains has their shape. */
  lemma TwoFlowsArena(ts: seq<TaskEvaluated>, taskMap: map<string, nat>, maxCost: int, rank: seq<nat>)
    requires Scheduled(TwoFlows(), ts, taskMap, maxCost, rank)
    ensures TwoChainArena(ts)
  {
    TwoFlowsCodes();
    TwoFlowsGraph();
    TwoFlowsLinks(ts);
    TwoFlowsCosts(ts);
  }

  /** The critical costs: 29, 25 and 5 along the long chain, 5 and 3 along the short one; 29 in total. */
  lemma TwoChainCriticalCosts(ts: seq<TaskEvaluated>, maxCost: int)
    requires TwoChainArena(ts) && CriticalCostsHold(ts) && maxCost == MaxCriticalCost(ts)
    ensures ts[0].criticalCost == 29 && ts[1].criticalCost == 25 && ts[2].criticalCost == 5
    ensures ts[3].criticalCost == 5 && ts[4].criticalCost == 3
    ensures maxCost == 29
  {
    CostWithoutDependencies(ts, 2);
    CostWithoutDependencies(ts, 4);
    CostAfterOne(ts, 1, 2);
    CostAfterOne(ts, 3, 4);
    CostAfterOne(ts, 0, 1);
    MaxOfTwoChains(ts, maxCost);
  }

  /** The largest of the critical costs 29, 25, 5, 5 and 3. */
  lemma MaxOfTwoChains(ts: seq<TaskEvaluated>, maxCost: int)
    requires |ts| == 5 && maxCost == MaxCriticalCost(ts)
    requires ts[0].criticalCost == 29 && ts[1].criticalCost == 25 && ts[2].criticalCost == 5
    requires ts[3].criticalCost == 5 && ts[4].criticalCost == 3
    ensures maxCost == 29
  {
    var top :| 0 <= top < |ts| && maxCost == ts[top].criticalCost;
    assert ts[0].criticalCost <= maxCost;
  }

  /** The earliest intervals: A[0-5], B[5-25], C[25-29], E[0-3], D[3-5]. */
  lemma TwoChainEarlyIntervals(ts: seq<TaskEvaluated>)
    requires TwoChainArena(ts) && EarlyIntervalsHold(ts)
    ensures ts[2].earlyStart == 0 && ts[2].earlyFinish == 5
    ensures ts[1].earlyStart == 5 && ts[1].earlyFinish == 25
    ensures ts[0].earlyStart == 25 && ts[0].earlyFinish == 29
    ensures ts[4].earlyStart == 0 && ts[4].earlyFinish == 3
    ensures ts[3].earlyStart == 3 && ts[3].earlyFinish == 5
  {
    var ef := EarlyFinishes(ts);
    assert EarlyIntervalAt(ts, 2) && EarlyIntervalAt(ts, 4);
    assert MaxOver({2}, ef) == ef[2] && MaxOver({4}, ef) == ef[4];
    assert EarlyIntervalAt(ts, 1) && EarlyIntervalAt(ts, 3);
    assert MaxOver({1}, ef) == ef[1];
    assert EarlyIntervalAt(ts, 0);
  }

  /**
   * The latest intervals for a total duration of 29: the long chain has no slack, while lunch and
   * coffee may slip to [24, 27] and [27, 29].
   */
  lemma TwoChainLatestIntervals(ts: seq<TaskEvaluated>)
    requires TwoChainArena(ts) && LatestIntervalsHold(ts, 29)
    ensures ts[0].latestStart == 25 && ts[1].latestStart == 5 && ts[2].latestStart == 0
    ensures ts[3].latestStart == 27 && ts[3].latestFinish == 29
    ensures ts[4].latestStart == 24 && ts[4].latestFinish == 27
  {
    var ls := LatestStarts(ts);
    assert LatestIntervalAt(ts, 0, 29) && LatestIntervalAt(ts, 3, 29);
    assert MinOver({0}, ls) == ls[0] && MinOver({3}, ls) == ls[3];
    assert LatestIntervalAt(ts, 1, 29) && LatestIntervalAt(ts, 4, 29);
    assert MinOver({1}, ls) == ls[1];
    assert LatestIntervalAt(ts, 2, 29);
  }

  /**
   * The evaluation of the two chains: a total duration of 29 with A[0-5], B[5-25], C[25-29], E[0-3]
   * and D[3-5]. With the corrected latest intervals only the short chain has slack (24 each).
   * setLatestIntervalFor as written gives the slack C -25, B -1, A 24, D 21 and E 26.
   */
  lemma TwoFlowsSchedule(ts: seq<TaskEvaluated>, taskMap: map<string, nat>, maxCost: int, rank: seq<nat>)
    requires Scheduled(TwoFlows(), ts, taskMap, maxCost, rank)
    ensures |ts| == 5 && maxCost == 29
    ensures ts[2].earlyStart == 0 && ts[2].earlyFinish == 5
    ensures ts[1].earlyStart == 5 && ts[1].earlyFinish == 25
    ensures ts[0].earlyStart == 25 && ts[0].earlyFinish == 29
    ensures ts[4].earlyStart == 0 && ts[4].earlyFinish == 3
    ensures ts[3].earlyStart == 3 && ts[3].earlyFinish == 5
    ensures forall i :: 0 <= i < 3 ==> ts[i].latestStart == ts[i].earlyStart
    ensures ts[3].latestStart - ts[3].earlyStart == 24 && ts[4].latestStart - ts[4].earlyStart == 24
    ensures ts[0].SetLatestIntervalFor(maxCost).latestStart - ts[0].earlyStart == -25
    ensures ts[1].SetLatestIntervalFor(maxCost).latestStart - ts[1].earlyStart == -1
    ensures ts[2].SetLatestIntervalFor(maxCost).latestStart - ts[2].earlyStart == 24
    ensures ts[3].SetLatestIntervalFor(maxCost).latestStart - ts[3].earlyStart == 21
    ensures ts[4].SetLatestIntervalFor(maxCost).latestStart - ts[4].earlyStart == 26
  {
    TwoFlowsArena(ts, taskMap, maxCost, rank);
    TwoChainCriticalCosts(ts, maxCost);
    TwoChainEarlyIntervals(ts);
    TwoChainLatestIntervals(ts);
  }

  /**
   * Sorted by earliest start the two chains interleave as A, E, D, B, C: A and E both start at 0 and
   * keep their input order.
   */
  lemma TwoChainExecutionOrder(ts: seq<TaskEvaluated>)
    requires |ts| == 5
    requires ts[2].earlyStart == 0 && ts[4].earlyStart == 0 && ts[3].earlyStart == 3
    requires ts[1].earlyStart == 5 && ts[0].earlyStart == 25
    ensures |SortByExecutionOrder(ts)| == 5
    ensures SortByExecutionOrder(ts)[0] == ts[2] && SortByExecutionOrder(ts)[1] == ts[4]
    ensures SortByExecutionOrder(ts)[2] == ts[3] && SortByExecutionOrder(ts)[3] == ts[1]
    ensures SortByExecutionOrder(ts)[4] == ts[0]
  {
    var four := SortByExecutionOrder(ts[..4]);
    FourTaskExecutionOrder(ts[..4]);
    SortLast(ts);
    InsertAfter(ts[4], four);
    InsertBefore(ts[4], four[1..]);
  }

  /** The first four tasks of the two chains sort as A, D, B, C. */
  lemma FourTaskExecutionOrder(ts: seq<TaskEvaluated>)
    requires |ts| == 4
    requires ts[2].earlyStart == 0 && ts[3].earlyStart == 3 && ts[1].earlyStart == 5 && ts[0].earlyStart == 25
    ensures |SortByExecutionOrder(ts)| == 4
    ensures SortByExecutionOrder(ts)[0] == ts[2] && SortByExecutionOrder(ts)[1] == ts[3]
    ensures SortByExecutionOrder(ts)[2] == ts[1] && SortByExecutionOrder(ts)[3] == ts[0]
  {
    var three := SortByExecutionOrder(ts[..3]);
    ChainExecutionOrder(ts[..3]);
    SortLast(ts);
    InsertAfter(ts[3], three);
    InsertBefore(ts[3], three[1..]);
  }

  /** Sorting a list inserts its last task into the sorted rest. */
  lemma SortLast(ts: seq<TaskEvaluated>)
    requires ts != []
    ensures SortByExecutionOrder(ts) == InsertByStart(ts[|ts| - 1], SortByExecutionOrder(ts[..|ts| - 1]))
  {
  }

  /** A task starting before the first of `s` goes in front of it. */
  lemma InsertBefore(t: TaskEvaluated, s: seq<TaskEvaluated>)
    requires s != [] && t.earlyStart < s[0].earlyStart
    ensures InsertByStart(t, s) == [t] + s
  {
  }

  /** A task starting no earlier than the first of `s` goes after it. */
  lemma InsertAfter(t: TaskEvaluated, s: seq<TaskEvaluated>)
    requires s != [] && s[0].earlyStart <= t.earlyStart
    ensures InsertByStart(t, s) == [s[0]] + InsertByStart(t, s[1..])
  {
  }

  /** The engine's task list for the two chains: A, E, D, B, C. */
  lemma TwoFlowsExecutionOrder(ts: seq<TaskEvaluated>, taskMap: map<string, nat>, maxCost: int, rank: seq<nat>)
    requires Scheduled(TwoFlows(), ts, taskMap, maxCost, rank)
    ensures |SortByExecutionOrder(ts)| == 5
    ensures SortByExecutionOrder(ts)[0] == ts[2] && SortByExecutionOrder(ts)[1] == ts[4]
    ensures SortByExecutionOrder(ts)[2] == ts[3] && SortByExecutionOrder(ts)[3] == ts[1]
    ensures SortByExecutionOrder(ts)[4] == ts[0]
    ensures ts[2].TaskCode() == "A" && ts[4].TaskCode() == "E" && ts[3].TaskCode() == "D"
    ensures ts[1].TaskCode() == "B" && ts[0].TaskCode() == "C"
  {
    TwoFlowsSchedule(ts, taskMap, maxCost, rank);
    TwoChainExecutionOrder(ts);
    assert MadeFrom(ts[0], TwoFlows()[0]) && MadeFrom(ts[1], TwoFlows()[1]) && MadeFrom(ts[2], TwoFlows()[2]);
    assert MadeFrom(ts[3], TwoFlows()[3]) && MadeFrom(ts[4], TwoFlows()[4]);
  }

  /** The demand at each instant is the number of the five tasks running then. */
  lemma FiveTaskDemand(ts: seq<TaskEvaluated>, t: int)
    requires |ts| == 5
    ensures DemandAt(ts, t)
      == Activity(t)(ts[0]) + Activity(t)(ts[1]) + Activity(t)(ts[2]) + Activity(t)(ts[3]) + Activity(t)(ts[4])
  {
    var f := Activity(t);
    var p1, p2, p3, p4 := ts[..1], ts[..2], ts[..3], ts[..4];
    assert p1[..0] == [] && p2[..1] == p1 && p3[..2] == p2 && p4[..3] == p3 && ts[..4] == p4;
    assert SumOf(p1, f) == f(ts[0]);
    assert SumOf(p2, f) == f(ts[0]) + f(ts[1]);
    assert SumOf(p3, f) == f(ts[0]) + f(ts[1]) + f(ts[2]);
    assert SumOf(p4, f) == f(ts[0]) + f(ts[1]) + f(ts[2]) + f(ts[3]);
  }

  /** The short chain runs while the foundation is laid: two crew members at most, two at instant 0. */
  lemma TwoChainDemand(ts: seq<TaskEvaluated>)
    requires TwoChainArena(ts)
    requires ts[2].earlyStart == 0 && ts[2].earlyFinish == 5 && ts[1].earlyStart == 5 && ts[1].earlyFinish == 25
    requires ts[0].earlyStart == 25 && ts[0].earlyFinish == 29
    requires ts[4].earlyStart == 0 && ts[4].earlyFinish == 3 && ts[3].earlyStart == 3 && ts[3].earlyFinish == 5
    ensures forall t :: DemandAt(ts, t) <= 2
    ensures DemandAt(ts, 0) == 2
  {
    forall t
      ensures DemandAt(ts, t) <= 2
    {
      FiveTaskDemand(ts, t);
    }
    FiveTaskDemand(ts, 0);
  }

  /** The two chains need two crew members at their peak. */
  lemma TwoFlowsPeak(ts: seq<TaskEvaluated>, taskMap: map<string, nat>, maxCost: int, rank: seq<nat>)
    requires Scheduled(TwoFlows(), ts, taskMap, maxCost, rank)
    ensures PeakDemand(ts) == 2
  {
    TwoFlowsSchedule(ts, taskMap, maxCost, rank);
    TwoFlowsArena(ts, taskMap, maxCost, rank);
    TwoChainDemand(ts);
    PeakIsLargestDemand(ts);
    assert Busy(ts, 0) by {
      assert TaskRange(ts[2]).Contains(0);
    }
  }

  /**
   * Evaluating the two chains through the engine: a total duration of 29, the task list A[0-5],
   * E[0-3], D[3-5], B[5-25], C[25-29], and a peak of two crew members.
   */
  method TwoFlowsEvaluation() returns (total: int, tasks: seq<TaskEvaluated>, peak: Option<int>)
    ensures total == 29 && |tasks| == 5
    ensures tasks[0].TaskCode() == "A" && tasks[1].TaskCode() == "E" && tasks[2].TaskCode() == "D"
    ensures tasks[3].TaskCode() == "B" && tasks[4].TaskCode() == "C"
    ensures tasks[0].earlyStart == 0 && tasks[0].earlyFinish == 5
    ensures tasks[1].earlyStart == 0 && tasks[1].earlyFinish == 3
    ensures tasks[2].earlyStart == 3 && tasks[2].earlyFinish == 5
    ensures tasks[3].earlyStart == 5 && tasks[3].earlyFinish == 25
    ensures tasks[4].earlyStart == 25 && tasks[4].earlyFinish == 29
    ensures peak == Some(2)
  {
    TwoFlowsSucceeds();
    var created := CriticalPathEngine.Create(TwoFlows());
    var engine := created.value;
    total := engine.GetTotalDuration();
    tasks := engine.GetTasks();
    TwoFlowsTaskList(engine.nodes[..], engine.taskMap, engine.maxCost, engine.rank, tasks);
    peak := GetMaxCrewMembers(tasks);
  }

  /** The two chains' task list in execution order, with its intervals and peak demand. */
  lemma TwoFlowsTaskList(ts: seq<TaskEvaluated>, taskMap: map<string, nat>, maxCost: int, rank: seq<nat>,
                         tasks: seq<TaskEvaluated>)
    requires Scheduled(TwoFlows(), ts, taskMap, maxCost, rank) && tasks == SortByExecutionOrder(ts)
    ensures maxCost == 29 && |tasks| == 5
    ensures tasks[0].TaskCode() == "A" && tasks[1].TaskCode() == "E" && tasks[2].TaskCode() == "D"
    ensures tasks[3].TaskCode() == "B" && tasks[4].TaskCode() == "C"
    ensures tasks[0].earlyStart == 0 && tasks[0].earlyFinish == 5
    ensures tasks[1].earlyStart == 0 && tasks[1].earlyFinish == 3
    ensures tasks[2].earlyStart == 3 && tasks[2].earlyFinish == 5
    ensures tasks[3].earlyStart == 5 && tasks[3].earlyFinish == 25
    ensures tasks[4].earlyStart == 25 && tasks[4].earlyFinish == 29
    ensures PeakDemand(tasks) == 2
    ensures forall i :: 0 <= i < |tasks| ==> tasks[i].earlyStart <= tasks[i].earlyFinish
  {
    TwoFlowsSchedule(ts, taskMap, maxCost, rank);
    TwoFlowsExecutionOrder(ts, taskMap, maxCost, rank);
    TwoFlowsPeak(ts, taskMap, maxCost, rank);
    SortByExecutionOrderCorrect(ts);
    PeakPermutationInvariant(tasks, ts);
    forall i | 0 <= i < |tasks|
      ensures tasks[i].earlyStart <= tasks[i].earlyFinish
    {
      assert i == 0 || i == 1 || i == 2 || i == 3 || i == 4;
    }
  }

  // ---------------------------------------------------------------------------------------------
  // Two tasks waiting for each other.

  /** X waits for Y and Y waits for X. */
  function MutualWait(): seq<Task> {
    [Job("X", "first", 1, {"Y"}), Job("Y", "second", 1, {"X"})]
  }

  /** Waiting for each other is a cycle: the evaluation stops with a cyclic dependency. */
  lemma MutualWaitFails()
    ensures !Succeeds(MutualWait()) && FailsWith(MutualWait(), CyclicDependency)
  {
    var src := MutualWait();
    var codes := Codes(src);
    assert codes == ["X", "Y"];
    assert Distinct(codes) && DependenciesKnown(src);
    var taskMap := TaskMapOf(codes).value;
    assert taskMap["X"] == 0 && taskMap["Y"] == 1;
    var g := ResolvedGraph(src);
    assert g[0] == ResolveCodes({"Y"}, taskMap) == {1};
    assert g[1] == ResolveCodes({"X"}, taskMap) == {0};
    assert IsChain(g, [0, 1, 0]);
    assert Reaches(g, 0, 0);
  }
}
