# Critical path planner — a verified model

This project models the scheduling core of the construction planner in Dafny. The core has three parts:

- **`CriticalPathEngine`** turns a list of tasks into evaluated nodes. It indexes them by task code and links each node to its dependencies and back. It then runs the backflow algorithm to compute every node's critical cost and stops on a cycle. From the critical costs it derives the total duration and the latest and earliest intervals. Last, it orders the nodes by earliest start.
- **`TaskEvaluated`** is the per-task node: cost, critical cost, both intervals and the links. It also provides the recursive `isDependent` and the ordering `compareTo`.
- **`CrewMemberService.getMaxCrewMembers`** cuts time at the tasks' earliest starts and finishes into elementary ranges and adds each task's crew assignment to the ranges it encloses. The peak crew demand is the largest total.

How the model is built:

- The nodes live in an arena, `nodes: array<TaskEvaluated>`, and link to each other by index.
  - `dependencies` holds the tasks a node waits for.
  - `blocked` holds the tasks waiting for it. `CriticalPathEngine.java` uses this successor set (lines 84, 143, 161), but `TaskEvaluated.java` does not declare it; the model adds it.
- `CriticalPathEngine` is a class whose methods update the arena in place, with loops as in the source.
- Hash-set iteration is a nondeterministic choice (`:|`). Every result is proved for every iteration order.
- The exceptions the engine throws become an `Outcome`/`Result` error value:
  - a duplicate task code;
  - a dependency code that names no task;
  - a cyclic dependency.

Files:

| file | module | contents |
|---|---|---|
| `results.dfy` | `Results` | `Option` and `Result` |
| `tasks.dfy` | `Tasks` | the input `Task` and its `Crew` |
| `graph.dfy` | `Graph` | dependency graphs over indices: chains, reachability, cycles, ranks, largest and smallest value over a set |
| `evaluated.dfy` | `Evaluated` | the `TaskEvaluated` node, `isDependent`, `compareTo` |
| `schedule.dfy` | `Schedule` | the code index, the equations a finished evaluation satisfies, the total duration, the execution order, and what they mean |
| `engine.dfy` | `Engine` | the `CriticalPathEngine` class and the invariants of its passes |
| `crew.dfy` | `CrewMembers` | breakpoints, elementary ranges, loads and the peak crew demand |
| `invariance.dfy` | `Invariance` | what a finished evaluation does not depend on: the order of the input and any earlier evaluation |
| `scenarios.dfy` | `Scenarios` | the two engine test inputs and a cyclic one, evaluated end to end |

## Model

Source paths are relative to the repository root. `E` below stands for `src/main/java/com/alicetechnologies/planner/CriticalPathEngine.java`.

| member | source | states |
|---|---|---|
| Evaluated.FromTask | src/main/java/com/alicetechnologies/planner/task/dto/TaskEvaluated.java:25-29 | A new node has its task's duration as cost and is named "operation:element". It starts with zero schedule fields and no links. |
| Evaluated.TaskEvaluated.SetLatestIntervalFor | src/main/java/com/alicetechnologies/planner/task/dto/TaskEvaluated.java:35-38 | As written: latestStart = maxCost − criticalCost and latestFinish = latestStart + cost. No other field changes. See Findings. |
| Evaluated.IsDependentIffReaches | src/main/java/com/alicetechnologies/planner/task/dto/TaskEvaluated.java:42-55 | On an acyclic graph, `Evaluated.IsDependent` (`isDependent(other)`) holds exactly when `other` can be reached through one or more dependency edges. Both directions are proved. |
| Evaluated.NoMutualDependence | src/main/java/com/alicetechnologies/planner/task/dto/TaskEvaluated.java:42-55 | In an acyclic graph, two nodes never each depend on the other. |
| Evaluated.DependentHasLargerCriticalCost | src/main/java/com/alicetechnologies/planner/task/dto/TaskEvaluated.java:64-66 | If a depends on b, then criticalCost(a) ≥ criticalCost(b) + cost(a), given non-negative costs. This is the comment's claim. |
| Evaluated.CompareTo | src/main/java/com/alicetechnologies/planner/task/dto/TaskEvaluated.java:58-76 | If the critical costs differ, the result is non-zero and is negative exactly when this node's critical cost is smaller. If they are equal, the result is in −1..1 and is negative exactly when this node depends on the other. |
| Evaluated.CompareToAntisymmetric | src/main/java/com/alicetechnologies/planner/task/dto/TaskEvaluated.java:58-76 | On an acyclic graph, swapping the operands flips the sign, and zero stays zero. |
| Schedule.TaskMapOf | src/main/java/com/alicetechnologies/planner/CriticalPathEngine.java:52-53 | The code index succeeds exactly when the codes are distinct. It then maps each code to its list position. Otherwise it fails with a code that occurs twice. |
| Schedule.MaxCriticalCost | src/main/java/com/alicetechnologies/planner/CriticalPathEngine.java:177-181 | The result bounds every critical cost and is one of them. It is 0 for an empty list. |
| Schedule.SortByExecutionOrderCorrect | src/main/java/com/alicetechnologies/planner/CriticalPathEngine.java:183-187 | `Schedule.SortByExecutionOrder` is sorted by earliest start and is a permutation of the input. It is stable: for every start time, the tasks that start then keep their input order. |
| Schedule.CriticalCostAtLeastCost | src/main/java/com/alicetechnologies/planner/CriticalPathEngine.java:107-112 | Given the critical-cost equations and non-negative costs, every critical cost is at least the node's own cost. |
| Schedule.ChainCostAtMostCriticalCost | src/main/java/com/alicetechnologies/planner/CriticalPathEngine.java:107-112 | No chain of dependencies starting at a node costs more than the node's critical cost. |
| Schedule.CriticalChainExists | src/main/java/com/alicetechnologies/planner/CriticalPathEngine.java:107-112 | Every critical cost is the cost of some chain from the node back to a node without dependencies. |
| Schedule.CriticalCostsUnique | src/main/java/com/alicetechnologies/planner/CriticalPathEngine.java:100-124 | On an acyclic graph, the critical-cost equations have one solution. So the order in which the backflow meets the nodes cannot change the result. |
| Schedule.TotalDurationIsLongestChain | src/main/java/com/alicetechnologies/planner/CriticalPathEngine.java:62-69 | The total duration is the cost of the longest chain of dependent tasks. No chain costs more, and a non-empty project has a chain that costs exactly that. |
| Schedule.EarlyFinishIsCriticalCost | src/main/java/com/alicetechnologies/planner/CriticalPathEngine.java:151-168 | Under the earliest-interval equations, every earliest finish equals the critical cost. |
| Schedule.EarlyStartAfterDependencies | src/main/java/com/alicetechnologies/planner/CriticalPathEngine.java:151-168 | earlyFinish = earlyStart + cost. A node without dependencies starts at 0. No node starts before any of its dependencies finishes. |
| Schedule.LatestFinishBounds | src/main/java/com/alicetechnologies/planner/CriticalPathEngine.java:170-175 | With corrected latest intervals, a node's latest finish lies between its critical cost and the total duration. |
| Schedule.LatestIntervalsLeaveNonNegativeSlack | src/main/java/com/alicetechnologies/planner/CriticalPathEngine.java:170-175 | With corrected latest intervals, slack (latestStart − earlyStart) is never negative and nothing must finish after the total duration. A node whose critical cost is the total duration has no slack. |
| Engine.CriticalPathEngine.constructor | src/main/java/com/alicetechnologies/planner/CriticalPathEngine.java:27-37 | A new engine has no tasks and an empty index, and its total duration is Integer.MIN_VALUE. |
| Engine.CriticalPathEngine.Create | src/main/java/com/alicetechnologies/planner/CriticalPathEngine.java:39-41 | Construction succeeds exactly when the codes are unique, every dependency is known and there is no cycle; the engine then holds the full schedule. Otherwise it fails with the error of the stage that detects the problem. |
| Engine.CriticalPathEngine.EvaluateTasks | src/main/java/com/alicetechnologies/planner/CriticalPathEngine.java:48-56 | Evaluation passes exactly when the codes are unique, every dependency is known and there is no cycle. After a pass, the arena satisfies every equation of the schedule and the task list is the arena in execution order. A failure carries the error of the stage that detects it: a repeated code, an unknown code or a cycle. |
| Engine.CriticalPathEngine.GetTasks | src/main/java/com/alicetechnologies/planner/CriticalPathEngine.java:58-60 | The task list is sorted by earliest start, is a permutation of the nodes, and keeps tasks that start together in input order. |
| Engine.CriticalPathEngine.GetTotalDuration | src/main/java/com/alicetechnologies/planner/CriticalPathEngine.java:62-69 | The total duration bounds every critical cost and the cost of every chain. Some chain attains it, and it is 0 without tasks. |
| Engine.CriticalPathEngine.LoadDependencies | src/main/java/com/alicetechnologies/planner/CriticalPathEngine.java:76-86 | It passes exactly when every dependency code of the node is known. It then links the node to the indices of its codes (`Schedule.ResolveCodes`) and keeps `blocked` the exact reverse of `dependencies`. Otherwise it fails with an unknown code of the node. |
| Engine.CriticalPathEngine.AddBlocked | src/main/java/com/alicetechnologies/planner/CriticalPathEngine.java:83-85 | The node is added to the successor set of each of its dependencies. Nothing else changes. |
| Engine.LinkStep | src/main/java/com/alicetechnologies/planner/CriticalPathEngine.java:76-86 | Linking one more node keeps every node made from its task and extends the resolved prefix by one. `blocked` remains the exact reverse of `dependencies`. |
| Engine.AllLinked | src/main/java/com/alicetechnologies/planner/CriticalPathEngine.java:54 | Once every node is linked, the codes are distinct, every dependency is known, and the arena's graph is the graph the input describes. |
| Engine.UnknownCode | src/main/java/com/alicetechnologies/planner/CriticalPathEngine.java:79-84 | A dependency code missing from the index makes the input fail with that unknown code. |
| Engine.CriticalPathEngine.CalculateCriticalPath | src/main/java/com/alicetechnologies/planner/CriticalPathEngine.java:92-135 | It passes exactly when the linked graph has no cycle, and then the engine holds the complete schedule. Otherwise it fails with a cyclic dependency. |
| Engine.CriticalPathEngine.Backflow | src/main/java/com/alicetechnologies/planner/CriticalPathEngine.java:94-124 | Only critical costs change. On a pass, every node satisfies criticalCost = cost + max of its dependencies' critical costs (0 without dependencies), and the order in which nodes were finalised is topological. On a failure, the graph has a cycle. |
| Engine.CriticalPathEngine.FinaliseReadyTasks | src/main/java/com/alicetechnologies/planner/CriticalPathEngine.java:104-119 | One pass over the remaining nodes keeps the backflow invariant. A pass that finalises nothing leaves both sets unchanged, and then no remaining node has all its dependencies completed. |
| Engine.NoProgressMeansCycle | src/main/java/com/alicetechnologies/planner/CriticalPathEngine.java:120-123 | If no remaining node has all its dependencies completed, the graph has a cycle. |
| Engine.BackflowComplete | src/main/java/com/alicetechnologies/planner/CriticalPathEngine.java:126-132 | Once every node is completed, the critical-cost equations hold and the finalisation order is topological. |
| Engine.CriticalPathEngine.MaxDependencyCriticalCost | src/main/java/com/alicetechnologies/planner/CriticalPathEngine.java:109-111 | The result is the largest critical cost among the dependencies, or 0 when there are none. |
| Engine.CriticalPathEngine.CalculateLatestIntervals | src/main/java/com/alicetechnologies/planner/CriticalPathEngine.java:170-175 | Corrected backward pass (see Findings). Only latest intervals change. Each node must finish by the smallest latest start among the nodes it blocks, or by the total duration when it blocks none, and starts its cost earlier. |
| Engine.CriticalPathEngine.MinLatestStart | src/main/java/com/alicetechnologies/planner/CriticalPathEngine.java:170-175 | The result is the smallest latest start among the successors, or the total duration when there are none. |
| Engine.CriticalPathEngine.FindInitialNodes | src/main/java/com/alicetechnologies/planner/CriticalPathEngine.java:140-149 | The result is exactly the nodes that appear in no node's successor set. When `blocked` is the reverse of `dependencies`, these are exactly the nodes without dependencies. |
| Engine.CriticalPathEngine.CalculateEarlyIntervals | src/main/java/com/alicetechnologies/planner/CriticalPathEngine.java:151-157 | Starting from the initial nodes, only earliest intervals change. At the end, every node finishes at its critical cost and starts its cost earlier. |
| Engine.CriticalPathEngine.SetEarlyInterval | src/main/java/com/alicetechnologies/planner/CriticalPathEngine.java:159-168 | Each node the visited node blocks is moved to [finish, finish + cost] when its earliest start is at most that finish; no other node changes. |
| Engine.ForwardStep | src/main/java/com/alicetechnologies/planner/CriticalPathEngine.java:159-168 | Visiting a node in finalisation order finishes it at its critical cost. Each later node starts at the largest finish among its visited dependencies. |
| Engine.ScheduledAfterPasses | src/main/java/com/alicetechnologies/planner/CriticalPathEngine.java:126-134 | After the three passes, the arena satisfies every equation of the schedule for the input. |
| Graph.RankedIsAcyclic | src/main/java/com/alicetechnologies/planner/CriticalPathEngine.java:120-123 | A graph with a rank that drops along every edge has no cycle. |
| Graph.StuckSetHasCycle | src/main/java/com/alicetechnologies/planner/CriticalPathEngine.java:120-123 | A non-empty set of nodes, each with a dependency inside the set, contains a cycle. |
| CrewMembers.AsRange | src/main/java/com/alicetechnologies/planner/plan/CrewMemberService.java:72-74 | A task's range is the half-open [earlyStart, earlyFinish). An inverted range is refused, as `Range.closedOpen` does. |
| CrewMembers.InsertDistinct | src/main/java/com/alicetechnologies/planner/plan/CrewMemberService.java:56-58 | Inserting into a strictly increasing list keeps it strictly increasing. Its elements become the old ones plus the new value. |
| CrewMembers.GetAllTimePoints | src/main/java/com/alicetechnologies/planner/plan/CrewMemberService.java:54-60 | The breakpoints are strictly increasing. They are exactly the earliest starts and finishes of the tasks. |
| CrewMembers.StrictlyIncreasingUnique | src/main/java/com/alicetechnologies/planner/plan/CrewMemberService.java:54-60 | A sorted list of distinct values is determined by its elements. |
| CrewMembers.CreateConsecutiveRanges | src/main/java/com/alicetechnologies/planner/plan/CrewMemberService.java:62-70 | k breakpoints give k − 1 ranges [p_i, p_i+1), and none when k < 2. |
| CrewMembers.RangesTile | src/main/java/com/alicetechnologies/planner/plan/CrewMemberService.java:62-70 | The elementary ranges are non-empty and distinct. An instant lies in exactly one of them when it is between the outer breakpoints, and in none otherwise. |
| CrewMembers.AddAssignment | src/main/java/com/alicetechnologies/planner/plan/CrewMemberService.java:37-46 | Every range the task's range encloses gets the task's assignment (`CrewMembers.AssignmentOf`: 0 without crew) added to its total, starting from 0 when absent. No other range changes. |
| CrewMembers.LargestValue | src/main/java/com/alicetechnologies/planner/plan/CrewMemberService.java:49-51 | The result is the largest total, or 0 for no totals. |
| CrewMembers.GetMaxCrewMembers | src/main/java/com/alicetechnologies/planner/plan/CrewMemberService.java:26-52 | The result is the largest load over the elementary ranges some task encloses, or 0 when there is none. It is an error exactly when some task finishes before it starts. |
| CrewMembers.SumOfPermutation | src/main/java/com/alicetechnologies/planner/plan/CrewMemberService.java:35-47 | The per-range totals do not depend on the order of the tasks. |
| CrewMembers.LoadIsDemand | src/main/java/com/alicetechnologies/planner/plan/CrewMemberService.java:35-46 | The total of the elementary range that holds an instant is the crew working at that instant. |
| CrewMembers.PeakIsLargestDemand | src/main/java/com/alicetechnologies/planner/plan/CrewMemberService.java:21-52 | The peak is the largest number of crew members working at one instant. Some busy instant reaches it, and it is 0 when no task ever runs. |
| CrewMembers.PeakAtLeastAssignment | src/main/java/com/alicetechnologies/planner/plan/CrewMemberService.java:35-51 | With non-negative assignments, the peak is at least the assignment of every task that takes time. |
| CrewMembers.PeakPermutationInvariant | src/main/java/com/alicetechnologies/planner/plan/CrewMemberService.java:33-51 | Reordering the tasks does not change the peak. |
| Invariance.ReorderedGraph | src/main/java/com/alicetechnologies/planner/CriticalPathEngine.java:52-53 | Listing the tasks in another order relabels the resolved graph: `d` is a dependency of `k` exactly when `perm[d]` is one of `perm[k]` in the original order. |
| Invariance.RelabelledSchedule | src/main/java/com/alicetechnologies/planner/CriticalPathEngine.java:92-135 | A relabelled arena that satisfies the schedule's equations has the same total duration. Each node has the critical cost and both intervals of the node it relabels. |
| Invariance.PeakDemandReordered | src/main/java/com/alicetechnologies/planner/plan/CrewMemberService.java:33-51 | Tasks listed in another order, with the same ranges and assignments, have the same peak demand. |
| Invariance.ReorderedSucceeds | src/main/java/com/alicetechnologies/planner/CriticalPathEngine.java:48-56 | An evaluation succeeds on a reordered list exactly when it succeeds on the original. The codes stay distinct, every dependency code stays known, and each cycle maps to a cycle, in both directions. With `Create`'s `r.Ok? <==> Succeeds`, the reordered evaluation exists exactly when the original one does. |
| Invariance.OrderIndependent | src/main/java/com/alicetechnologies/planner/CriticalPathEngine.java:48-56 | Two successful evaluations of the same tasks in different orders give the same total duration. Every task gets the same critical cost and the same earliest and latest intervals. The as-written latest start is also unchanged, and so is the peak crew demand over the task list. |
| Invariance.Deterministic | src/main/java/com/alicetechnologies/planner/CriticalPathEngine.java:48-56 | Two successful evaluations of one input give the same arena, code index and total duration, whatever order the hash sets were iterated in. |
| Scenarios.OneFlowSucceeds | src/test/java/com/alicetechnologies/planner/CriticalPathEngineTest.java:28-33 | The chain C → B → A is evaluated without error. |
| Scenarios.OneFlowInitialNode | src/test/java/com/alicetechnologies/planner/CriticalPathEngineTest.java:36-39 | The foundation A is the only initial node. |
| Scenarios.OneFlowSchedule | src/test/java/com/alicetechnologies/planner/CriticalPathEngineTest.java:41-44 | Total duration 12; A[0-5], B[5-8], C[8-12]. The corrected latest intervals equal the earliest ones. As written, `setLatestIntervalFor(12)` gives C[0-4], B[4-7], A[7-12]. |
| Scenarios.OneFlowExecutionOrder | src/test/java/com/alicetechnologies/planner/CriticalPathEngineTest.java:43 | The execution order is A, B, C. |
| Scenarios.OneFlowPeak | src/test/java/com/alicetechnologies/planner/CriticalPathEngineTest.java:45 | The peak crew demand is 1. |
| Scenarios.OneFlowEvaluation | src/test/java/com/alicetechnologies/planner/CriticalPathEngineTest.java:26-47 | Through the engine: total 12, task list A[0-5], B[5-8], C[8-12], peak 1. |
| Scenarios.AsWrittenLatestStartPrecedesEarliestStart | src/main/java/com/alicetechnologies/planner/task/dto/TaskEvaluated.java:35-38 | On the chain, the formula as written gives the roof a latest start of 0. The roof cannot start before 8, when the walls it waits for finish. |
| Scenarios.TwoFlowsSucceeds | src/test/java/com/alicetechnologies/planner/CriticalPathEngineTest.java:65-72 | The two chains are evaluated without error. |
| Scenarios.TwoFlowsSchedule | src/test/java/com/alicetechnologies/planner/CriticalPathEngineTest.java:77-79 | Total duration 29; A[0-5], B[5-25], C[25-29], E[0-3], D[3-5]. With the corrected latest intervals, the long chain has no slack and the short one has 24. As written, `setLatestIntervalFor(29)` gives the slack C −25, B −1, A 24, D 21, E 26. |
| Scenarios.TwoFlowsExecutionOrder | src/test/java/com/alicetechnologies/planner/CriticalPathEngineTest.java:78 | The execution order is A, E, D, B, C. |
| Scenarios.TwoFlowsPeak | src/test/java/com/alicetechnologies/planner/CriticalPathEngineTest.java:82 | The peak crew demand is 2. |
| Scenarios.TwoFlowsEvaluation | src/test/java/com/alicetechnologies/planner/CriticalPathEngineTest.java:61-84 | Through the engine: total 29, task list A[0-5], E[0-3], D[3-5], B[5-25], C[25-29], peak 2. |
| Scenarios.MutualWaitFails | src/main/java/com/alicetechnologies/planner/CriticalPathEngine.java:120-123 | Two tasks waiting for each other make the evaluation fail with a cyclic dependency. |

## Left out

- I/O and plumbing are not modelled: loading tasks from JSON, the REST controllers, Spring wiring and the response DTOs.
- Lombok-generated `equals`/`hashCode` and Java object identity are not modelled: nodes are arena indices, so two nodes with equal fields stay distinct. Because `@Data` puts `dependencies` into `hashCode`, a cyclic input makes `new HashSet<>(tasks)` (CriticalPathEngine.java:96) hash around the cycle forever. That overflows the stack before the "Cyclic dependency" throw at :123. The model reports the cycle as `CyclicDependency`, as that throw intends.
- Scenarios.MutualWaitFails: it states the `CyclicDependency` failure that the throw at CriticalPathEngine.java:123 intends. In the source, the `hashCode` recursion described above ends the evaluation with a stack overflow first.
- `Task.equipment` is not modelled: the engine and the crew service never read it.
- Engine.CriticalPathEngine.SetEarlyInterval: the source recurses from each initial node along every path and revisits a node once per incoming path. The model visits each node once, in the order the backflow finalised them, and applies the same raise-if-`>=` step. For every input, the final earliest intervals are the ones the equations fix, but the sequence of intermediate writes is not modelled.
- Engine.CriticalPathEngine.CalculateCriticalPath: uses the corrected backward pass, not `setLatestIntervalFor` (see Findings).
- Engine.CriticalPathEngine.CalculateLatestIntervals: computes the corrected latest intervals, not `maxCost − criticalCost` (see Findings).
- Engine.CriticalPathEngine.MinLatestStart: a step of the corrected backward pass; the source has no such minimum.
- Engine.CriticalPathEngine.Create: its successful engine holds the corrected latest intervals, not the ones `setLatestIntervalFor` gives.
- Engine.CriticalPathEngine.EvaluateTasks: after a pass, the latest intervals are the corrected ones, not the ones `setLatestIntervalFor` gives.
- Engine.ScheduledAfterPasses: the schedule it establishes includes the corrected latest intervals.
- Invariance.OrderIndependent: the latest intervals in `SameSchedule` are the corrected ones. A separate clause states that the as-written latest start is order independent too. The lemma compares two evaluations that both succeed; `Invariance.ReorderedSucceeds` gives the success of one from the other. Failures are compared only by success: when there are several duplicate or unknown codes, which one is reported can depend on the order.
- Scenarios.OneFlowSchedule: its latest-interval clause gives the corrected intervals. The as-written values are stated beside them.
- Scenarios.TwoFlowsSchedule: its slack clause gives the corrected slack. The as-written slack is stated beside it.
- Engine.CriticalPathEngine.EvaluateTasks: after a failure, its contract says nothing about the task list. In the source, `tasks` already holds the new, unsorted nodes, partly linked or costed in place. The model keeps the previous list. This differs only when an engine is evaluated again after a failure.
- Integer width is not modelled. Costs, critical costs and intervals are unbounded, so the 32-bit overflow of sums and of the subtraction in `compareTo` is not captured.
- `Tasks.Task.duration` is a `nat`: negative durations are excluded. Crew assignments are `int`, and the lemmas that need them non-negative say so.
- The `assert completed.size() == tasks.size()` (`E`:132) is not a separate check. The backflow proves that every node is completed.
- `getMaxCrewMembers` is modelled on `CrewMemberService` applied to the engine's task list. The engine has no such method, although the engine test calls one.
- `findInitialNodes` is modelled on the arena. The one-flow test applies it to the sorted task list, which holds the same nodes.
- The `largerDataset` test and the integration tests are not modelled. They read a `tasks.json` that is not part of this model.
- A missing `elementName` is not modelled: Java's `String.join` of a null element yields "null"; the model's element name is always a string.
- `name` is modelled only as the joined "operation:element" string. Nothing reads it.

## Findings

| source | as written | input that shows it | evidently intended | confidence | as-written member | corrected member |
|---|---|---|---|---|---|---|
| src/main/java/com/alicetechnologies/planner/task/dto/TaskEvaluated.java:35-38 | latestStart = maxCost − criticalCost. The backflow (`E`:107-112) makes criticalCost the longest chain *ending* with the task, i.e. its earliest finish, so the formula measures from the wrong end of the graph. | the chain C(4) on B(3) on A(5): maxCost 12 and criticalCost(C) = 12 give C a latest start of 0, while C cannot start before B finishes at 8 (slack −8) | the backward pass of the critical path method: latestFinish = the smallest latestStart among the blocked tasks (maxCost when none), latestStart = latestFinish − cost; slack never negative | high (not executed) | Scenarios.AsWrittenLatestStartPrecedesEarliestStart | Schedule.LatestIntervalsLeaveNonNegativeSlack |
