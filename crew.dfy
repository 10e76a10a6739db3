/**
 * Peak crew demand (CrewMemberService.java). The distinct earliest starts and finishes of the tasks
 * cut time into consecutive half-open elementary ranges; each task adds its crew assignment to every
 * elementary range its own [earlyStart, earlyFinish) encloses, and the peak is the largest total.
 */
module CrewMembers {
  import opened Results
  import opened Tasks
  import opened Evaluated

  /** A half-open range of time [lo, hi), as Guava's Range.closedOpen. */
  datatype Range = Range(lo: int, hi: int)
  {
    /** Whether the instant `t` lies in the range. */
    predicate Contains(t: int) {
      lo <= t < hi
    }

    /** Whether the range encloses `other`; both are closed below and open above. */
    predicate Encloses(other: Range) {
      lo <= other.lo && other.hi <= hi
    }
  }

  /** The range a task occupies. */
  function TaskRange(t: TaskEvaluated): Range {
    Range(t.earlyStart, t.earlyFinish)
  }

  /** The task's range as Range.closedOpen builds it: an inverted range is refused. */
  function AsRange(t: TaskEvaluated): (r: Option<Range>)
    ensures r.Some? <==> t.earlyStart <= t.earlyFinish
    ensures r.Some? ==> r.value == TaskRange(t) && forall x :: r.value.Contains(x) <==> t.earlyStart <= x < t.earlyFinish
  {
    if t.earlyFinish < t.earlyStart then None else Some(TaskRange(t))
  }

  /** The members the task's crew assigns to it, 0 for a task without crew. */
  function AssignmentOf(t: TaskEvaluated): int {
    match t.task.crew
    case None => 0
    case Some(crew) => crew.assignment
  }

  // ---------------------------------------------------------------------------------------------
  // Breakpoints and elementary ranges.

  predicate StrictlyIncreasing(s: seq<int>) {
    forall i, j :: 0 <= i < j < |s| ==> s[i] < s[j]
  }

  /** Whether `x` is the earliest start or finish of some task. */
  ghost predicate IsEndpoint(tasks: seq<TaskEvaluated>, x: int) {
    exists i :: 0 <= i < |tasks| && (tasks[i].earlyStart == x || tasks[i].earlyFinish == x)
  }

  /** Inserts `v` into the strictly increasing `s` unless it is there already. */
  function InsertDistinct(v: int, s: seq<int>): (r: seq<int>)
    requires StrictlyIncreasing(s)
    ensures StrictlyIncreasing(r)
    ensures forall x :: x in r <==> x in s || x == v
  {
    if s == [] then [v]
    else if v < s[0] then [v] + s
    else if v == s[0] then s
    else
      var rest := InsertDistinct(v, s[1..]);
      assert forall x :: x in s <==> x == s[0] || x in s[1..];
      assert forall i :: 0 <= i < |rest| ==> rest[i] in s[1..] || rest[i] == v;
      [s[0]] + rest
  }

  /** The distinct endpoints of the tasks, ascending: the breakpoints. */
  function GetAllTimePoints(tasks: seq<TaskEvaluated>): (points: seq<int>)
    ensures StrictlyIncreasing(points)
    ensures forall x :: x in points <==> IsEndpoint(tasks, x)
  {
    if tasks == [] then []
    else
      var init := tasks[..|tasks| - 1];
      var last := tasks[|tasks| - 1];
      var points := InsertDistinct(last.earlyFinish, InsertDistinct(last.earlyStart, GetAllTimePoints(init)));
      EndpointsOfLast(tasks);
      points
  }

  /** The endpoints of a non-empty task list: those of all but its last task, and the last task's two. */
  lemma EndpointsOfLast(tasks: seq<TaskEvaluated>)
    requires tasks != []
    ensures forall x :: IsEndpoint(tasks, x) <==>
              IsEndpoint(tasks[..|tasks| - 1], x) || x == tasks[|tasks| - 1].earlyStart || x == tasks[|tasks| - 1].earlyFinish
  {
    var init := tasks[..|tasks| - 1];
    var last := tasks[|tasks| - 1];
    forall x | IsEndpoint(tasks, x) && !(x == last.earlyStart || x == last.earlyFinish)
      ensures IsEndpoint(init, x)
    {
      var i :| 0 <= i < |tasks| && (tasks[i].earlyStart == x || tasks[i].earlyFinish == x);
      assert init[i] == tasks[i];
    }
    forall x | IsEndpoint(init, x)
      ensures IsEndpoint(tasks, x)
    {
      var i :| 0 <= i < |init| && (init[i].earlyStart == x || init[i].earlyFinish == x);
      assert tasks[i] == init[i];
    }
  }

  /** The ranges between consecutive breakpoints: none for fewer than two breakpoints. */
  function CreateConsecutiveRanges(points: seq<int>): (ranges: seq<Range>)
    ensures |ranges| == if |points| < 2 then 0 else |points| - 1
    ensures forall k :: 0 <= k < |ranges| ==> ranges[k] == Range(points[k], points[k + 1])
  {
    if |points| < 2 then []
    else seq(|points| - 1, k requires 0 <= k < |points| - 1 => Range(points[k], points[k + 1]))
  }

  /** The elementary ranges of the tasks. */
  function ElementaryRanges(tasks: seq<TaskEvaluated>): seq<Range> {
    CreateConsecutiveRanges(GetAllTimePoints(tasks))
  }

  /** Two strictly increasing sequences with the same elements are equal. */
  lemma {:induction false} StrictlyIncreasingUnique(a: seq<int>, b: seq<int>)
    requires StrictlyIncreasing(a) && StrictlyIncreasing(b)
    requires forall x :: x in a <==> x in b
    ensures a == b
    decreases |a|
  {
    if a != [] {
      assert a[0] in a && a[0] in b;
    }
    if b != [] {
      assert b[0] in b && b[0] in a;
    }
    if a != [] && b != [] {
      assert a[0] == b[0];
      forall x
        ensures x in a[1..] <==> x in b[1..]
      {
        if x in a[1..] {
          assert x in b && x != b[0];
        }
        if x in b[1..] {
          assert x in a && x != a[0];
        }
      }
      StrictlyIncreasingUnique(a[1..], b[1..]);
      assert a == [a[0]] + a[1..] && b == [b[0]] + b[1..];
    }
  }

  /**
   * The elementary ranges tile [first breakpoint, last breakpoint): they are non-empty and distinct,
   * and an instant lies in exactly one of them when it lies between the outer breakpoints, in none
   * otherwise.
   */
  lemma RangesTile(points: seq<int>, t: int)
    requires StrictlyIncreasing(points)
    ensures forall k :: 0 <= k < |CreateConsecutiveRanges(points)| ==>
              CreateConsecutiveRanges(points)[k].lo < CreateConsecutiveRanges(points)[k].hi
    ensures forall j, k :: 0 <= j < k < |CreateConsecutiveRanges(points)| ==>
              CreateConsecutiveRanges(points)[j] != CreateConsecutiveRanges(points)[k]
    ensures (exists k :: 0 <= k < |CreateConsecutiveRanges(points)| && CreateConsecutiveRanges(points)[k].Contains(t))
              <==> |points| >= 2 && points[0] <= t < points[|points| - 1]
    ensures forall j, k ::
              (0 <= j < |CreateConsecutiveRanges(points)| && 0 <= k < |CreateConsecutiveRanges(points)| &&
               CreateConsecutiveRanges(points)[j].Contains(t) && CreateConsecutiveRanges(points)[k].Contains(t)) ==> j == k
  {
    var ranges := CreateConsecutiveRanges(points);
    if |points| >= 2 && points[0] <= t < points[|points| - 1] {
      var k := Enclosing(points, t);
      assert ranges[k].Contains(t);
    }
  }

  /** The index of the last breakpoint at or before `t`, for `t` between the outer breakpoints. */
  lemma Enclosing(points: seq<int>, t: int) returns (k: nat)
    requires StrictlyIncreasing(points) && |points| >= 2 && points[0] <= t < points[|points| - 1]
    ensures k + 1 < |points| && points[k] <= t < points[k + 1]
  {
    k := 0;
    while points[k + 1] <= t
      invariant k + 1 < |points| && points[k] <= t
      decreases |points| - k
    {
      k := k + 1;
    }
  }

  // ---------------------------------------------------------------------------------------------
  // Demand.

  /** The sum of `f` over the tasks. */
  function SumOf(us: seq<TaskEvaluated>, f: TaskEvaluated -> int): int {
    if us == [] then 0 else SumOf(us[..|us| - 1], f) + f(us[|us| - 1])
  }

  /** What a task adds to the elementary range `r`: its assignment when its range encloses `r`. */
  function Contribution(r: Range): TaskEvaluated -> int {
    u => if TaskRange(u).Encloses(r) then AssignmentOf(u) else 0
  }

  /** What a task adds to the demand at instant `t`: its assignment while it runs. */
  function Activity(t: int): TaskEvaluated -> int {
    u => if TaskRange(u).Contains(t) then AssignmentOf(u) else 0
  }

  /** The crew members the tasks enclosing the range `r` need together. */
  function Load(tasks: seq<TaskEvaluated>, r: Range): int {
    SumOf(tasks, Contribution(r))
  }

  /** The crew members working at instant `t`. */
  function DemandAt(tasks: seq<TaskEvaluated>, t: int): int {
    SumOf(tasks, Activity(t))
  }

  /** Some task's range encloses `r`. */
  predicate Covered(tasks: seq<TaskEvaluated>, r: Range) {
    exists i :: 0 <= i < |tasks| && TaskRange(tasks[i]).Encloses(r)
  }

  /** Some task runs at instant `t`. */
  predicate Busy(tasks: seq<TaskEvaluated>, t: int) {
    exists i :: 0 <= i < |tasks| && TaskRange(tasks[i]).Contains(t)
  }

  /** The largest element of a set, 0 for the empty set. */
  ghost function Largest(s: set<int>): (m: int)
    ensures (forall x :: x !in s) ==> m == 0
    ensures (exists x :: x in s) ==> m in s && forall x :: x in s ==> x <= m
    decreases s
  {
    if forall x :: x !in s then 0
    else
      var x :| x in s;
      var rest := Largest(s - {x});
      assert forall y :: y in s ==> y == x || y in s - {x};
      if (exists y :: y in s - {x}) && x < rest then rest else x
  }

  /** The loads of the elementary ranges that some task encloses. */
  ghost function Loads(tasks: seq<TaskEvaluated>): set<int> {
    set r | r in ElementaryRanges(tasks) && Covered(tasks, r) :: Load(tasks, r)
  }

  /** The peak demand: the largest load of an enclosed elementary range, 0 when there is none. */
  ghost function PeakDemand(tasks: seq<TaskEvaluated>): int {
    Largest(Loads(tasks))
  }

  // ---------------------------------------------------------------------------------------------
  // Sums.

  lemma {:induction false} SumOfAgree(us: seq<TaskEvaluated>, f: TaskEvaluated -> int, g: TaskEvaluated -> int)
    requires forall i :: 0 <= i < |us| ==> f(us[i]) == g(us[i])
    ensures SumOf(us, f) == SumOf(us, g)
    decreases |us|
  {
    if us != [] {
      SumOfAgree(us[..|us| - 1], f, g);
    }
  }

  /** Taking the task at `j` out of the sum subtracts its own term. */
  lemma {:induction false} SumOfRemove(us: seq<TaskEvaluated>, j: nat, f: TaskEvaluated -> int)
    requires j < |us|
    ensures SumOf(us, f) == SumOf(us[..j] + us[j + 1..], f) + f(us[j])
    decreases |us|
  {
    var n := |us|;
    if j < n - 1 {
      var init := us[..n - 1];
      SumOfRemove(init, j, f);
      var rest := us[..j] + us[j + 1..];
      assert rest[..|rest| - 1] == init[..j] + init[j + 1..];
      assert rest[|rest| - 1] == us[n - 1];
    } else {
      assert us[..j] + us[j + 1..] == us[..n - 1];
    }
  }

  /** A sum does not depend on the order of the tasks. */
  lemma {:induction false} SumOfPermutation(us: seq<TaskEvaluated>, vs: seq<TaskEvaluated>, f: TaskEvaluated -> int)
    requires multiset(us) == multiset(vs)
    ensures SumOf(us, f) == SumOf(vs, f)
    decreases |us|
  {
    if us == [] {
      assert |vs| == |multiset(vs)| == 0;
    } else {
      var n := |us|;
      var x := us[n - 1];
      assert x in multiset(vs);
      var j :| 0 <= j < |vs| && vs[j] == x;
      var rest := vs[..j] + vs[j + 1..];
      assert vs == vs[..j] + [x] + vs[j + 1..];
      assert us == us[..n - 1] + [x];
      assert multiset(vs) == multiset(vs[..j]) + multiset{x} + multiset(vs[j + 1..]);
      assert multiset(rest) == multiset(vs[..j]) + multiset(vs[j + 1..]);
      assert multiset(us) == multiset(us[..n - 1]) + multiset{x};
      assert multiset(us[..n - 1]) == multiset(us) - multiset{x} == multiset(vs) - multiset{x} == multiset(rest);
      SumOfPermutation(us[..n - 1], rest, f);
      SumOfRemove(vs, j, f);
    }
  }

  /** With non-negative terms, a sum is at least each of its terms. */
  lemma {:induction false} SumOfAtLeastTerm(us: seq<TaskEvaluated>, j: nat, f: TaskEvaluated -> int)
    requires j < |us| && forall i :: 0 <= i < |us| ==> f(us[i]) >= 0
    ensures SumOf(us, f) >= f(us[j])
    decreases |us|
  {
    if j < |us| - 1 {
      SumOfAtLeastTerm(us[..|us| - 1], j, f);
    } else {
      SumOfNonNegative(us[..|us| - 1], f);
    }
  }

  lemma {:induction false} SumOfNonNegative(us: seq<TaskEvaluated>, f: TaskEvaluated -> int)
    requires forall i :: 0 <= i < |us| ==> f(us[i]) >= 0
    ensures SumOf(us, f) >= 0
    decreases |us|
  {
    if us != [] {
      SumOfNonNegative(us[..|us| - 1], f);
    }
  }

  // ---------------------------------------------------------------------------------------------
  // The peak is the largest instantaneous demand.

  /**
   * Inside the elementary range [points[k], points[k + 1]), a task whose endpoints are breakpoints
   * encloses the range exactly when it runs at the instant `t`.
   */
  lemma EnclosesIffRuns(points: seq<int>, k: nat, t: int, u: TaskEvaluated)
    requires StrictlyIncreasing(points) && k + 1 < |points| && points[k] <= t < points[k + 1]
    requires u.earlyStart in points && u.earlyFinish in points
    ensures TaskRange(u).Encloses(Range(points[k], points[k + 1])) <==> TaskRange(u).Contains(t)
  {
    var s :| 0 <= s < |points| && points[s] == u.earlyStart;
    var f :| 0 <= f < |points| && points[f] == u.earlyFinish;
    if TaskRange(u).Encloses(Range(points[k], points[k + 1])) {
      assert points[k] < points[k + 1];
    }
  }

  /**
   * The load of the elementary range holding instant `t` is the demand at `t`, and the range is
   * enclosed by some task exactly when some task runs at `t`.
   */
  lemma LoadIsDemand(tasks: seq<TaskEvaluated>, k: nat, t: int)
    requires k < |ElementaryRanges(tasks)| && ElementaryRanges(tasks)[k].Contains(t)
    ensures Load(tasks, ElementaryRanges(tasks)[k]) == DemandAt(tasks, t)
    ensures Covered(tasks, ElementaryRanges(tasks)[k]) <==> Busy(tasks, t)
  {
    var points := GetAllTimePoints(tasks);
    var r := ElementaryRanges(tasks)[k];
    assert r == Range(points[k], points[k + 1]);
    forall i | 0 <= i < |tasks|
      ensures Contribution(r)(tasks[i]) == Activity(t)(tasks[i])
      ensures TaskRange(tasks[i]).Encloses(r) <==> TaskRange(tasks[i]).Contains(t)
    {
      assert IsEndpoint(tasks, tasks[i].earlyStart) && IsEndpoint(tasks, tasks[i].earlyFinish);
      EnclosesIffRuns(points, k, t, tasks[i]);
    }
    SumOfAgree(tasks, Contribution(r), Activity(t));
  }

  /** An instant at which some task runs lies in some elementary range. */
  lemma BusyInstantInRange(tasks: seq<TaskEvaluated>, t: int) returns (k: nat)
    requires Busy(tasks, t)
    ensures k < |ElementaryRanges(tasks)| && ElementaryRanges(tasks)[k].Contains(t)
  {
    var points := GetAllTimePoints(tasks);
    var i :| 0 <= i < |tasks| && TaskRange(tasks[i]).Contains(t);
    assert IsEndpoint(tasks, tasks[i].earlyStart) && IsEndpoint(tasks, tasks[i].earlyFinish);
    var s :| 0 <= s < |points| && points[s] == tasks[i].earlyStart;
    var f :| 0 <= f < |points| && points[f] == tasks[i].earlyFinish;
    assert s < f;
    assert points[0] <= points[s] && points[f] <= points[|points| - 1];
    k := Enclosing(points, t);
  }

  /**
   * The peak demand is the largest number of crew members working at any one instant: the demand
   * never exceeds it while some task runs, and some instant at which a task runs reaches it. With
   * no task ever running it is 0.
   */
  lemma PeakIsLargestDemand(tasks: seq<TaskEvaluated>)
    ensures forall t :: Busy(tasks, t) ==> DemandAt(tasks, t) <= PeakDemand(tasks)
    ensures (exists t :: Busy(tasks, t)) ==> exists t :: Busy(tasks, t) && DemandAt(tasks, t) == PeakDemand(tasks)
    ensures (forall t :: !Busy(tasks, t)) ==> PeakDemand(tasks) == 0
  {
    forall t | Busy(tasks, t)
      ensures DemandAt(tasks, t) <= PeakDemand(tasks)
    {
      DemandAtMostPeak(tasks, t);
    }
    if exists t :: Busy(tasks, t) {
      var busy :| Busy(tasks, busy);
      DemandAtMostPeak(tasks, busy);
    }
    if exists v :: v in Loads(tasks) {
      var t := PeakReached(tasks);
      assert Busy(tasks, t) && DemandAt(tasks, t) == PeakDemand(tasks);
    }
  }

  /** The demand at an instant at which some task runs is one of the loads, so at most the peak. */
  lemma DemandAtMostPeak(tasks: seq<TaskEvaluated>, t: int)
    requires Busy(tasks, t)
    ensures DemandAt(tasks, t) in Loads(tasks) && DemandAt(tasks, t) <= PeakDemand(tasks)
  {
    var ranges := ElementaryRanges(tasks);
    var k := BusyInstantInRange(tasks, t);
    LoadIsDemand(tasks, k, t);
    assert Load(tasks, ranges[k]) in Loads(tasks);
  }

  /** When some range is enclosed, the start of a range of largest load is a busy instant at the peak. */
  lemma PeakReached(tasks: seq<TaskEvaluated>) returns (t: int)
    requires exists v :: v in Loads(tasks)
    ensures Busy(tasks, t) && DemandAt(tasks, t) == PeakDemand(tasks)
  {
    var ranges := ElementaryRanges(tasks);
    var r :| r in ranges && Covered(tasks, r) && Load(tasks, r) == PeakDemand(tasks);
    var k :| 0 <= k < |ranges| && ranges[k] == r;
    RangesTile(GetAllTimePoints(tasks), r.lo);
    LoadIsDemand(tasks, k, r.lo);
    t := r.lo;
  }

  /**
   * With non-negative assignments, the peak is at least the assignment of every task that takes
   * time.
   */
  lemma PeakAtLeastAssignment(tasks: seq<TaskEvaluated>, i: nat)
    requires forall j :: 0 <= j < |tasks| ==> AssignmentOf(tasks[j]) >= 0
    requires i < |tasks| && tasks[i].earlyStart < tasks[i].earlyFinish
    ensures PeakDemand(tasks) >= AssignmentOf(tasks[i])
  {
    var t := tasks[i].earlyStart;
    assert TaskRange(tasks[i]).Contains(t) && Busy(tasks, t);
    PeakIsLargestDemand(tasks);
    SumOfAtLeastTerm(tasks, i, Activity(t));
  }

  /** Reordering the tasks does not change the peak demand. */
  lemma PeakPermutationInvariant(ts: seq<TaskEvaluated>, us: seq<TaskEvaluated>)
    requires multiset(ts) == multiset(us)
    ensures PeakDemand(ts) == PeakDemand(us)
  {
    forall x
      ensures IsEndpoint(ts, x) <==> IsEndpoint(us, x)
    {
      if IsEndpoint(ts, x) {
        var i :| 0 <= i < |ts| && (ts[i].earlyStart == x || ts[i].earlyFinish == x);
        assert ts[i] in multiset(us);
        var j :| 0 <= j < |us| && us[j] == ts[i];
      }
      if IsEndpoint(us, x) {
        var j :| 0 <= j < |us| && (us[j].earlyStart == x || us[j].earlyFinish == x);
        assert us[j] in multiset(ts);
        var i :| 0 <= i < |ts| && ts[i] == us[j];
      }
    }
    StrictlyIncreasingUnique(GetAllTimePoints(ts), GetAllTimePoints(us));
    forall r
      ensures Covered(ts, r) <==> Covered(us, r)
      ensures Load(ts, r) == Load(us, r)
    {
      SumOfPermutation(ts, us, Contribution(r));
      if Covered(ts, r) {
        var i :| 0 <= i < |ts| && TaskRange(ts[i]).Encloses(r);
        assert ts[i] in multiset(us);
        var j :| 0 <= j < |us| && us[j] == ts[i];
      }
      if Covered(us, r) {
        var j :| 0 <= j < |us| && TaskRange(us[j]).Encloses(r);
        assert us[j] in multiset(ts);
        var i :| 0 <= i < |ts| && ts[i] == us[j];
      }
    }
    assert Loads(ts) == Loads(us);
  }

  // ---------------------------------------------------------------------------------------------
  // The service.

  /** No task encloses `r`, so none adds to its load. */
  lemma {:induction false} UncoveredLoadIsZero(us: seq<TaskEvaluated>, r: Range)
    requires !Covered(us, r)
    ensures Load(us, r) == 0
    decreases |us|
  {
    if us != [] {
      var init := us[..|us| - 1];
      assert forall j :: 0 <= j < |init| ==> init[j] == us[j];
      UncoveredLoadIsZero(init, r);
      assert !TaskRange(us[|us| - 1]).Encloses(r);
    }
  }

  /** Extending a prefix of the tasks by one task extends its coverage and its loads by that task's. */
  lemma PrefixStep(tasks: seq<TaskEvaluated>, i: nat)
    requires i < |tasks|
    ensures forall r :: Covered(tasks[..i + 1], r) <==> Covered(tasks[..i], r) || TaskRange(tasks[i]).Encloses(r)
    ensures forall r :: Load(tasks[..i + 1], r) == Load(tasks[..i], r) + Contribution(r)(tasks[i])
    ensures forall r :: !Covered(tasks[..i], r) ==> Load(tasks[..i], r) == 0
  {
    forall r | !Covered(tasks[..i], r)
      ensures Load(tasks[..i], r) == 0
    {
      UncoveredLoadIsZero(tasks[..i], r);
    }
    assert tasks[..i + 1][..i] == tasks[..i];
    forall r
      ensures Covered(tasks[..i + 1], r) <==> Covered(tasks[..i], r) || TaskRange(tasks[i]).Encloses(r)
    {
      if Covered(tasks[..i + 1], r) {
        var j :| 0 <= j < i + 1 && TaskRange(tasks[..i + 1][j]).Encloses(r);
        if j < i {
          assert tasks[..i][j] == tasks[j];
        }
      }
      if Covered(tasks[..i], r) {
        var j :| 0 <= j < i && TaskRange(tasks[..i][j]).Encloses(r);
        assert tasks[..i + 1][j] == tasks[j];
      }
      assert tasks[..i + 1][i] == tasks[i];
    }
  }

  /** The totals of the covered elementary ranges are exactly the loads. */
  lemma LoadsAreTotals(tasks: seq<TaskEvaluated>, crewMembers: map<Range, int>)
    requires forall r :: r in crewMembers <==> r in ElementaryRanges(tasks) && Covered(tasks, r)
    requires forall r :: r in crewMembers ==> crewMembers[r] == Load(tasks, r)
    ensures crewMembers.Values == Loads(tasks)
  {
    forall v | v in Loads(tasks)
      ensures v in crewMembers.Values
    {
      var r :| r in ElementaryRanges(tasks) && Covered(tasks, r) && v == Load(tasks, r);
      assert crewMembers[r] == v;
    }
  }

  /** Adds `assignment` to the total of every range of `ranges` that `taskRange` encloses. */
  method AddAssignment(crewMembers: map<Range, int>, ranges: seq<Range>, taskRange: Range, assignment: int)
    returns (updated: map<Range, int>)
    requires forall j, k :: 0 <= j < k < |ranges| ==> ranges[j] != ranges[k]
    ensures forall r :: r in updated <==> r in crewMembers || (r in ranges && taskRange.Encloses(r))
    ensures forall r :: r in updated ==>
      updated[r] == (if r in crewMembers then crewMembers[r] else 0)
                    + (if r in ranges && taskRange.Encloses(r) then assignment else 0)
  {
    updated := crewMembers;
    for k := 0 to |ranges|
      invariant forall r :: r in updated <==> r in crewMembers || (r in ranges[..k] && taskRange.Encloses(r))
      invariant forall r :: r in updated ==>
        updated[r] == (if r in crewMembers then crewMembers[r] else 0)
                      + (if r in ranges[..k] && taskRange.Encloses(r) then assignment else 0)
    {
      var range := ranges[k];
      assert range !in ranges[..k];
      assert ranges[..k + 1] == ranges[..k] + [range];
      if taskRange.Encloses(range) {
        var currentMembers := if range in updated then updated[range] else 0;
        updated := updated[range := currentMembers + assignment];
      }
    }
    assert ranges[..|ranges|] == ranges;
  }

  /** The value at `best` bounds every value of the map, so it is the largest. */
  lemma LargestValueAt(m: map<Range, int>, best: Range)
    requires best in m && forall r :: r in m ==> m[r] <= m[best]
    ensures Largest(m.Values) == m[best]
  {
    assert m[best] in m.Values;
    forall v | v in m.Values
      ensures v <= m[best]
    {
      var r :| r in m && m[r] == v;
    }
  }

  /** A map without keys has no values: its largest value is 0. */
  lemma LargestOfNoValues(m: map<Range, int>)
    requires m.Keys == {}
    ensures Largest(m.Values) == 0
  {
    assert m == map[];
  }

  /**
   * The largest number of crew members needed at the same time, or None when some task's earliest
   * finish precedes its earliest start (Range.closedOpen refuses that range).
   */
  method GetMaxCrewMembers(tasks: seq<TaskEvaluated>) returns (peak: Option<int>)
    ensures peak.None? <==> exists i :: 0 <= i < |tasks| && tasks[i].earlyFinish < tasks[i].earlyStart
    ensures peak.Some? ==> peak.value == PeakDemand(tasks)
  {
    var timePoints := GetAllTimePoints(tasks);
    var ranges := CreateConsecutiveRanges(timePoints);
    RangesTile(timePoints, 0);
    var crewMembers: map<Range, int> := map[];
    for i := 0 to |tasks|
      invariant forall j :: 0 <= j < i ==> tasks[j].earlyStart <= tasks[j].earlyFinish
      invariant forall r :: r in crewMembers <==> r in ranges && Covered(tasks[..i], r)
      invariant forall r :: r in crewMembers ==> crewMembers[r] == Load(tasks[..i], r)
    {
      var taskRange := AsRange(tasks[i]);
      if taskRange.None? {
        return None;
      }
      crewMembers := AddAssignment(crewMembers, ranges, taskRange.value, AssignmentOf(tasks[i]));
      PrefixStep(tasks, i);
    }
    assert tasks[..|tasks|] == tasks;
    LoadsAreTotals(tasks, crewMembers);
    var largest := LargestValue(crewMembers);
    peak := Some(largest);
  }

  /** The largest value of the map, 0 for an empty map: the stream's max().orElse(0). */
  method LargestValue(m: map<Range, int>) returns (largest: int)
    ensures largest == Largest(m.Values)
  {
    largest := 0;
    var first := true;
    var pending := m.Keys;
    ghost var seen: set<Range> := {};
    while pending != {}
      invariant pending <= m.Keys
      invariant forall r :: r in m ==> r in pending || r in seen
      invariant seen <= m.Keys && pending !! seen
      invariant first <==> seen == {}
      invariant first ==> largest == 0
      invariant !first ==> exists r :: r in seen && m[r] == largest
      invariant forall r :: r in seen ==> m[r] <= largest
      decreases |pending|
    {
      var range :| range in pending;
      if first || largest < m[range] {
        largest := m[range];
      }
      first := false;
      pending := pending - {range};
      seen := seen + {range};
    }
    if first {
      LargestOfNoValues(m);
    } else {
      ghost var best :| best in seen && m[best] == largest;
      LargestValueAt(m, best);
    }
  }
}
