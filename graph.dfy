/**
 * The dependency graph of an evaluation, kept as an arena: node `i` is the task at index `i` of the
 * evaluated task list and `g[i]` is the set of indices of the tasks it depends on.
 */
module Graph {

  type Deps = seq<set<nat>>

  /** Every dependency names a node of the arena. */
  ghost predicate InRange(g: Deps) {
    forall i, d {:trigger d in g[i]} :: 0 <= i < |g| && d in g[i] ==> d < |g|
  }

  /** `p` follows dependency edges: each element is a dependency of the element before it. */
  ghost predicate IsChain(g: Deps, p: seq<nat>) {
    && |p| >= 1
    && (forall k :: 0 <= k < |p| ==> p[k] < |g|)
    && (forall k :: 1 <= k < |p| ==> p[k] in g[p[k - 1]])
  }

  /** `o` is reachable from `i` through one or more dependency edges. */
  ghost predicate Reaches(g: Deps, i: nat, o: nat) {
    exists p :: IsChain(g, p) && |p| >= 2 && p[0] == i && p[|p| - 1] == o
  }

  ghost predicate HasCycle(g: Deps) {
    exists i :: 0 <= i < |g| && Reaches(g, i, i)
  }

  /**
   * `rank` strictly decreases along every dependency edge: a witness that the graph is acyclic (a
   * topological position of each node, so every rank is below the number of nodes).
   */
  ghost predicate Ranked(g: Deps, rank: seq<nat>) {
    && |rank| == |g|
    && (forall i :: 0 <= i < |g| ==> rank[i] < |g|)
    && forall i, d {:trigger d in g[i]} :: 0 <= i < |g| && d in g[i] ==> d < |g| && rank[d] < rank[i]
  }

  /** The nodes of a graph with `n` nodes. */
  function Indices(n: nat): (s: set<nat>)
    ensures forall i: nat :: i in s <==> i < n
    ensures |s| == n
  {
    if n == 0 then {} else Indices(n - 1) + {n - 1}
  }

  /** A set holding exactly the nodes of a graph with `n` nodes has `n` elements. */
  lemma AllIndicesCount(s: set<nat>, n: nat)
    requires forall i: nat :: i in s <==> i < n
    ensures |s| == n
  {
    assert s == Indices(n);
  }

  /** The smallest `f[i]` over `i` in a non-empty `s`. */
  ghost function MinOver(s: set<nat>, f: seq<int>): (m: int)
    requires s != {} && forall i :: i in s ==> i < |f|
    ensures (exists i :: i in s && m == f[i]) && (forall i :: i in s ==> m <= f[i])
    decreases s
  {
    var x :| x in s;
    if s == {x} then f[x]
    else
      var rest := MinOver(s - {x}, f);
      if rest < f[x] then rest else f[x]
  }

  /** The minimum depends only on the values `f` takes on `s`. */
  lemma MinOverAgree(s: set<nat>, f: seq<int>, f': seq<int>)
    requires s != {} && forall i :: i in s ==> i < |f| && i < |f'| && f[i] == f'[i]
    ensures MinOver(s, f) == MinOver(s, f')
  {
    var m, m' := MinOver(s, f), MinOver(s, f');
    var i :| i in s && m == f[i];
    var j :| j in s && m' == f'[j];
    assert m <= f[j];
    assert m' <= f'[i];
  }

  /** Adding `u` to `s` lowers the minimum to `f[u]` exactly when `f[u]` is below it. */
  lemma MinOverInsert(s: set<nat>, u: nat, f: seq<int>)
    requires forall i :: i in s ==> i < |f|
    requires u < |f|
    ensures MinOver(s + {u}, f) == if s == {} || f[u] <= MinOver(s, f) then f[u] else MinOver(s, f)
  {
    var m := MinOver(s + {u}, f);
    assert u in s + {u};
    if s != {} {
      var j :| j in s && MinOver(s, f) == f[j];
      assert j in s + {u};
      var k :| k in s + {u} && m == f[k];
      if k != u {
        assert k in s;
      }
    }
  }

  /**
   * `order` lists every node once, each after all of its dependencies; `pos` gives each node's place
   * in `order`.
   */
  ghost predicate TopologicalOrder(g: Deps, order: seq<nat>, pos: seq<nat>) {
    && |order| == |g| == |pos|
    && Ranked(g, pos)
    && (forall k :: 0 <= k < |order| ==> order[k] < |g| && pos[order[k]] == k)
    && (forall i :: 0 <= i < |g| ==> order[pos[i]] == i)
  }

  /** Every node of `s` depends on some node of `s`: no node of `s` can ever be finalised first. */
  ghost predicate Stuck(g: Deps, s: set<nat>) {
    && (forall i :: i in s ==> i < |g|)
    && (forall i {:trigger g[i]} :: 0 <= i < |g| && i in s ==> exists d :: d in g[i] && d in s)
  }

  /** The largest `f[i]` over `i` in `s`, or 0 when `s` is empty (Java's `max().orElse(0)`). */
  ghost function MaxOver(s: set<nat>, f: seq<int>): (m: int)
    requires forall i :: i in s ==> i < |f|
    ensures s == {} ==> m == 0
    ensures s != {} ==> (exists i :: i in s && m == f[i]) && (forall i :: i in s ==> f[i] <= m)
    decreases s
  {
    if s == {} then 0
    else
      var x :| x in s;
      if s == {x} then f[x]
      else
        var rest := MaxOver(s - {x}, f);
        if f[x] < rest then rest else f[x]
  }

  /** The maximum depends only on the values `f` takes on `s`. */
  lemma MaxOverAgree(s: set<nat>, f: seq<int>, f': seq<int>)
    requires forall i :: i in s ==> i < |f| && i < |f'| && f[i] == f'[i]
    ensures MaxOver(s, f) == MaxOver(s, f')
  {
    var m, m' := MaxOver(s, f), MaxOver(s, f');
    if s != {} {
      var i :| i in s && m == f[i];
      var j :| j in s && m' == f'[j];
      assert f[j] <= m;
      assert f'[i] <= m';
    }
  }

  /** Adding one index raises the maximum to `f[u]` when that is larger. */
  lemma MaxOverInsert(s: set<nat>, u: nat, f: seq<int>)
    requires forall i :: i in s ==> i < |f|
    requires u < |f|
    ensures MaxOver(s + {u}, f) == if s == {} || MaxOver(s, f) <= f[u] then f[u] else MaxOver(s, f)
  {
    var m := MaxOver(s + {u}, f);
    assert u in s + {u};
    if s != {} {
      var j :| j in s && MaxOver(s, f) == f[j];
      assert j in s + {u};
      var k :| k in s + {u} && m == f[k];
      if k != u {
        assert k in s;
      }
    }
  }

  /** Following a chain strictly lowers the rank. */
  lemma {:induction false} RankDecreasesAlongChain(g: Deps, rank: seq<nat>, p: seq<nat>)
    requires Ranked(g, rank) && IsChain(g, p) && |p| >= 2
    ensures rank[p[|p| - 1]] < rank[p[0]]
  {
    assert p[1] in g[p[0]];
    if |p| > 2 {
      var q := p[1..];
      assert forall k :: 1 <= k < |q| ==> q[k] == p[k + 1] && q[k - 1] == p[k];
      RankDecreasesAlongChain(g, rank, q);
      assert q[|q| - 1] == p[|p| - 1];
    }
  }

  /** A ranked graph has no cycle. */
  lemma RankedIsAcyclic(g: Deps, rank: seq<nat>)
    requires Ranked(g, rank)
    ensures !HasCycle(g)
  {
    if HasCycle(g) {
      var i :| 0 <= i < |g| && Reaches(g, i, i);
      var p :| IsChain(g, p) && |p| >= 2 && p[0] == i && p[|p| - 1] == i;
      RankDecreasesAlongChain(g, rank, p);
    }
  }

  /** A walk of `len` steps inside a stuck set, starting at `s`. */
  ghost function StuckWalk(g: Deps, st: set<nat>, s: nat, len: nat): (w: seq<nat>)
    requires InRange(g) && Stuck(g, st) && s in st && s < |g|
    ensures |w| == len + 1 && w[0] == s
    ensures forall k :: 0 <= k < |w| ==> w[k] in st && w[k] < |g|
    ensures forall k :: 1 <= k < |w| ==> w[k] in g[w[k - 1]]
    decreases len
  {
    if len == 0 then [s]
    else
      var d :| d in g[s] && d in st;
      [s] + StuckWalk(g, st, d, len - 1)
  }

  /** A sequence longer than `n` whose elements are all below `n` repeats an element. */
  lemma {:induction false} Pigeonhole(w: seq<nat>, n: nat)
    requires |w| > n
    requires forall k :: 0 <= k < |w| ==> w[k] < n
    ensures exists i, j :: 0 <= i < j < |w| && w[i] == w[j]
    decreases n
  {
    var last := w[|w| - 1];
    if i :| 0 <= i < |w| - 1 && w[i] == last {
      assert w[i] == w[|w| - 1];
    } else {
      var w' := seq(|w| - 1, k requires 0 <= k < |w| - 1 => if w[k] < last then w[k] else w[k] - 1);
      Pigeonhole(w', n - 1);
      var i, j :| 0 <= i < j < |w'| && w'[i] == w'[j];
      assert w[i] == w[j];
    }
  }

  /** A non-empty stuck set contains a cycle. */
  lemma StuckSetHasCycle(g: Deps, st: set<nat>)
    requires InRange(g) && Stuck(g, st) && st != {}
    ensures HasCycle(g)
  {
    var s :| s in st;
    var w := StuckWalk(g, st, s, |g|);
    assert IsChain(g, w);
    Pigeonhole(w, |g|);
    var i, j :| 0 <= i < j < |w| && w[i] == w[j];
    SubChain(g, w, i, j);
    var p := w[i..j + 1];
    assert |p| >= 2 && p[0] == w[i] && p[|p| - 1] == w[j];
    assert Reaches(g, w[i], w[i]);
  }

  /** A contiguous piece of a chain is a chain. */
  lemma SubChain(g: Deps, w: seq<nat>, i: nat, j: nat)
    requires IsChain(g, w) && i <= j < |w|
    ensures IsChain(g, w[i..j + 1])
  {
    var p := w[i..j + 1];
    forall k | 1 <= k < |p|
      ensures p[k] in g[p[k - 1]]
    {
      assert p[k] == w[i + k] && p[k - 1] == w[(i + k) - 1];
    }
  }
}
