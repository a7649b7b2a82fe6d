/**
 * Paths and cycles in a dependency graph, seen through its map from each
 * node to the set of its direct dependents.
 */
module Reachability {
  import opened DependencyGraphs

  type Adjacency = map<string, set<string>>

  /** Every node a map mentions, as a key or inside one of its sets. */
  ghost function Nodes(g: Adjacency): set<string> {
    g.Keys + (set k, n | k in g && n in g[k] :: n)
  }

  lemma SuccessorsAreNodes(g: Adjacency, a: string)
    ensures Get(g, a) <= Nodes(g)
  {
    forall n | n in Get(g, a) ensures n in Nodes(g) {
      assert a in g;
    }
  }

  /** The step from `p[i]` to `p[i + 1]` is an edge. */
  ghost predicate EdgeAt(g: Adjacency, p: seq<string>, i: nat)
    requires i + 1 < |p|
  {
    p[i + 1] in Get(g, p[i])
  }

  /** A non-empty sequence of nodes, each a direct dependent of the one before. */
  ghost predicate IsPath(g: Adjacency, p: seq<string>) {
    |p| > 0 && forall i :: 0 <= i < |p| - 1 ==> EdgeAt(g, p, i)
  }

  /** `b` is `a` or one of its transitive dependents. */
  ghost predicate Reaches(g: Adjacency, a: string, b: string) {
    exists p :: IsPath(g, p) && p[0] == a && p[|p| - 1] == b
  }

  /** `n` is its own transitive dependent. */
  ghost predicate OnCycle(g: Adjacency, n: string) {
    exists p :: IsPath(g, p) && |p| > 1 && p[0] == n && p[|p| - 1] == n
  }

  /** Some cycle does not pass through `s`. */
  ghost predicate CycleAvoiding(g: Adjacency, s: string) {
    exists p :: IsPath(g, p) && |p| > 1 && p[0] == p[|p| - 1] && s !in p
  }

  ghost predicate Acyclic(g: Adjacency) {
    forall n :: !OnCycle(g, n)
  }

  /** No node is listed twice. */
  predicate Distinct(s: seq<string>) {
    forall i, j :: 0 <= i < j < |s| ==> s[i] != s[j]
  }

  /** No member of `s` has a direct dependent outside `s`. */
  ghost predicate Closed(g: Adjacency, s: set<string>) {
    forall a, b :: a in s && b in Get(g, a) ==> b in s
  }

  // ---------------------------------------------------------------------------
  // Building paths

  lemma PathSnoc(g: Adjacency, p: seq<string>, n: string)
    requires IsPath(g, p) && n in Get(g, p[|p| - 1])
    ensures IsPath(g, p + [n])
  {
    var q := p + [n];
    forall i | 0 <= i < |q| - 1 ensures EdgeAt(g, q, i) {
      if i < |p| - 1 {
        assert EdgeAt(g, p, i);
      }
    }
  }

  lemma PathSlice(g: Adjacency, p: seq<string>, i: nat, j: nat)
    requires IsPath(g, p) && i < j <= |p|
    ensures IsPath(g, p[i..j])
  {
    var q := p[i..j];
    forall k | 0 <= k < |q| - 1 ensures EdgeAt(g, q, k) {
      assert EdgeAt(g, p, i + k);
    }
  }

  /** Two paths, the second starting where the first ends, make one. */
  lemma PathJoin(g: Adjacency, p: seq<string>, q: seq<string>)
    requires IsPath(g, p) && IsPath(g, q) && p[|p| - 1] == q[0]
    ensures IsPath(g, p + q[1..])
  {
    var r := p + q[1..];
    forall k | 0 <= k < |r| - 1 ensures EdgeAt(g, r, k) {
      if k < |p| - 1 {
        assert EdgeAt(g, p, k);
      } else {
        assert EdgeAt(g, q, k - |p| + 1);
      }
    }
  }

  lemma ReachesSelf(g: Adjacency, a: string)
    ensures Reaches(g, a, a)
  {
    assert IsPath(g, [a]);
  }

  lemma ReachesPath(g: Adjacency, p: seq<string>)
    requires IsPath(g, p)
    ensures Reaches(g, p[0], p[|p| - 1])
  {
  }

  /** A node with the start among its direct dependents, reached from the start, closes a cycle. */
  lemma CycleThrough(g: Adjacency, s: string, v: string)
    requires Reaches(g, s, v) && s in Get(g, v)
    ensures OnCycle(g, s)
  {
    var p :| IsPath(g, p) && p[0] == s && p[|p| - 1] == v;
    PathSnoc(g, p, s);
    assert (p + [s])[0] == s;
  }

  /** A closed set holds everything reachable from its members. */
  lemma {:induction false} ClosedHoldsReach(g: Adjacency, s: set<string>, p: seq<string>)
    requires Closed(g, s) && IsPath(g, p) && p[0] in s
    ensures p[|p| - 1] in s
    decreases |p|
  {
    if |p| > 1 {
      var q := p[..|p| - 1];
      PathSlice(g, p, 0, |p| - 1);
      ClosedHoldsReach(g, s, q);
      assert EdgeAt(g, p, |p| - 2);
    }
  }

  lemma ClosedHoldsReaches(g: Adjacency, s: set<string>, a: string, b: string)
    requires Closed(g, s) && a in s && Reaches(g, a, b)
    ensures b in s
  {
    var p :| IsPath(g, p) && p[0] == a && p[|p| - 1] == b;
    ClosedHoldsReach(g, s, p);
  }

  /**
   * A closed set containing `s` in which no member has `s` as a direct
   * dependent leaves `s` off every cycle.
   */
  lemma ClosedNoReturn(g: Adjacency, set_: set<string>, s: string)
    requires Closed(g, set_) && s in set_
    requires forall a :: a in set_ ==> s !in Get(g, a)
    ensures !OnCycle(g, s)
  {
    if OnCycle(g, s) {
      var p :| IsPath(g, p) && |p| > 1 && p[0] == s && p[|p| - 1] == s;
      PathSlice(g, p, 0, |p| - 1);
      assert EdgeAt(g, p, |p| - 2);
      ClosedHoldsReach(g, set_, p[..|p| - 1]);
      assert false;
    }
  }

  /**
   * On a path of distinct nodes from `s`, an edge from its last node back to
   * a node other than the first closes a cycle that avoids `s`.
   */
  lemma BackEdgeCycle(g: Adjacency, p: seq<string>, k: nat, n: string)
    requires IsPath(g, p) && Distinct(p) && 0 < k < |p| && p[k] == n && n in Get(g, p[|p| - 1])
    ensures CycleAvoiding(g, p[0])
  {
    PathSlice(g, p, k, |p|);
    assert p[k..|p|] == p[k..];
    var c := p[k..] + [n];
    assert p[k..][|p| - k - 1] == p[|p| - 1];
    PathSnoc(g, p[k..], n);
    assert c[0] == n && c[|c| - 1] == n;
    assert p[0] !in c by {
      forall i | 0 <= i < |c| ensures c[i] != p[0] {
        if i < |c| - 1 {
          assert c[i] == p[k + i];
        }
      }
    }
  }

  // ---------------------------------------------------------------------------
  // Changing one node's incoming edges

  /** `g` and `h` have the same edges except, possibly, those into `u`. */
  ghost predicate SameExceptInto(g: Adjacency, h: Adjacency, u: string) {
    forall a, b :: b != u ==> (b in Get(g, a) <==> b in Get(h, a))
  }

  /** A cycle avoiding `u` uses no edge into `u`, so it is a cycle before the change as well. */
  lemma AvoidingCycleKept(g: Adjacency, h: Adjacency, u: string)
    requires SameExceptInto(g, h, u) && CycleAvoiding(h, u)
    ensures !Acyclic(g)
  {
    var p :| IsPath(h, p) && |p| > 1 && p[0] == p[|p| - 1] && u !in p;
    forall i | 0 <= i < |p| - 1 ensures EdgeAt(g, p, i) {
      assert EdgeAt(h, p, i);
      assert p[i + 1] != u;
    }
    assert IsPath(g, p);
    assert OnCycle(g, p[0]);
  }

  /** A cycle through `u`, started at `u`. */
  lemma RotateCycle(g: Adjacency, p: seq<string>, k: nat)
    requires IsPath(g, p) && |p| > 1 && p[0] == p[|p| - 1] && k < |p|
    ensures OnCycle(g, p[k])
  {
    if k == 0 || k == |p| - 1 {
      assert p[|p| - 1] == p[0];
    } else {
      PathSlice(g, p, k, |p|);
      PathSlice(g, p, 0, k + 1);
      assert p[k..|p|] == p[k..] && p[0..k + 1] == p[..k + 1];
      assert p[k..][|p| - k - 1] == p[|p| - 1] == p[0] == p[..k + 1][0];
      PathJoin(g, p[k..], p[..k + 1]);
      var c := p[k..] + p[..k + 1][1..];
      assert c[0] == p[k];
      assert c[|c| - 1] == p[k];
    }
  }

  /** With no cycle avoiding `u` and none through `u`, there is no cycle. */
  lemma AcyclicFromParts(g: Adjacency, u: string)
    requires !CycleAvoiding(g, u) && !OnCycle(g, u)
    ensures Acyclic(g)
  {
    forall n ensures !OnCycle(g, n) {
      if OnCycle(g, n) {
        var p :| IsPath(g, p) && |p| > 1 && p[0] == n && p[|p| - 1] == n;
        if u in p {
          var k :| 0 <= k < |p| && p[k] == u;
          RotateCycle(g, p, k);
          assert false;
        } else {
          assert false;
        }
      }
    }
  }

  /** Removing edges keeps a graph acyclic. */
  lemma FewerEdgesAcyclic(g: Adjacency, h: Adjacency)
    requires Acyclic(g)
    requires forall a, b :: b in Get(h, a) ==> b in Get(g, a)
    ensures Acyclic(h)
  {
    forall n ensures !OnCycle(h, n) {
      assert !OnCycle(g, n);
      forall p | IsPath(h, p) ensures IsPath(g, p) {
        forall i | 0 <= i < |p| - 1 ensures EdgeAt(g, p, i) {
          assert EdgeAt(h, p, i);
        }
      }
    }
  }

  /** A closed path is a cycle through its first node. */
  lemma CycleAt(g: Adjacency, p: seq<string>)
    requires IsPath(g, p) && |p| > 1 && p[0] == p[|p| - 1]
    ensures OnCycle(g, p[0])
  {
  }

  /** The first step of a path of two or more nodes is an edge. */
  lemma FirstEdge(g: Adjacency, p: seq<string>)
    requires IsPath(g, p) && |p| > 1
    ensures p[1] in Get(g, p[0])
  {
    assert EdgeAt(g, p, 0);
  }

  /** An acyclic graph has no cycle avoiding any node. */
  lemma AcyclicAvoidsNothing(g: Adjacency, u: string)
    requires Acyclic(g)
    ensures !CycleAvoiding(g, u)
  {
    if CycleAvoiding(g, u) {
      var p :| IsPath(g, p) && |p| > 1 && p[0] == p[|p| - 1] && u !in p;
      CycleAt(g, p);
      assert false;
    }
  }

  lemma EmptyAcyclic()
    ensures Acyclic(map[])
  {
    forall n ensures !OnCycle(map[], n) {
      if OnCycle(map[], n) {
        var p :| IsPath(map[], p) && |p| > 1 && p[0] == n && p[|p| - 1] == n;
        FirstEdge(map[], p);
        assert false;
      }
    }
  }

  /** A node reached from `a` by at least one step has an incoming edge. */
  lemma ReachedHasEdge(g: Adjacency, a: string, n: string)
    requires Reaches(g, a, n) && n != a
    ensures exists x :: n in Get(g, x)
  {
    var p :| IsPath(g, p) && p[0] == a && p[|p| - 1] == n;
    assert EdgeAt(g, p, |p| - 2);
  }

  /** A path from `u` cut at its last visit to `u`. */
  lemma {:induction false} CutToLast(g: Adjacency, p: seq<string>, u: string) returns (q: seq<string>)
    requires IsPath(g, p) && p[0] == u
    ensures IsPath(g, q) && q[0] == u && q[|q| - 1] == p[|p| - 1] && u !in q[1..]
    decreases |p|
  {
    if u in p[1..] {
      var k :| 0 <= k < |p| - 1 && p[k + 1] == u;
      PathSlice(g, p, k + 1, |p|);
      q := CutToLast(g, p[k + 1..|p|], u);
    } else {
      q := p;
    }
  }

  /** A path that does not come back to `u` uses no edge into `u`. */
  lemma PathAwayFrom(g: Adjacency, h: Adjacency, p: seq<string>, u: string)
    requires SameExceptInto(g, h, u) && IsPath(h, p) && u !in p[1..]
    ensures IsPath(g, p)
  {
    forall i | 0 <= i < |p| - 1 ensures EdgeAt(g, p, i) {
      assert EdgeAt(h, p, i);
      assert p[i + 1] == p[1..][i];
    }
  }

  /**
   * With the edges into `u` replaced by edges from `sources`, `u` lies on a
   * cycle exactly when one of the sources was `u` or a transitive dependent
   * of `u` before the change.
   */
  lemma CycleThroughRewired(g: Adjacency, h: Adjacency, u: string, sources: set<string>)
    requires forall a, b :: b in Get(h, a) <==> (if b == u then a in sources else b in Get(g, a))
    ensures OnCycle(h, u) <==> exists v :: v in sources && Reaches(g, u, v)
  {
    assert SameExceptInto(g, h, u) && SameExceptInto(h, g, u);
    if OnCycle(h, u) {
      var p :| IsPath(h, p) && |p| > 1 && p[0] == u && p[|p| - 1] == u;
      assert EdgeAt(h, p, |p| - 2);
      PathSlice(h, p, 0, |p| - 1);
      var q := CutToLast(h, p[..|p| - 1], u);
      PathAwayFrom(g, h, q, u);
      assert p[|p| - 2] in sources && Reaches(g, u, p[|p| - 2]);
    }
    if v :| v in sources && Reaches(g, u, v) {
      var p :| IsPath(g, p) && p[0] == u && p[|p| - 1] == v;
      var q := CutToLast(g, p, u);
      PathAwayFrom(h, g, q, u);
      PathSnoc(h, q, u);
      assert (q + [u])[0] == u;
    }
  }
}
