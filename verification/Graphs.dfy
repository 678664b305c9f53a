/** Import graphs, walks and strongly connected components. */
module Graphs {
  import opened Orders

  type Graph = map<string, set<string>>

  /** Every recorded target is itself a module of the graph. */
  ghost predicate Closed(g: Graph) {
    forall m :: m in g ==> g[m] <= g.Keys
  }

  ghost predicate StepAt(g: Graph, members: set<string>, w: seq<string>, i: int)
    requires 0 < i < |w|
  {
    w[i - 1] in g && w[i] in g[w[i - 1]] && w[i] in members
  }

  /** Import steps of `g` that, after the first module, stay within `members`. */
  ghost predicate IsWalk(g: Graph, members: set<string>, w: seq<string>) {
    && w != []
    && forall i :: 0 < i < |w| ==> StepAt(g, members, w, i)
  }

  ghost predicate WalkBetween(g: Graph, members: set<string>, w: seq<string>, x: string, y: string) {
    IsWalk(g, members, w) && w[0] == x && w[|w| - 1] == y
  }

  ghost predicate Reach(g: Graph, x: string, y: string) {
    exists w :: WalkBetween(g, g.Keys, w, x, y)
  }

  /** The modules that `x` reaches and that reach `x`. */
  ghost function Scc(g: Graph, x: string): set<string> {
    set y | y in g && Reach(g, x, y) && Reach(g, y, x)
  }

  ghost predicate ClosedUnderImports(g: Graph, s: set<string>) {
    forall x :: x in s && x in g ==> g[x] <= s
  }

  lemma ReachSelf(g: Graph, x: string)
    ensures Reach(g, x, x)
  {
    assert WalkBetween(g, g.Keys, [x], x, x);
  }

  lemma ReachEdge(g: Graph, x: string, y: string)
    requires Closed(g) && x in g && y in g[x]
    ensures Reach(g, x, y)
  {
    assert WalkBetween(g, g.Keys, [x, y], x, y);
  }

  lemma JoinWalks(g: Graph, members: set<string>, v: seq<string>, w: seq<string>)
    requires IsWalk(g, members, v) && IsWalk(g, members, w) && v[|v| - 1] == w[0]
    ensures WalkBetween(g, members, v + w[1..], v[0], w[|w| - 1])
  {
    var j := v + w[1..];
    forall i | 0 < i < |j| ensures StepAt(g, members, j, i) {
      if i >= |v| {
        assert StepAt(g, members, w, i - |v| + 1);
      } else {
        assert StepAt(g, members, v, i);
      }
    }
  }

  lemma ReachTransitive(g: Graph, x: string, y: string, z: string)
    requires Reach(g, x, y) && Reach(g, y, z)
    ensures Reach(g, x, z)
  {
    var v :| WalkBetween(g, g.Keys, v, x, y);
    var w :| WalkBetween(g, g.Keys, w, y, z);
    JoinWalks(g, g.Keys, v, w);
  }

  /** Walks cannot leave a set that is closed under imports. */
  lemma {:induction false} WalkStaysInside(g: Graph, s: set<string>, w: seq<string>, k: nat)
    requires ClosedUnderImports(g, s) && IsWalk(g, g.Keys, w) && w[0] in s && k < |w|
    ensures w[k] in s
  {
    if k > 0 {
      assert StepAt(g, g.Keys, w, k);
      WalkStaysInside(g, s, w, k - 1);
    }
  }

  lemma ReachStaysInside(g: Graph, s: set<string>, x: string, y: string)
    requires ClosedUnderImports(g, s) && x in s && Reach(g, x, y)
    ensures y in s
  {
    var w :| WalkBetween(g, g.Keys, w, x, y);
    WalkStaysInside(g, s, w, |w| - 1);
  }

  /** Prefixes and suffixes of a walk are walks. */
  lemma SplitWalk(g: Graph, members: set<string>, w: seq<string>, k: nat)
    requires IsWalk(g, members, w) && k < |w|
    ensures WalkBetween(g, members, w[..k + 1], w[0], w[k])
    ensures WalkBetween(g, members, w[k..], w[k], w[|w| - 1])
  {
    var before, after := w[..k + 1], w[k..];
    forall i | 0 < i < |before| ensures StepAt(g, members, before, i) {
      assert StepAt(g, members, w, i);
    }
    forall i | 0 < i < |after| ensures StepAt(g, members, after, i) {
      assert StepAt(g, members, w, k + i);
    }
  }

  lemma SccSymmetric(g: Graph, x: string, y: string)
    requires x in g && y in Scc(g, x)
    ensures Scc(g, y) == Scc(g, x)
  {
    forall z | z in g ensures z in Scc(g, x) <==> z in Scc(g, y) {
      if z in Scc(g, x) {
        ReachTransitive(g, y, x, z);
        ReachTransitive(g, z, x, y);
      }
      if z in Scc(g, y) {
        ReachTransitive(g, x, y, z);
        ReachTransitive(g, z, y, x);
      }
    }
  }

  /** Members of a component reach each other without leaving the component. */
  lemma SccConnectedInside(g: Graph, x: string, y: string, z: string) returns (w: seq<string>)
    requires Closed(g) && x in g && y in Scc(g, x) && z in Scc(g, x)
    ensures WalkBetween(g, Scc(g, x), w, y, z)
  {
    ReachTransitive(g, y, x, z);
    w :| WalkBetween(g, g.Keys, w, y, z);
    forall k | 0 < k < |w| ensures StepAt(g, Scc(g, x), w, k) {
      assert StepAt(g, g.Keys, w, k);
      SplitWalk(g, g.Keys, w, k);
      ReachTransitive(g, x, y, w[k]);
      ReachTransitive(g, w[k], z, x);
    }
  }
}
