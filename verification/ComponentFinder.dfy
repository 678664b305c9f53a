/** Tarjan's algorithm as the import checker runs it: a class whose fields change at every visit. */
module ComponentFinders {
  import opened Orders
  import opened Graphs

  /** The fields of a finder at one moment. */
  datatype Progress = Progress(
    index: nat,
    indices: map<string, nat>,
    lowlinks: map<string, nat>,
    stack: seq<string>,
    onStack: set<string>,
    components: seq<seq<string>>)
  {
    /** Visited modules whose component is complete. */
    function Done(): set<string> {
      indices.Keys - onStack
    }
  }

  // ------------------------------------------------------------ the invariant

  /** The visit of stack entry `i` began before that of entry `j`. */
  ghost predicate Earlier(p: Progress, i: int, j: int) {
    && 0 <= i < j < |p.stack| && p.stack[i] in p.indices && p.stack[j] in p.indices
    && p.indices[p.stack[i]] < p.indices[p.stack[j]]
  }

  /** Bookkeeping: the three indexes of the stack agree, and indices grow along it. */
  ghost predicate Tidy(g: Graph, p: Progress) {
    && p.onStack == Elements(p.stack)
    && p.onStack <= p.indices.Keys <= g.Keys
    && p.lowlinks.Keys == p.indices.Keys
    && (forall x :: x in p.indices ==> p.indices[x] < p.index)
    && Ordered(p)
  }

  ghost predicate Ordered(p: Progress) {
    forall i, j {:trigger Earlier(p, i, j)} :: 0 <= i < j < |p.stack| ==> Earlier(p, i, j)
  }

  lemma OrderedPrefix(p: Progress, q: Progress)
    requires Ordered(p) && q.stack <= p.stack && q.indices == p.indices
    ensures Ordered(q)
  {
    forall i, j {:trigger Earlier(q, i, j)} | 0 <= i < j < |q.stack| ensures Earlier(q, i, j) {
      assert Earlier(p, i, j);
    }
  }

  lemma OrderedPush(p: Progress, q: Progress, v: string)
    requires Ordered(p) && q.stack == p.stack + [v] && v !in p.indices && q.indices == p.indices[v := p.index]
    requires forall x :: x in p.stack ==> x in p.indices && p.indices[x] < p.index
    ensures Ordered(q)
  {
    forall i, j {:trigger Earlier(q, i, j)} | 0 <= i < j < |q.stack| ensures Earlier(q, i, j) {
      assert q.stack[i] in p.stack;
      if j < |p.stack| {
        assert Earlier(p, i, j);
      }
    }
  }

  lemma OrderedDistinct(p: Progress)
    requires Ordered(p)
    ensures Distinct(p.stack)
  {
    forall i, j {:trigger Apart(p.stack, i, j)} | 0 <= i < j < |p.stack| ensures Apart(p.stack, i, j) {
      assert Earlier(p, i, j);
    }
  }

  ghost predicate LowlinkNames(g: Graph, p: Progress, x: string, y: string) {
    && x in p.lowlinks && y in p.indices && y in p.onStack
    && p.indices[y] == p.lowlinks[x] && Reach(g, x, y)
  }

  /** A lowlink is the index of a module on the stack that can be reached, no later than one's own. */
  ghost predicate LowlinkAt(g: Graph, p: Progress, x: string) {
    && x in p.indices && x in p.lowlinks && p.lowlinks[x] <= p.indices[x]
    && exists y :: LowlinkNames(g, p, x, y)
  }

  ghost predicate FallsBackTo(g: Graph, p: Progress, active: set<string>, y: string, x: string) {
    && y in p.indices && x in p.indices && x in active
    && p.indices[x] <= p.indices[y] && Reach(g, y, x)
  }

  /** `y` on the stack reaches some active module that is no higher on the stack. */
  ghost predicate ReturnsToActive(g: Graph, p: Progress, active: set<string>, y: string) {
    exists x :: FallsBackTo(g, p, active, y, x)
  }

  /** `active` holds the modules whose visit has begun and not ended. */
  ghost predicate Linked(g: Graph, p: Progress, active: set<string>)
    requires Tidy(g, p) && active <= p.onStack
  {
    && (forall x :: x in p.indices && x !in active ==> g[x] <= p.indices.Keys)
    && ClosedUnderImports(g, p.Done())
    && (forall y {:trigger ReturnsToActive(g, p, active, y)} :: y in p.onStack ==> ReturnsToActive(g, p, active, y))
    && (forall x, y :: x in active && y in p.onStack && p.indices[x] <= p.indices[y] ==> Reach(g, x, y))
    && (forall x {:trigger LowlinkAt(g, p, x)} :: x in p.onStack ==> LowlinkAt(g, p, x))
  }

  ghost predicate IsComponent(g: Graph, c: seq<string>) {
    |c| > 1 && exists x :: x in g && c == Sorted(Scc(g, x))
  }

  /** The recorded components are exactly those of the finished modules, each once. */
  ghost predicate Recorded(g: Graph, done: set<string>, components: seq<seq<string>>) {
    && (forall c :: c in components ==> IsComponent(g, c) && Elements(c) <= done)
    && (forall x {:trigger Scc(g, x)} :: x in done && x in g && |Scc(g, x)| > 1 ==> Sorted(Scc(g, x)) in components)
    && Distinct(components)
  }

  ghost predicate Sound(g: Graph, p: Progress, active: set<string>) {
    Tidy(g, p) && active <= p.onStack && Linked(g, p, active)
  }

  ghost predicate Invariant(g: Graph, p: Progress, active: set<string>) {
    Sound(g, p, active) && Recorded(g, p.Done(), p.components)
  }

  /** What a visit leaves alone. */
  ghost predicate Extends(before: Progress, after: Progress) {
    && before.indices.Keys <= after.indices.Keys
    && before.lowlinks.Keys <= after.lowlinks.Keys
    && (forall x :: x in before.indices ==> after.indices[x] == before.indices[x])
    && (forall x :: x in before.lowlinks ==> after.lowlinks[x] == before.lowlinks[x])
    && before.stack <= after.stack
    && before.index <= after.index
    && (forall x :: x in after.indices && x !in before.indices ==> before.index <= after.indices[x])
  }

  /** Modules on the stack of `after` above the stack of `before`. */
  function Above(before: Progress, after: Progress): set<string> {
    after.onStack - before.onStack
  }

  /** `bound` is no later than any module of the old stack that one of `sources` imports. */
  ghost predicate Covers(g: Graph, before: Progress, sources: set<string>, bound: int) {
    forall x, y {:trigger y in g[x]} ::
      (x in sources && x in g && y in g[x] && y in before.onStack && y in before.indices)
      ==> bound <= before.indices[y]
  }

  // ---------------------------------------------- the state changes of a visit

  function Entered(p: Progress, v: string): Progress {
    p.(index := p.index + 1, indices := p.indices[v := p.index], lowlinks := p.lowlinks[v := p.index],
       stack := p.stack + [v], onStack := p.onStack + {v})
  }

  lemma EnterKeepsTidy(g: Graph, p: Progress, v: string)
    requires Tidy(g, p) && v in g && v !in p.indices
    ensures Tidy(g, Entered(p, v)) && Entered(p, v).Done() == p.Done()
    ensures Extends(p, Entered(p, v))
  {
    OrderedPush(p, Entered(p, v), v);
    assert forall x :: x in p.stack + [v] <==> x in p.stack || x == v;
  }

  lemma EnterKeepsPointers(g: Graph, p: Progress, active: set<string>, v: string, y: string)
    requires Sound(g, p, active) && v in g && v !in p.indices && y in p.onStack
    ensures ReturnsToActive(g, Entered(p, v), active + {v}, y) && LowlinkAt(g, Entered(p, v), y)
  {
    assert ReturnsToActive(g, p, active, y);
    var x :| FallsBackTo(g, p, active, y, x);
    assert FallsBackTo(g, Entered(p, v), active + {v}, y, x);
    assert LowlinkAt(g, p, y);
    var z :| LowlinkNames(g, p, y, z);
    assert LowlinkNames(g, Entered(p, v), y, z);
  }

  lemma EnterKeepsInvariant(g: Graph, p: Progress, active: set<string>, v: string)
    requires Closed(g) && Invariant(g, p, active)
    requires v in g && v !in p.indices && forall x :: x in active ==> Reach(g, x, v)
    ensures Invariant(g, Entered(p, v), active + {v})
  {
    hide Recorded;
    var q := Entered(p, v);
    EnterKeepsTidy(g, p, v);
    ReachSelf(g, v);
    forall y {:trigger ReturnsToActive(g, q, active + {v}, y)} {:trigger LowlinkAt(g, q, y)} | y in q.onStack
      ensures ReturnsToActive(g, q, active + {v}, y) && LowlinkAt(g, q, y)
    {
      if y == v {
        assert FallsBackTo(g, q, active + {v}, v, v) && LowlinkNames(g, q, v, v);
      } else {
        EnterKeepsPointers(g, p, active, v, y);
      }
    }
  }

  lemma LowerKeepsSound(g: Graph, p: Progress, active: set<string>, v: string, n: nat, z: string)
    requires Sound(g, p, active) && v in p.onStack && n <= p.lowlinks[v]
    requires z in p.onStack && p.indices[z] == n && Reach(g, v, z)
    ensures Sound(g, p.(lowlinks := p.lowlinks[v := n]), active)
  {
    var q := p.(lowlinks := p.lowlinks[v := n]);
    OrderedPrefix(p, q);
    assert q.Done() == p.Done();
    forall x {:trigger LowlinkAt(g, q, x)} | x in q.onStack
      ensures LowlinkAt(g, q, x)
    {
      assert LowlinkAt(g, p, x);
      var y :| LowlinkNames(g, p, x, y);
      assert LowlinkNames(g, q, x, if x == v then z else y);
    }
    forall y {:trigger ReturnsToActive(g, q, active, y)} | y in q.onStack
      ensures ReturnsToActive(g, q, active, y)
    {
      assert ReturnsToActive(g, p, active, y);
      var x :| FallsBackTo(g, p, active, y, x);
      assert FallsBackTo(g, q, active, y, x);
    }
  }

  /** The state just before a visit of `v` decides whether to pop. */
  ghost predicate Grown(g: Graph, before: Progress, p: Progress, v: string) {
    && Tidy(g, before) && Tidy(g, p) && Extends(before, p)
    && v in p.indices && p.indices[v] == before.index
    && |before.stack| < |p.stack| && p.stack[|before.stack|] == v
  }

  ghost predicate AllTargetsSeen(g: Graph, before: Progress, p: Progress, active: set<string>, v: string) {
    && Sound(g, p, active + {v})
    && Grown(g, before, p, v)
    && active <= before.onStack && v in g
    && g[v] <= p.indices.Keys
    && Covers(g, before, Above(before, p), p.lowlinks[v])
  }

  /** Below its own index, `v`'s lowlink leads on to a module whose visit began earlier. */
  lemma FallsBelow(g: Graph, before: Progress, p: Progress, active: set<string>, v: string) returns (a: string)
    requires AllTargetsSeen(g, before, p, active, v) && p.lowlinks[v] != p.indices[v]
    ensures a in active && a in p.indices && p.indices[a] < p.indices[v] && Reach(g, v, a)
  {
    assert v in p.onStack && LowlinkAt(g, p, v);
    var z :| LowlinkNames(g, p, v, z);
    assert ReturnsToActive(g, p, active + {v}, z);
    a :| FallsBackTo(g, p, active + {v}, z, a);
    ReachTransitive(g, v, z, a);
  }

  lemma LeaveKeepsInvariant(g: Graph, before: Progress, p: Progress, active: set<string>, v: string)
    requires AllTargetsSeen(g, before, p, active, v) && p.lowlinks[v] != p.indices[v]
    requires Recorded(g, p.Done(), p.components)
    ensures Invariant(g, p, active)
  {
    hide Recorded;
    var a := FallsBelow(g, before, p, active, v);
    forall y {:trigger ReturnsToActive(g, p, active, y)} | y in p.onStack
      ensures ReturnsToActive(g, p, active, y)
    {
      assert ReturnsToActive(g, p, active + {v}, y);
      var x :| FallsBackTo(g, p, active + {v}, y, x);
      if x == v {
        ReachTransitive(g, y, v, a);
        assert FallsBackTo(g, p, active, y, a);
      } else {
        assert FallsBackTo(g, p, active, y, x);
      }
    }
  }

  lemma OldStackIsBelow(g: Graph, before: Progress, p: Progress, v: string)
    requires Grown(g, before, p, v)
    ensures before.onStack <= p.onStack && Above(before, p) == Elements(p.stack[|before.stack|..])
    ensures forall y :: y in before.onStack ==> p.indices[y] < p.indices[v]
    ensures forall y :: y in Above(before, p) ==> p.indices[v] <= p.indices[y]
    ensures v in Above(before, p)
  {
    var n := |before.stack|;
    assert p.stack == before.stack + p.stack[n..];
    forall i | 0 <= i < |p.stack|
      ensures if i < n then p.indices[p.stack[i]] < p.indices[v] else p.indices[v] <= p.indices[p.stack[i]]
    {
      assert i < n ==> Earlier(p, i, n);
      assert n < i ==> Earlier(p, n, i);
    }
    assert forall y :: y in p.stack[n..] ==> p.indices[v] <= p.indices[y];
    assert forall y :: y in p.stack <==> y in before.stack || y in p.stack[n..];
  }

  /** With nothing earlier in reach, the segment above `v` and the finished modules are closed. */
  lemma SegmentClosed(g: Graph, before: Progress, p: Progress, active: set<string>, v: string)
    requires AllTargetsSeen(g, before, p, active, v) && p.lowlinks[v] == p.indices[v]
    ensures ClosedUnderImports(g, Above(before, p) + p.Done())
  {
    OldStackIsBelow(g, before, p, v);
    forall x, y | x in Above(before, p) && x in g && y in g[x] ensures y in Above(before, p) + p.Done() {
      assert y in p.indices;
      assert y !in before.onStack;
    }
  }

  /** ... so the segment is the component of `v`. */
  lemma SegmentIsComponent(g: Graph, before: Progress, p: Progress, active: set<string>, v: string)
    requires AllTargetsSeen(g, before, p, active, v) && p.lowlinks[v] == p.indices[v]
    ensures Above(before, p) == Scc(g, v)
  {
    OldStackIsBelow(g, before, p, v);
    SegmentClosed(g, before, p, active, v);
    forall y | y in Above(before, p) ensures y in Scc(g, v) {
      assert ReturnsToActive(g, p, active + {v}, y);
      var x :| FallsBackTo(g, p, active + {v}, y, x);
      ReachStaysInside(g, Above(before, p) + p.Done(), y, x);
      assert x == v;
    }
    forall y | y in Scc(g, v) ensures y in Above(before, p) {
      ReachStaysInside(g, Above(before, p) + p.Done(), v, y);
      if y in p.Done() {
        ReachStaysInside(g, p.Done(), y, v);
        assert false;
      }
    }
  }

  function Popped(before: Progress, p: Progress, components: seq<seq<string>>): Progress {
    p.(stack := before.stack, onStack := before.onStack, components := components)
  }

  /** `_visit`'s last two lines. */
  function Report(components: seq<seq<string>>, component: seq<string>): seq<seq<string>> {
    if |component| > 1 then components + [component] else components
  }

  lemma PopKeepsPointers(g: Graph, before: Progress, p: Progress, active: set<string>, v: string,
                         components: seq<seq<string>>, y: string)
    requires AllTargetsSeen(g, before, p, active, v) && y in before.onStack
    ensures ReturnsToActive(g, Popped(before, p, components), active, y)
    ensures LowlinkAt(g, Popped(before, p, components), y)
  {
    var q := Popped(before, p, components);
    OldStackIsBelow(g, before, p, v);
    assert ReturnsToActive(g, p, active + {v}, y);
    var x :| FallsBackTo(g, p, active + {v}, y, x);
    assert FallsBackTo(g, q, active, y, x);
    assert LowlinkAt(g, p, y);
    var z :| LowlinkNames(g, p, y, z);
    assert LowlinkNames(g, q, y, z);
  }

  lemma PopKeepsSound(g: Graph, before: Progress, p: Progress, active: set<string>, v: string,
                      components: seq<seq<string>>)
    requires AllTargetsSeen(g, before, p, active, v) && p.lowlinks[v] == p.indices[v]
    ensures Sound(g, Popped(before, p, components), active)
  {
    var q := Popped(before, p, components);
    OldStackIsBelow(g, before, p, v);
    SegmentClosed(g, before, p, active, v);
    assert q.Done() == Above(before, p) + p.Done();
    OrderedPrefix(p, q);
    forall y {:trigger ReturnsToActive(g, q, active, y)} {:trigger LowlinkAt(g, q, y)} | y in q.onStack
      ensures ReturnsToActive(g, q, active, y) && LowlinkAt(g, q, y)
    {
      PopKeepsPointers(g, before, p, active, v, components, y);
    }
  }

  lemma NewComponentIsNew(g: Graph, done: set<string>, components: seq<seq<string>>, v: string)
    requires Recorded(g, done, components) && v in g && v !in done
    ensures Sorted(Scc(g, v)) !in components
  {
    ReachSelf(g, v);
    assert v in Scc(g, v);
    assert v in Elements(Sorted(Scc(g, v)));
  }

  lemma RecordedAreComponents(g: Graph, done: set<string>, components: seq<seq<string>>, v: string)
    requires Recorded(g, done, components) && v in g
    ensures forall d :: d in Report(components, Sorted(Scc(g, v)))
                        ==> IsComponent(g, d) && Elements(d) <= done + Scc(g, v)
  {
    forall d | d in Report(components, Sorted(Scc(g, v)))
      ensures IsComponent(g, d) && Elements(d) <= done + Scc(g, v)
    {
      assert d in components || d == Sorted(Scc(g, v));
    }
  }

  lemma FinishedAreRecorded(g: Graph, done: set<string>, components: seq<seq<string>>, v: string, x: string)
    requires Recorded(g, done, components) && v in g
    requires x in done + Scc(g, v) && x in g && |Scc(g, x)| > 1
    ensures Sorted(Scc(g, x)) in Report(components, Sorted(Scc(g, v)))
  {
    if x in Scc(g, v) {
      SccSymmetric(g, v, x);
    }
  }

  lemma PopKeepsRecorded(g: Graph, done: set<string>, components: seq<seq<string>>, v: string)
    requires Recorded(g, done, components) && v in g && v !in done
    ensures Recorded(g, done + Scc(g, v), Report(components, Sorted(Scc(g, v))))
  {
    NewComponentIsNew(g, done, components, v);
    DistinctAppend(components, Sorted(Scc(g, v)));
    RecordedAreComponents(g, done, components, v);
    forall x {:trigger Scc(g, x)} | x in done + Scc(g, v) && x in g && |Scc(g, x)| > 1
      ensures Sorted(Scc(g, x)) in Report(components, Sorted(Scc(g, v)))
    {
      FinishedAreRecorded(g, done, components, v, x);
    }
  }

  lemma SegmentFinished(g: Graph, before: Progress, p: Progress, active: set<string>, v: string,
                        component: seq<string>, components: seq<seq<string>>)
    requires AllTargetsSeen(g, before, p, active, v) && p.lowlinks[v] == p.indices[v]
    requires Distinct(component) && Elements(component) == Elements(p.stack[|before.stack|..])
    ensures SortedList(component) == Sorted(Scc(g, v)) && v !in p.Done()
    ensures Popped(before, p, components).Done() == p.Done() + Scc(g, v)
  {
    OldStackIsBelow(g, before, p, v);
    SegmentIsComponent(g, before, p, active, v);
    SortedListIsSorted(component);
  }

  /** The whole of a visit's ending with a pop. */
  lemma PopKeepsInvariant(g: Graph, before: Progress, p: Progress, active: set<string>, v: string,
                          component: seq<string>, q: Progress)
    requires AllTargetsSeen(g, before, p, active, v) && p.lowlinks[v] == p.indices[v]
    requires Recorded(g, p.Done(), p.components)
    requires Distinct(component) && Elements(component) == Elements(p.stack[|before.stack|..])
    requires q == Popped(before, p, Report(p.components, SortedList(component)))
    ensures Invariant(g, q, active)
  {
    assert Sound(g, q, active) by {
      PopKeepsSound(g, before, p, active, v, q.components);
    }
    assert Recorded(g, q.Done(), q.components) by {
      SegmentFinished(g, before, p, active, v, component, q.components);
      PopKeepsRecorded(g, p.Done(), p.components, v);
    }
  }

  // ------------------------------------------------- the loop over the imports

  ghost predicate Handled(before: Progress, p: Progress, v: string, target: string) {
    && v in p.lowlinks && target in p.indices
    && (target in before.onStack ==> p.lowlinks[v] <= p.indices[target])
  }

  /** What the loop over `v`'s imports keeps, with the first `n` of `targets` handled. */
  ghost predicate Visiting(g: Graph, before: Progress, p: Progress, v: string, targets: seq<string>, n: nat) {
    && Grown(g, before, p, v)
    && v in p.onStack && v !in before.onStack
    && Covers(g, before, Above(before, p) - {v}, p.lowlinks[v])
    && (forall j {:trigger targets[j]} :: 0 <= j < n <= |targets| ==> Handled(before, p, v, targets[j]))
  }

  function Min(a: nat, b: nat): nat {
    if b < a then b else a
  }

  function Lowered(p: Progress, v: string, n: nat): Progress
    requires v in p.lowlinks
  {
    p.(lowlinks := p.lowlinks[v := Min(p.lowlinks[v], n)])
  }

  lemma LoweredGrown(g: Graph, before: Progress, p: Progress, v: string, n: nat)
    requires Grown(g, before, p, v)
    ensures Grown(g, before, Lowered(p, v, n), v)
  {
    OrderedPrefix(p, Lowered(p, v, n));
  }

  /** After the recursive visit of `target`: `p` before it, `q` after it. */
  ghost predicate Returned(g: Graph, p: Progress, q: Progress, target: string) {
    && Extends(p, q) && Tidy(g, q)
    && target in q.indices && q.indices[target] == p.index
    && (target !in q.onStack ==> q.stack == p.stack && q.lowlinks[target] == q.indices[target])
    && Covers(g, p, Above(p, q), q.lowlinks[target])
  }

  lemma ReturnedGrown(g: Graph, before: Progress, p: Progress, q: Progress, v: string, target: string)
    requires Grown(g, before, p, v) && Returned(g, p, q, target)
    ensures Grown(g, before, q, v) && before.onStack <= p.onStack <= q.onStack
  {
    assert forall x :: x in p.stack ==> x in q.stack;
    assert forall x :: x in before.stack ==> x in p.stack;
  }

  lemma StepOverVisited(g: Graph, before: Progress, p: Progress, q: Progress, v: string,
                        targets: seq<string>, i: nat)
    requires Visiting(g, before, p, v, targets, i) && i < |targets|
    requires targets[i] !in p.indices && Returned(g, p, q, targets[i])
    ensures v in q.lowlinks
    ensures Visiting(g, before, Lowered(q, v, q.lowlinks[targets[i]]), v, targets, i + 1)
  {
    ReturnedGrown(g, before, p, q, v, targets[i]);
    LoweredGrown(g, before, q, v, q.lowlinks[targets[i]]);
    assert Above(before, q) == Above(before, p) + Above(p, q);
  }

  lemma ReturnKeepsInvariant(g: Graph, p: Progress, q: Progress, active: set<string>, v: string, target: string)
    requires Closed(g) && v in g && target in g[v] && v in p.onStack && v in p.indices && Tidy(g, p)
    requires Returned(g, p, q, target) && Invariant(g, q, active) && v in active
    ensures v in q.lowlinks && Invariant(g, Lowered(q, v, q.lowlinks[target]), active)
  {
    hide Recorded;
    assert Lowered(q, v, q.lowlinks[target]).Done() == q.Done();
    if target in q.onStack {
      assert LowlinkAt(g, q, target);
      var z :| LowlinkNames(g, q, target, z);
      ReachEdge(g, v, target);
      ReachTransitive(g, v, target, z);
      if q.lowlinks[target] < q.lowlinks[v] {
        LowerKeepsSound(g, q, active, v, q.lowlinks[target], z);
      } else {
        assert Lowered(q, v, q.lowlinks[target]) == q;
      }
    } else {
      assert LowlinkAt(g, q, v);
      assert Lowered(q, v, q.lowlinks[target]) == q;
    }
  }

  lemma StepOverStacked(g: Graph, before: Progress, p: Progress, v: string, targets: seq<string>, i: nat)
    requires Visiting(g, before, p, v, targets, i) && i < |targets|
    requires targets[i] in p.onStack && targets[i] in p.indices
    ensures Visiting(g, before, Lowered(p, v, p.indices[targets[i]]), v, targets, i + 1)
  {
    LoweredGrown(g, before, p, v, p.indices[targets[i]]);
  }

  lemma StackedKeepsInvariant(g: Graph, p: Progress, active: set<string>, v: string, target: string)
    requires Closed(g) && Invariant(g, p, active) && v in g && target in g[v] && v in p.onStack && v in p.lowlinks
    requires target in p.onStack && target in p.indices
    ensures Invariant(g, Lowered(p, v, p.indices[target]), active)
  {
    hide Recorded;
    assert Lowered(p, v, p.indices[target]).Done() == p.Done();
    ReachEdge(g, v, target);
    if p.indices[target] < p.lowlinks[v] {
      LowerKeepsSound(g, p, active, v, p.indices[target], target);
    } else {
      assert Lowered(p, v, p.indices[target]) == p;
    }
  }

  lemma StepOverFinished(g: Graph, before: Progress, p: Progress, v: string, targets: seq<string>, i: nat)
    requires Visiting(g, before, p, v, targets, i) && i < |targets|
    requires targets[i] !in p.onStack && targets[i] in p.indices
    ensures Visiting(g, before, p, v, targets, i + 1)
  {
    OldStackIsBelow(g, before, p, v);
  }

  /** What a visit promises its caller. */
  ghost predicate Visited(g: Graph, before: Progress, p: Progress, active: set<string>, v: string) {
    && Invariant(g, p, active) && Returned(g, before, p, v)
  }

  lemma VisitedGrows(g: Graph, before: Progress, p: Progress, active: set<string>, v: string)
    requires Visited(g, before, p, active, v)
    ensures Invariant(g, p, active) && before.indices.Keys <= p.indices.Keys && v in p.indices
  {
  }

  lemma LeaveVisits(g: Graph, before: Progress, p: Progress, active: set<string>, v: string)
    requires AllTargetsSeen(g, before, p, active, v) && p.lowlinks[v] != p.indices[v]
    requires Recorded(g, p.Done(), p.components)
    ensures Visited(g, before, p, active, v)
  {
    LeaveKeepsInvariant(g, before, p, active, v);
  }

  lemma PopVisits(g: Graph, before: Progress, p: Progress, active: set<string>, v: string,
                  component: seq<string>, q: Progress)
    requires AllTargetsSeen(g, before, p, active, v) && p.lowlinks[v] == p.indices[v]
    requires Recorded(g, p.Done(), p.components)
    requires Distinct(component) && Elements(component) == Elements(p.stack[|before.stack|..])
    requires q == Popped(before, p, Report(p.components, SortedList(component)))
    ensures Visited(g, before, q, active, v)
  {
    PopKeepsInvariant(g, before, p, active, v, component, q);
    assert Above(before, q) == {};
  }

  /** All that holds at the head of the loop in a visit of `v`. */
  ghost predicate InVisit(g: Graph, before: Progress, p: Progress, active: set<string>, v: string,
                          targets: seq<string>, n: nat) {
    && Closed(g) && v in g && Elements(targets) == g[v]
    && active <= before.onStack && (forall x :: x in active ==> Reach(g, x, v))
    && Visiting(g, before, p, v, targets, n)
    && Invariant(g, p, active + {v})
  }

  lemma EnterVisit(g: Graph, before: Progress, active: set<string>, v: string, targets: seq<string>)
    requires Closed(g) && Invariant(g, before, active) && v in g && v !in before.indices
    requires forall x :: x in active ==> Reach(g, x, v)
    requires Elements(targets) == g[v]
    ensures InVisit(g, before, Entered(before, v), active, v, targets, 0)
  {
    hide Linked, Recorded;
    EnterKeepsTidy(g, before, v);
    EnterKeepsInvariant(g, before, active, v);
  }

  lemma BeforeTarget(g: Graph, before: Progress, p: Progress, active: set<string>, v: string,
                     targets: seq<string>, i: nat)
    requires InVisit(g, before, p, active, v, targets, i) && i < |targets|
    ensures targets[i] in g && forall x :: x in active + {v} ==> Reach(g, x, targets[i])
    ensures Invariant(g, p, active + {v})
  {
    hide Linked, Recorded, Visiting;
    var target := targets[i];
    assert target in Elements(targets);
    ReachEdge(g, v, target);
    forall x | x in active ensures Reach(g, x, target) {
      ReachTransitive(g, x, v, target);
    }
  }

  lemma AfterTarget(g: Graph, before: Progress, p: Progress, q: Progress, active: set<string>, v: string,
                    targets: seq<string>, i: nat)
    requires InVisit(g, before, p, active, v, targets, i) && i < |targets| && targets[i] !in p.indices
    requires Visited(g, p, q, active + {v}, targets[i])
    ensures v in q.lowlinks && targets[i] in q.lowlinks && v in q.indices && p.indices.Keys <= q.indices.Keys
    ensures InVisit(g, before, Lowered(q, v, q.lowlinks[targets[i]]), active, v, targets, i + 1)
  {
    hide Linked, Recorded, Reach;
    assert targets[i] in Elements(targets);
    StepOverVisited(g, before, p, q, v, targets, i);
    ReturnKeepsInvariant(g, p, q, active + {v}, v, targets[i]);
  }

  lemma StackedTarget(g: Graph, before: Progress, p: Progress, active: set<string>, v: string,
                      targets: seq<string>, i: nat)
    requires InVisit(g, before, p, active, v, targets, i) && i < |targets|
    requires targets[i] in p.onStack && targets[i] in p.indices
    ensures v in p.lowlinks
    ensures InVisit(g, before, Lowered(p, v, p.indices[targets[i]]), active, v, targets, i + 1)
  {
    hide Linked, Recorded, Reach;
    assert targets[i] in Elements(targets);
    StepOverStacked(g, before, p, v, targets, i);
    StackedKeepsInvariant(g, p, active + {v}, v, targets[i]);
  }

  lemma FinishedTarget(g: Graph, before: Progress, p: Progress, active: set<string>, v: string,
                       targets: seq<string>, i: nat)
    requires InVisit(g, before, p, active, v, targets, i) && i < |targets|
    requires targets[i] !in p.onStack && targets[i] in p.indices
    ensures InVisit(g, before, p, active, v, targets, i + 1)
  {
    hide Linked, Recorded, Reach;
    StepOverFinished(g, before, p, v, targets, i);
  }

  lemma AllHandled(g: Graph, before: Progress, p: Progress, active: set<string>, v: string, targets: seq<string>)
    requires InVisit(g, before, p, active, v, targets, |targets|)
    ensures AllTargetsSeen(g, before, p, active, v) && Recorded(g, p.Done(), p.components)
    ensures p.onStack == Elements(p.stack) && Distinct(p.stack)
    ensures |before.stack| < |p.stack| && p.stack[|before.stack|] == v && p.stack[..|before.stack|] == before.stack
    ensures before.onStack == Elements(before.stack)
  {
    hide Linked, Recorded, Reach;
    assert forall y :: y in g[v] ==> y in Elements(targets);
    OrderedDistinct(p);
  }

  // --------------------------------------------------------------- the result

  /** The reportable components of `g`: each once, largest first, names in order. */
  ghost predicate IsSccReport(g: Graph, report: seq<seq<string>>) {
    && (forall c :: c in report ==> IsComponent(g, c))
    && (forall x {:trigger Scc(g, x)} :: x in g && |Scc(g, x)| > 1 ==> Sorted(Scc(g, x)) in report)
    && Ascending(LargestFirst, report)
  }

  lemma InitiallyInvariant(g: Graph)
    ensures Invariant(g, Progress(0, map[], map[], [], {}, []), {})
  {
  }

  /** Between visits the stack is empty, so every visited module is in a finished component. */
  lemma NothingActive(g: Graph, p: Progress)
    requires Invariant(g, p, {})
    ensures p.onStack == {} && p.Done() == p.indices.Keys && Recorded(g, p.indices.Keys, p.components)
    ensures Distinct(p.components) && p.indices.Keys <= g.Keys
  {
    assert forall x :: x in p.onStack ==> ReturnsToActive(g, p, {}, x);
    assert forall x :: !ReturnsToActive(g, p, {}, x);
    assert p.Done() == p.indices.Keys;
  }

  lemma AllRecorded(g: Graph, components: seq<seq<string>>, report: seq<seq<string>>)
    requires Recorded(g, g.Keys, components)
    requires Ascending(LargestFirst, report) && Elements(report) == Elements(components)
    ensures IsSccReport(g, report)
  {
    forall c ensures c in report <==> c in components {
      assert c in report <==> c in Elements(report);
      assert c in components <==> c in Elements(components);
    }
  }

  /** Larger components come first; at equal size the one whose names come first. */
  lemma LargerComponentsFirst(g: Graph, report: seq<seq<string>>, i: nat, j: nat)
    requires IsSccReport(g, report) && i < j < |report|
    ensures |report[i]| >= |report[j]|
    ensures |report[i]| == |report[j]| ==> PathBefore(report[i], report[j])
  {
    hide IsComponent, Scc, PathLe, PathBefore;
    assert InOrder(LargestFirst, report, i, j);
    PathLeExact(report[i], report[j]);
  }

  /** Inside a component the names stand in order. */
  lemma ComponentNamesInOrder(g: Graph, report: seq<seq<string>>, c: seq<string>, i: nat, j: nat)
    requires IsSccReport(g, report) && c in report && i < j < |c|
    ensures NameBefore(c[i], c[j])
  {
    hide Scc, NameLe, NameBefore;
    assert IsComponent(g, c);
    NamesInOrder(c, i, j);
  }

  /** The report is a function of the graph. */
  lemma ReportDependsOnlyOnGraph(g: Graph, a: seq<seq<string>>, b: seq<seq<string>>)
    requires IsSccReport(g, a) && IsSccReport(g, b)
    ensures a == b
  {
    PathOrdersTotal();
    forall c ensures c in Elements(a) <==> c in Elements(b) {
      if IsComponent(g, c) {
        var x :| x in g && c == Sorted(Scc(g, x));
        assert c in a && c in b;
      }
    }
    AscendingUnique(LargestFirst, a, b);
  }

  lemma ReportedComponentOf(g: Graph, report: seq<seq<string>>, c: seq<string>, x: string)
    requires IsSccReport(g, report) && c in report && x in c
    ensures x in g && c == Sorted(Scc(g, x))
  {
    hide Reach;
    assert IsComponent(g, c);
    var z :| z in g && c == Sorted(Scc(g, z));
    assert x in Elements(c);
    SccSymmetric(g, z, x);
  }

  /** Reported components do not overlap, and two modules share one exactly when each reaches the other. */
  lemma ReportPartitions(g: Graph, report: seq<seq<string>>, x: string, y: string)
    requires IsSccReport(g, report) && x in g && y in g && x != y
    ensures (exists c :: c in report && x in c && y in c) <==> Reach(g, x, y) && Reach(g, y, x)
    ensures forall c, d :: c in report && d in report && x in c && x in d ==> c == d
  {
    hide Reach, Ascending;
    forall c | c in report && x in c ensures c == Sorted(Scc(g, x)) {
      ReportedComponentOf(g, report, c, x);
    }
    ReachSelf(g, x);
    var own := Sorted(Scc(g, x));
    assert forall z :: z in own <==> z in Elements(own);
    if Reach(g, x, y) && Reach(g, y, x) {
      TwoMembers(Scc(g, x), x, y);
      assert own in report && x in own && y in own;
    }
  }

  lemma TwoMembers(s: set<string>, x: string, y: string)
    requires x in s && y in s && x != y
    ensures |s| > 1
  {
    assert |s - {x}| > 0 by { assert y in s - {x}; }
  }

  lemma AppendElement(a: seq<string>, x: string, b: seq<string>)
    requires Elements(a) == Elements(b)
    ensures Elements(a + [x]) == Elements([x] + b)
  {
    assert forall y :: y in a <==> y in Elements(a);
    assert forall y :: y in b <==> y in Elements(b);
  }

  class ComponentFinder {
    const graph: Graph
    var index: nat
    var indices: map<string, nat>
    var lowlinks: map<string, nat>
    var stack: seq<string>
    var onStack: set<string>
    var components: seq<seq<string>>

    constructor (graph: Graph)
      ensures this.graph == graph
      ensures Now() == Progress(0, map[], map[], [], {}, []) && Invariant(graph, Now(), {})
    {
      InitiallyInvariant(graph);
      this.graph := graph;
      index, indices, lowlinks, stack, onStack, components := 0, map[], map[], [], {}, [];
    }

    function Now(): Progress
      reads this
    {
      Progress(index, indices, lowlinks, stack, onStack, components)
    }

    method Find() returns (report: seq<seq<string>>)
      requires Closed(graph) && Invariant(graph, Now(), {})
      modifies this
      ensures IsSccReport(graph, report)
      ensures Invariant(graph, Now(), {}) && onStack == {} && indices.Keys == graph.Keys
    {
      hide Linked, Recorded, Reach, Distinct, IsSccReport, Tidy, Visited;
      var modules := Sorted(graph.Keys);
      for i := 0 to |modules|
        invariant Invariant(graph, Now(), {})
        invariant forall j {:trigger modules[j]} :: 0 <= j < i ==> modules[j] in indices
      {
        assert modules[i] in Elements(modules);
        if modules[i] !in indices {
          ghost var p := Now();
          Visit(modules[i], {});
          VisitedGrows(graph, p, Now(), {}, modules[i]);
        }
      }
      assert graph.Keys <= indices.Keys by {
        assert forall m :: m in graph.Keys ==> m in Elements(modules);
      }
      NothingActive(graph, Now());
      PathOrdersTotal();
      report := SortSeq(LargestFirst, components);
      AllRecorded(graph, components, report);
    }

    method PopComponent(root: string, ghost k: nat) returns (component: seq<string>)
      requires onStack == Elements(stack) && Distinct(stack)
      requires k < |stack| && stack[k] == root
      modifies this`stack, this`onStack
      ensures stack == old(stack)[..k] && onStack == Elements(stack)
      ensures Elements(component) == Elements(old(stack)[k..])
      ensures Distinct(component)
    {
      component := [];
      while true
        invariant k < |stack| <= |old(stack)|
        invariant stack == old(stack)[..|stack|] && onStack == Elements(stack) && Distinct(stack)
        invariant Elements(component) == Elements(old(stack)[|stack|..])
        invariant Distinct(component) && Elements(component) !! onStack
        decreases |stack|
      {
        DistinctInit(stack);
        ghost var n := |stack|;
        var popped := stack[|stack| - 1];
        stack := stack[..|stack| - 1];
        onStack := onStack - {popped};
        assert old(stack)[|stack|..] == [popped] + old(stack)[n..];
        assert forall x :: x in component ==> x in Elements(component);
        AppendElement(component, popped, old(stack)[n..]);
        DistinctAppend(component, popped);
        component := component + [popped];
        if popped == root {
          return;
        }
      }
    }

    method Visit(v: string, ghost active: set<string>)
      requires Closed(graph) && v in graph && v !in indices
      requires Invariant(graph, Now(), active)
      requires forall x :: x in active ==> Reach(graph, x, v)
      modifies this
      ensures Visited(graph, old(Now()), Now(), active, v)
      decreases graph.Keys - indices.Keys
    {
      hide Invariant, InVisit, Visited, Reach, AllTargetsSeen, Recorded, Distinct, Closed, Ascending, SortedList;
      ghost var before := Now();
      indices := indices[v := index];
      lowlinks := lowlinks[v := index];
      index := index + 1;
      stack := stack + [v];
      onStack := onStack + {v};

      var targets := Sorted(graph[v]);
      EnterVisit(graph, before, active, v, targets);
      assert Now() == Entered(before, v);
      for i := 0 to |targets|
        invariant InVisit(graph, before, Now(), active, v, targets, i)
        invariant v in indices && v in lowlinks && old(indices).Keys <= indices.Keys
      {
        var target := targets[i];
        ghost var p := Now();
        if target !in indices {
          BeforeTarget(graph, before, p, active, v, targets, i);
          Visit(target, active + {v});
          ghost var q := Now();
          AfterTarget(graph, before, p, q, active, v, targets, i);
          lowlinks := lowlinks[v := Min(lowlinks[v], lowlinks[target])];
          assert Now() == Lowered(q, v, q.lowlinks[target]);
        } else if target in onStack {
          StackedTarget(graph, before, p, active, v, targets, i);
          lowlinks := lowlinks[v := Min(lowlinks[v], indices[target])];
          assert Now() == Lowered(p, v, p.indices[target]);
        } else {
          FinishedTarget(graph, before, p, active, v, targets, i);
        }
      }

      ghost var p := Now();
      AllHandled(graph, before, p, active, v, targets);
      if lowlinks[v] != indices[v] {
        LeaveVisits(graph, before, p, active, v);
        return;
      }
      var component := PopComponent(v, |before.stack|);
      if |component| > 1 {
        components := components + [SortedList(component)];
      }
      assert Now() == Popped(before, p, Report(p.components, SortedList(component)));
      PopVisits(graph, before, p, active, v, component, Now());
    }
  }

  method StronglyConnectedComponents(graph: Graph) returns (report: seq<seq<string>>)
    requires Closed(graph)
    ensures IsSccReport(graph, report)
  {
    var finder := new ComponentFinder(graph);
    report := finder.Find();
  }
}
