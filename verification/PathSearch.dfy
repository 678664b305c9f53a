/** Breadth-first search inside a component, and the cycle reported for it. */
module PathSearch {
  import opened Options
  import opened Orders
  import opened Graphs

  function Last(w: seq<string>): string
    requires w != []
  {
    w[|w| - 1]
  }

  /** The walk that `(len(path), path)` puts first among all walks from `x` to `y`. */
  ghost predicate IsLeastWalk(g: Graph, members: set<string>, p: seq<string>, x: string, y: string) {
    && WalkBetween(g, members, p, x, y)
    && forall w :: WalkBetween(g, members, w, x, y) ==> ShortLexLe(p, w)
  }

  // ------------------------------------------------------ comparing extensions

  lemma ShortLexTransitive(a: seq<string>, b: seq<string>, c: seq<string>)
    requires ShortLexLe(a, b) && ShortLexLe(b, c)
    ensures ShortLexLe(a, c)
  {
    NameLeTotal();
    if |a| == |b| == |c| {
      LexTransitive(NameLe, a, b, c);
    }
  }

  lemma ShortLexExtend(a: seq<string>, b: seq<string>, x: string, y: string)
    requires ShortLexLe(a, b) && (a == b ==> NameLe(x, y))
    ensures ShortLexLe(a + [x], b + [y])
  {
    NameLeTotal();
    if |a| == |b| {
      LexAppend(NameLe, a, b, x, y);
    }
  }

  lemma ShortLexReflexive(a: seq<string>, x: string)
    ensures ShortLexLe(a, a) && NameLe(x, x)
  {
    PathOrdersTotal();
    NameLeTotal();
  }

  // ------------------------------------------------------------ the invariant

  ghost predicate Starts(g: Graph, members: set<string>, start: string, p: seq<string>, seen: set<string>) {
    p != [] && IsWalk(g, members, p) && p[0] == start && Last(p) in seen && Last(p) in g
  }

  ghost predicate Beats(q: seq<string>, w: seq<string>) {
    q != [] && w != [] && Last(q) == Last(w) && ShortLexLe(q, w)
  }

  /** Some found path ends where `w` ends and does not come after it. */
  ghost predicate Beaten(found: seq<seq<string>>, w: seq<string>) {
    exists q {:trigger Beats(q, w)} :: q in found && Beats(q, w)
  }

  /** Some waiting path does not come after `w`. */
  ghost predicate Preceded(queue: seq<seq<string>>, w: seq<string>) {
    exists q {:trigger ShortLexLe(q, w)} :: q in queue && ShortLexLe(q, w)
  }

  ghost predicate Expanded(g: Graph, members: set<string>, found: seq<seq<string>>, p: seq<string>) {
    && p != [] && Last(p) in g
    && forall t :: t in g[Last(p)] && t in members ==> Beaten(found, p + [t])
  }

  /** `done` are the paths taken off the queue, `queue` those still on it. */
  ghost predicate Frontier(g: Graph, members: set<string>, start: string, destination: string,
                           done: seq<seq<string>>, queue: seq<seq<string>>, seen: set<string>) {
    && seen <= g.Keys
    && [start] in done + queue
    && (forall p :: p in done + queue ==> Starts(g, members, start, p, seen))
    && (forall v :: v in seen ==> exists p :: p in done + queue && EndsAt(p, v))
    && Ascending(ShortLexLe, done + queue)
    && (forall p :: p in done + queue && |p| > 1 ==> p[..|p| - 1] in done)
    && (forall p :: p in done ==> !EndsAt(p, destination))
  }

  ghost predicate EndsAt(p: seq<string>, v: string) {
    p != [] && Last(p) == v
  }

  ghost predicate AllExpanded(g: Graph, members: set<string>, found: seq<seq<string>>, done: seq<seq<string>>) {
    forall p {:trigger Expanded(g, members, found, p)} :: p in done ==> Expanded(g, members, found, p)
  }

  ghost predicate Searching(g: Graph, members: set<string>, start: string, destination: string,
                            done: seq<seq<string>>, queue: seq<seq<string>>, seen: set<string>) {
    && Frontier(g, members, start, destination, done, queue, seen)
    && AllExpanded(g, members, done + queue, done)
  }

  /** `head` has just left the queue and the first `i` of its `targets` have been looked at. */
  ghost predicate Expanding(g: Graph, members: set<string>, start: string, destination: string,
                            done: seq<seq<string>>, head: seq<string>, queue: seq<seq<string>>,
                            seen: set<string>, targets: seq<string>, i: nat) {
    && i <= |targets| && head != [] && Last(head) in g
    && Ascending(NameLe, targets) && Elements(targets) == g[Last(head)] * members
    && Frontier(g, members, start, destination, done + [head], queue, seen)
    && AllExpanded(g, members, done + [head] + queue, done)
    && (forall j {:trigger targets[j]} :: 0 <= j < i ==> Beaten(done + [head] + queue, head + [targets[j]]))
    && (forall q :: q in done + [head] + queue && |q| > 1 && q[..|q| - 1] == head ==> Last(q) in targets[..i])
  }

  lemma BeatenMonotone(found: seq<seq<string>>, more: seq<seq<string>>, w: seq<string>)
    requires Beaten(found, w)
    ensures Beaten(found + more, w)
  {
    var q :| q in found && Beats(q, w);
    assert q in found + more;
  }

  lemma BeginExpanding(g: Graph, members: set<string>, start: string, destination: string,
                       done: seq<seq<string>>, head: seq<string>, queue: seq<seq<string>>, seen: set<string>)
    requires Searching(g, members, start, destination, done, [head] + queue, seen)
    requires head != [] && Last(head) != destination
    ensures Last(head) in g
    ensures Expanding(g, members, start, destination, done, head, queue, seen,
                      Sorted(g[Last(head)] * members), 0)
  {
    hide ShortLexLe, Expanded, IsWalk, Beaten;
    assert done + ([head] + queue) == done + [head] + queue;
    var found := done + [head] + queue;
    HeadIsNew(done, head, queue);
    assert found[|done|] == head && head in found;
    hide Ascending;
    forall q | q in found && |q| > 1 ensures q[..|q| - 1] in done && q[..|q| - 1] != head {
    }
  }

  lemma HeadIsNew(done: seq<seq<string>>, head: seq<string>, queue: seq<seq<string>>)
    requires Ascending(ShortLexLe, done + [head] + queue)
    ensures head !in done
  {
    var found := done + [head] + queue;
    forall k | 0 <= k < |done| ensures done[k] != head {
      assert InOrder(ShortLexLe, found, k, |done|);
    }
  }

  /** A found path whose parent came before `head` comes before every extension of `head`. */
  lemma EarlierParent(found: seq<seq<string>>, q: seq<string>, k: nat, h: nat, t: string)
    requires Ascending(ShortLexLe, found) && k < h < |found| && |q| > 1 && found[k] == q[..|q| - 1]
    ensures ShortLexLe(q, found[h] + [t])
  {
    assert InOrder(ShortLexLe, found, k, h);
    ShortLexExtend(found[k], found[h], Last(q), t);
    assert q == found[k] + [Last(q)];
  }

  lemma SameParent(targets: seq<string>, i: nat, head: seq<string>, q: seq<string>)
    requires Ascending(NameLe, targets) && i < |targets|
    requires |q| > 1 && q[..|q| - 1] == head && Last(q) in targets[..i]
    ensures ShortLexLe(q, head + [targets[i]])
  {
    var j :| 0 <= j < i && targets[j] == Last(q);
    assert InOrder(NameLe, targets, j, i);
    ShortLexReflexive(head, Last(q));
    ShortLexExtend(head, head, Last(q), targets[i]);
    assert q == head + [Last(q)];
  }

  /** Nothing found so far comes after the next extension of `head`. */
  lemma NextIsLatest(g: Graph, members: set<string>, start: string, destination: string,
                     done: seq<seq<string>>, head: seq<string>, queue: seq<seq<string>>, seen: set<string>,
                     targets: seq<string>, i: nat, q: seq<string>)
    requires Expanding(g, members, start, destination, done, head, queue, seen, targets, i)
    requires i < |targets| && q in done + [head] + queue
    ensures q != [] && ShortLexLe(q, head + [targets[i]])
  {
    hide AllExpanded, ShortLexLe, Beaten, IsWalk;
    var found := done + [head] + queue;
    assert Starts(g, members, start, q, seen);
    if |q| == 1 {
      ShorterFirst(q, head + [targets[i]]);
    } else if q[..|q| - 1] == head {
      SameParent(targets, i, head, q);
    } else {
      assert q[..|q| - 1] in done + [head];
      var k :| 0 <= k < |done| && done[k] == q[..|q| - 1];
      assert found[|done|] == head && found[k] == done[k];
      EarlierParent(found, q, k, |done|, targets[i]);
    }
  }

  lemma ShorterFirst(a: seq<string>, b: seq<string>)
    requires |a| < |b|
    ensures ShortLexLe(a, b)
  {
  }

  lemma ExtendWalk(g: Graph, members: set<string>, w: seq<string>, t: string)
    requires IsWalk(g, members, w) && Last(w) in g && t in g[Last(w)] && t in members
    ensures IsWalk(g, members, w + [t])
  {
    var e := w + [t];
    forall i | 0 < i < |e| ensures StepAt(g, members, e, i) {
      assert i < |w| ==> StepAt(g, members, w, i);
    }
  }

  /** A target seen before has a path that does not come after the one through `head`. */
  lemma SeenIsBeaten(g: Graph, members: set<string>, start: string, destination: string,
                     done: seq<seq<string>>, head: seq<string>, queue: seq<seq<string>>, seen: set<string>,
                     targets: seq<string>, i: nat)
    requires Expanding(g, members, start, destination, done, head, queue, seen, targets, i)
    requires i < |targets| && targets[i] in seen
    ensures Beaten(done + [head] + queue, head + [targets[i]])
  {
    hide ShortLexLe, Starts, AllExpanded, Ascending, Expanded;
    var q :| q in done + [head] + queue && EndsAt(q, targets[i]);
    NextIsLatest(g, members, start, destination, done, head, queue, seen, targets, i, q);
    assert Beats(q, head + [targets[i]]);
  }

  lemma SkipSeen(g: Graph, members: set<string>, start: string, destination: string,
                 done: seq<seq<string>>, head: seq<string>, queue: seq<seq<string>>, seen: set<string>,
                 targets: seq<string>, i: nat)
    requires Expanding(g, members, start, destination, done, head, queue, seen, targets, i)
    requires i < |targets| && targets[i] in seen
    ensures Expanding(g, members, start, destination, done, head, queue, seen, targets, i + 1)
  {
    hide ShortLexLe, Frontier, AllExpanded, Ascending, Beaten;
    SeenIsBeaten(g, members, start, destination, done, head, queue, seen, targets, i);
    assert targets[..i + 1] == targets[..i] + [targets[i]];
  }

  lemma FrontierGrows(g: Graph, members: set<string>, start: string, destination: string,
                      done: seq<seq<string>>, queue: seq<seq<string>>, seen: set<string>, w: seq<string>, t: string)
    requires Frontier(g, members, start, destination, done, queue, seen) && members <= g.Keys
    requires w in done && w != [] && Last(w) in g && t in g[Last(w)] && t in members && t !in seen
    requires forall q :: q in done + queue ==> ShortLexLe(q, w + [t])
    ensures Frontier(g, members, start, destination, done, queue + [w + [t]], seen + {t})
  {
    hide ShortLexLe, IsWalk;
    var found := done + queue;
    var next := w + [t];
    assert done + (queue + [next]) == found + [next];
    assert Starts(g, members, start, w, seen);
    ExtendWalk(g, members, w, t);
    assert next[0] == start;
    forall p | p in found + [next] ensures Starts(g, members, start, p, seen + {t}) && (p in found ==> p != next) {
      if p in found {
        assert Starts(g, members, start, p, seen);
      }
    }
    AscendingAppend(ShortLexLe, found, next);
    forall v | v in seen + {t} ensures exists p :: p in found + [next] && EndsAt(p, v) {
      if v == t {
        assert EndsAt(next, t);
      } else {
        var p :| p in found && EndsAt(p, v);
        assert p in found + [next];
      }
    }
    assert next[..|next| - 1] == w;
  }

  lemma ExpandedMonotone(g: Graph, members: set<string>, found: seq<seq<string>>, next: seq<string>,
                         done: seq<seq<string>>)
    requires AllExpanded(g, members, found, done)
    ensures AllExpanded(g, members, found + [next], done)
  {
    hide Beaten;
    forall p {:trigger Expanded(g, members, found + [next], p)} | p in done
      ensures Expanded(g, members, found + [next], p)
    {
      assert Expanded(g, members, found, p);
      forall u | u in g[Last(p)] && u in members ensures Beaten(found + [next], p + [u]) {
        BeatenMonotone(found, [next], p + [u]);
      }
    }
  }

  lemma BeatenByItself(found: seq<seq<string>>, w: seq<string>)
    requires w != []
    ensures Beaten(found + [w], w)
  {
    ShortLexReflexive(w, w[0]);
    assert Beats(w, w);
  }

  lemma EnqueueNew(g: Graph, members: set<string>, start: string, destination: string,
                   done: seq<seq<string>>, head: seq<string>, queue: seq<seq<string>>, seen: set<string>,
                   targets: seq<string>, i: nat)
    requires Expanding(g, members, start, destination, done, head, queue, seen, targets, i) && members <= g.Keys
    requires i < |targets| && targets[i] !in seen
    ensures Expanding(g, members, start, destination, done, head, queue + [head + [targets[i]]], seen + {targets[i]},
                      targets, i + 1)
  {
    hide ShortLexLe, Starts, Ascending, Frontier, AllExpanded, Beaten;
    var found, t := done + [head] + queue, targets[i];
    var next := head + [t];
    assert t in Elements(targets);
    forall q | q in found ensures ShortLexLe(q, next) {
      NextIsLatest(g, members, start, destination, done, head, queue, seen, targets, i, q);
    }
    FrontierGrows(g, members, start, destination, done + [head], queue, seen, head, t);
    assert done + [head] + (queue + [next]) == found + [next];
    ExpandedMonotone(g, members, found, next, done);
    forall j {:trigger targets[j]} | 0 <= j < i + 1 ensures Beaten(found + [next], head + [targets[j]]) {
      if j < i {
        BeatenMonotone(found, [next], head + [targets[j]]);
      } else {
        BeatenByItself(found, next);
      }
    }
    assert targets[..i + 1] == targets[..i] + [t];
  }

  lemma EndExpanding(g: Graph, members: set<string>, start: string, destination: string,
                     done: seq<seq<string>>, head: seq<string>, queue: seq<seq<string>>, seen: set<string>,
                     targets: seq<string>)
    requires Expanding(g, members, start, destination, done, head, queue, seen, targets, |targets|)
    ensures Searching(g, members, start, destination, done + [head], queue, seen)
  {
    hide ShortLexLe, Starts, Ascending, Frontier;
    var found := done + [head] + queue;
    forall t | t in g[Last(head)] && t in members ensures Beaten(found, head + [t]) {
      assert t in Elements(targets);
      var j :| 0 <= j < |targets| && targets[j] == t;
    }
    assert Expanded(g, members, found, head);
  }

  lemma BeatenStep(g: Graph, members: set<string>, done: seq<seq<string>>, queue: seq<seq<string>>,
                   v: seq<string>, t: string)
    requires v != [] && Last(v) in g && t in g[Last(v)] && t in members && Beaten(done, v)
    requires AllExpanded(g, members, done + queue, done)
    ensures Beaten(done, v + [t]) || Preceded(queue, v + [t])
  {
    hide ShortLexLe;
    var p :| p in done && Beats(p, v);
    assert Expanded(g, members, done + queue, p);
    assert Beaten(done + queue, p + [t]);
    var q :| q in done + queue && Beats(q, p + [t]);
    ShortLexReflexive(p, t);
    ShortLexExtend(p, v, t, t);
    ShortLexTransitive(q, p + [t], v + [t]);
    assert Beats(q, v + [t]);
  }

  /** Every walk from `start` is matched by a finished path or preceded by a waiting one. */
  lemma {:induction false} EveryWalkMet(g: Graph, members: set<string>, start: string, destination: string,
                                        done: seq<seq<string>>, queue: seq<seq<string>>, seen: set<string>,
                                        w: seq<string>)
    requires Searching(g, members, start, destination, done, queue, seen)
    requires IsWalk(g, members, w) && w[0] == start
    ensures Beaten(done, w) || Preceded(queue, w)
    decreases |w|
  {
    hide PathLe, Ascending, Starts, Expanded;
    if |w| == 1 {
      assert w == [start];
      ShortLexReflexive(w, start);
      assert Beats(w, w);
    } else {
      var v, t := w[..|w| - 1], Last(w);
      assert w == v + [t];
      SplitWalk(g, members, w, |w| - 2);
      assert StepAt(g, members, w, |w| - 1);
      EveryWalkMet(g, members, start, destination, done, queue, seen, v);
      if Beaten(done, v) {
        BeatenStep(g, members, done, queue, v, t);
      } else {
        var q :| q in queue && ShortLexLe(q, v);
        assert ShortLexLe(v, w);
        ShortLexTransitive(q, v, w);
      }
    }
  }

  lemma SearchBegins(g: Graph, members: set<string>, start: string, destination: string)
    requires start in g
    ensures Searching(g, members, start, destination, [], [[start]], {start})
  {
    assert EndsAt([start], start);
    assert [] + [[start]] == [[start]];
  }

  lemma FoundIsLeast(g: Graph, members: set<string>, start: string, destination: string,
                     done: seq<seq<string>>, path: seq<string>, queue: seq<seq<string>>, seen: set<string>)
    requires Searching(g, members, start, destination, done, [path] + queue, seen)
    requires path != [] && Last(path) == destination
    ensures IsLeastWalk(g, members, path, start, destination)
  {
    hide ShortLexLe, Ascending, AllExpanded;
    var waiting := [path] + queue;
    assert Starts(g, members, start, path, seen) by {
      assert path in done + waiting;
    }
    forall w | WalkBetween(g, members, w, start, destination) ensures ShortLexLe(path, w) {
      EveryWalkMet(g, members, start, destination, done, waiting, seen, w);
      assert !Beaten(done, w) by {
        assert forall q :: q in done ==> !EndsAt(q, destination);
      }
      var q :| q in waiting && ShortLexLe(q, w);
      HeadIsFirst(done, waiting, q);
      ShortLexTransitive(path, q, w);
    }
  }

  lemma HeadIsFirst(done: seq<seq<string>>, queue: seq<seq<string>>, q: seq<string>)
    requires Ascending(ShortLexLe, done + queue) && q in queue
    ensures ShortLexLe(queue[0], q)
  {
    PathOrdersTotal();
    var k :| 0 <= k < |queue| && queue[k] == q;
    if k > 0 {
      assert InOrder(ShortLexLe, done + queue, |done|, |done| + k);
    }
  }

  lemma NothingFound(g: Graph, members: set<string>, start: string, destination: string,
                     done: seq<seq<string>>, seen: set<string>)
    requires Searching(g, members, start, destination, done, [], seen)
    ensures !exists w :: WalkBetween(g, members, w, start, destination)
  {
    hide ShortLexLe, Ascending, AllExpanded;
    forall w ensures WalkBetween(g, members, w, start, destination) ==> Beaten(done, w) {
      if WalkBetween(g, members, w, start, destination) {
        EveryWalkMet(g, members, start, destination, done, [], seen, w);
      }
    }
    forall w ensures Beaten(done, w) ==> !EndsAt(w, destination) {
      assert forall q :: q in done && Beats(q, w) ==> !EndsAt(q, destination);
    }
  }

  /** The least walk from `start` to `destination` inside the component, if there is one. */
  method PathWithinComponent(g: Graph, start: string, destination: string, members: set<string>)
    returns (result: Option<seq<string>>)
    requires start in g && members <= g.Keys
    ensures result.Some? ==> IsLeastWalk(g, members, result.value, start, destination)
    ensures result.None? <==> !exists w :: WalkBetween(g, members, w, start, destination)
  {
    hide Searching, Expanding, IsLeastWalk, Ascending, WalkBetween, IsWalk;
    var queue, seen := [[start]], {start};
    ghost var done := [];
    SearchBegins(g, members, start, destination);
    while queue != []
      invariant Searching(g, members, start, destination, done, queue, seen)
      decreases g.Keys - seen, |queue|
    {
      var path := queue[0];
      SearchingTypes(g, members, start, destination, done, queue, seen);
      ghost var all := queue;
      queue := queue[1..];
      assert all == [path] + queue;
      var last := Last(path);
      if last == destination {
        FoundIsLeast(g, members, start, destination, done, path, queue, seen);
        LeastIsWalk(g, members, path, start, destination);
        return Some(path);
      }
      var targets := Sorted(g[last] * members);
      BeginExpanding(g, members, start, destination, done, path, queue, seen);
      ghost var seenBefore, waiting := seen, |queue|;
      for i := 0 to |targets|
        invariant Expanding(g, members, start, destination, done, path, queue, seen, targets, i)
        invariant seenBefore <= seen
        invariant seen == seenBefore ==> |queue| == waiting
      {
        if targets[i] !in seen {
          EnqueueNew(g, members, start, destination, done, path, queue, seen, targets, i);
          seen := seen + {targets[i]};
          queue := queue + [path + [targets[i]]];
        } else {
          SkipSeen(g, members, start, destination, done, path, queue, seen, targets, i);
        }
      }
      EndExpanding(g, members, start, destination, done, path, queue, seen, targets);
      done := done + [path];
      SeenAreModules(g, members, start, destination, done, queue, seen);
    }
    NothingFound(g, members, start, destination, done, seen);
    return None;
  }

  lemma SeenAreModules(g: Graph, members: set<string>, start: string, destination: string,
                       done: seq<seq<string>>, queue: seq<seq<string>>, seen: set<string>)
    requires Searching(g, members, start, destination, done, queue, seen)
    ensures seen <= g.Keys
  {
  }

  lemma SearchingTypes(g: Graph, members: set<string>, start: string, destination: string,
                       done: seq<seq<string>>, queue: seq<seq<string>>, seen: set<string>)
    requires Searching(g, members, start, destination, done, queue, seen) && queue != []
    ensures queue[0] != [] && Last(queue[0]) in g
  {
    assert Starts(g, members, start, queue[0], seen) by {
      assert queue[0] in done + queue;
    }
  }

  lemma LeastIsWalk(g: Graph, members: set<string>, path: seq<string>, start: string, destination: string)
    requires IsLeastWalk(g, members, path, start, destination)
    ensures exists w :: WalkBetween(g, members, w, start, destination)
  {
  }

  /** Cutting out a detour between two visits of one module. */
  lemma Shortcut(g: Graph, members: set<string>, w: seq<string>, i: nat, j: nat)
    requires IsWalk(g, members, w) && i < j < |w| && w[i] == w[j]
    ensures WalkBetween(g, members, w[..i + 1] + w[j + 1..], w[0], Last(w))
  {
    SplitWalk(g, members, w, i);
    SplitWalk(g, members, w, j);
    JoinWalks(g, members, w[..i + 1], w[j..]);
    assert w[j..][1..] == w[j + 1..];
  }

  /** A path that is found visits no module twice. */
  lemma LeastWalkIsSimple(g: Graph, members: set<string>, p: seq<string>, x: string, y: string)
    requires IsLeastWalk(g, members, p, x, y)
    ensures Distinct(p)
  {
    forall i, j {:trigger Apart(p, i, j)} | 0 <= i < j < |p| ensures Apart(p, i, j) {
      if p[i] == p[j] {
        Shortcut(g, members, p, i, j);
      }
    }
  }

  // ------------------------------------------------------ representative cycles

  /** A walk of at least one import step that ends where it began. */
  ghost predicate IsClosedWalk(g: Graph, members: set<string>, w: seq<string>) {
    |w| >= 2 && IsWalk(g, members, w) && w[0] == Last(w)
  }

  ghost predicate IsLeastCycle(g: Graph, members: set<string>, c: seq<string>) {
    && IsClosedWalk(g, members, c)
    && forall w :: IsClosedWalk(g, members, w) ==> ShortLexLe(c, w)
  }

  /** Of all closed walks, `candidates` already has one no later than each with these first two modules. */
  ghost predicate Accounted(g: Graph, members: set<string>, candidates: seq<seq<string>>, s: string, t: string) {
    forall w :: IsClosedWalk(g, members, w) && w[0] == s && w[1] == t ==> Preceded(candidates, w)
  }

  lemma AccountedGrows(g: Graph, members: set<string>, candidates: seq<seq<string>>, c: seq<string>,
                       s: string, t: string)
    requires Accounted(g, members, candidates, s, t)
    ensures Accounted(g, members, candidates + [c], s, t)
  {
    forall w | IsClosedWalk(g, members, w) && w[0] == s && w[1] == t ensures Preceded(candidates + [c], w) {
      var q :| q in candidates && ShortLexLe(q, w);
      assert q in candidates + [c];
    }
  }

  lemma ClosedWalkStep(g: Graph, members: set<string>, w: seq<string>)
    requires IsClosedWalk(g, members, w)
    ensures w[0] in g && w[1] in g[w[0]] && w[0] in members && w[1] in members
    ensures WalkBetween(g, members, w[1..], w[1], w[0])
  {
    assert StepAt(g, members, w, 1) && StepAt(g, members, w, |w| - 1);
    SplitWalk(g, members, w, 1);
  }

  lemma PrependStep(g: Graph, members: set<string>, s: string, p: seq<string>)
    requires IsWalk(g, members, p) && s in g && p[0] in g[s] && p[0] in members && Last(p) == s
    ensures IsClosedWalk(g, members, [s] + p)
  {
    var c := [s] + p;
    forall i | 0 < i < |c| ensures StepAt(g, members, c, i) {
      assert i > 1 ==> StepAt(g, members, p, i - 1);
    }
  }

  lemma CandidateAccounts(g: Graph, members: set<string>, candidates: seq<seq<string>>, s: string, t: string,
                          p: seq<string>)
    requires IsLeastWalk(g, members, p, t, s) && s in g && t in g[s] && t in members
    ensures IsClosedWalk(g, members, [s] + p)
    ensures Accounted(g, members, candidates + [[s] + p], s, t)
  {
    PrependStep(g, members, s, p);
    forall w | IsClosedWalk(g, members, w) && w[0] == s && w[1] == t
      ensures Preceded(candidates + [[s] + p], w)
    {
      ClosedWalkStep(g, members, w);
      assert w == [s] + w[1..];
      assert ShortLexLe(p, w[1..]);
      assert ShortLexLe([s] + p, w) by { assert ([s] + p)[1..] == p; }
      assert [s] + p in candidates + [[s] + p];
    }
  }

  lemma NoCandidateAccounts(g: Graph, members: set<string>, candidates: seq<seq<string>>, s: string, t: string)
    requires !exists w :: WalkBetween(g, members, w, t, s)
    ensures Accounted(g, members, candidates, s, t)
  {
    forall w | IsClosedWalk(g, members, w) && w[0] == s ensures w[1] != t {
      ClosedWalkStep(g, members, w);
    }
  }

  /** `min(candidates, key=lambda path: (len(path), path))` */
  function LeastOf(candidates: seq<seq<string>>): (c: seq<string>)
    requires candidates != []
    ensures c in candidates && forall d :: d in candidates ==> ShortLexLe(c, d)
  {
    if |candidates| == 1 then
      ShortLexReflexive(candidates[0], "");
      candidates[0]
    else
      var rest := LeastOf(candidates[1..]);
      assert candidates == [candidates[0]] + candidates[1..];
      PathOrdersTotal();
      if ShortLexLe(candidates[0], rest) then candidates[0] else rest
  }

  /** The first candidate by `(len, path)`; `None` where Python's `min` has nothing to choose from. */
  method RepresentativeCycle(component: seq<string>, g: Graph) returns (result: Option<seq<string>>)
    requires Elements(component) <= g.Keys
    ensures result.Some? ==> IsLeastCycle(g, Elements(component), result.value)
    ensures result.None? <==> !exists w :: IsClosedWalk(g, Elements(component), w)
  {
    hide Accounted, IsClosedWalk, IsLeastWalk, IsWalk, WalkBetween;
    var members := Elements(component);
    var candidates: seq<seq<string>> := [];
    for i := 0 to |component|
      invariant forall c :: c in candidates ==> IsClosedWalk(g, members, c)
      invariant forall k, t :: 0 <= k < i && t in g[component[k]] * members
                               ==> Accounted(g, members, candidates, component[k], t)
    {
      var source := component[i];
      assert source in members;
      var targets := Sorted(g[source] * members);
      for j := 0 to |targets|
        invariant forall c :: c in candidates ==> IsClosedWalk(g, members, c)
        invariant forall k, t :: 0 <= k < i && t in g[component[k]] * members
                                 ==> Accounted(g, members, candidates, component[k], t)
        invariant forall k :: 0 <= k < j ==> Accounted(g, members, candidates, source, targets[k])
      {
        var target := targets[j];
        assert target in Elements(targets);
        var returnPath := PathWithinComponent(g, target, source, members);
        if returnPath.Some? {
          var candidate := [source] + returnPath.value;
          CandidateAccounts(g, members, candidates, source, target, returnPath.value);
          forall s, t | Accounted(g, members, candidates, s, t)
            ensures Accounted(g, members, candidates + [candidate], s, t)
          {
            AccountedGrows(g, members, candidates, candidate, s, t);
          }
          candidates := candidates + [candidate];
        } else {
          NoCandidateAccounts(g, members, candidates, source, target);
        }
      }
      assert forall t :: t in g[source] * members ==> t in Elements(targets);
    }
    AllAccounted(g, component, candidates);
    if candidates == [] {
      return None;
    }
    return Some(LeastOf(candidates));
  }

  lemma AllAccounted(g: Graph, component: seq<string>, candidates: seq<seq<string>>)
    requires Elements(component) <= g.Keys
    requires forall k :: 0 <= k < |component| ==> component[k] in g
    requires forall k, t :: 0 <= k < |component| && t in g[component[k]] * Elements(component)
                            ==> Accounted(g, Elements(component), candidates, component[k], t)
    requires forall c :: c in candidates ==> IsClosedWalk(g, Elements(component), c)
    ensures candidates == [] <==> !exists w :: IsClosedWalk(g, Elements(component), w)
    ensures candidates != [] ==> IsLeastCycle(g, Elements(component), LeastOf(candidates))
  {
    var members := Elements(component);
    forall w | IsClosedWalk(g, members, w)
      ensures Preceded(candidates, w) && (candidates != [] ==> ShortLexLe(LeastOf(candidates), w))
    {
      ClosedWalkStep(g, members, w);
      var k :| 0 <= k < |component| && component[k] == w[0];
      assert w[1] in g[component[k]] * members;
      assert Accounted(g, members, candidates, component[k], w[1]);
      var q :| q in candidates && ShortLexLe(q, w);
      ShortLexTransitive(LeastOf(candidates), q, w);
    }
    if candidates != [] {
      assert IsClosedWalk(g, members, LeastOf(candidates));
    }
  }

  /** The reported cycle passes each of its modules once before closing. */
  lemma LeastCycleIsSimple(g: Graph, members: set<string>, c: seq<string>)
    requires IsLeastCycle(g, members, c)
    ensures Distinct(c[1..])
  {
    var rest := c[1..];
    forall i, j {:trigger Apart(rest, i, j)} | 0 <= i < j < |rest| ensures Apart(rest, i, j) {
      if rest[i] == rest[j] {
        assert c[i + 1] == c[j + 1];
        Shortcut(g, members, c, i + 1, j + 1);
        var shorter := c[..i + 2] + c[j + 2..];
        assert IsClosedWalk(g, members, shorter);
      }
    }
  }

  lemma LeastCycleUnique(g: Graph, members: set<string>, c: seq<string>, d: seq<string>)
    requires IsLeastCycle(g, members, c) && IsLeastCycle(g, members, d)
    ensures c == d
  {
    PathOrdersTotal();
  }

  /** The cycle is shorter than every other closed walk, or as long and first by its names. */
  lemma LeastCycleFirst(g: Graph, members: set<string>, c: seq<string>, w: seq<string>)
    requires IsLeastCycle(g, members, c) && IsClosedWalk(g, members, w)
    ensures c == w || |c| < |w| || (|c| == |w| && PathBefore(c, w))
  {
    hide IsClosedWalk, PathLe, PathBefore;
    PathLeExact(c, w);
  }
}
