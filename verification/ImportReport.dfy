/** Building the import graph, analysing it and printing the report. */
module ImportReports {
  import opened Options
  import opened Orders
  import opened Graphs
  import opened ComponentFinders
  import opened PathSearch

  datatype ImportEdge = ImportEdge(source: string, target: string, path: string, line: nat)

  /** One candidate name of one import statement found in `source`. */
  datatype ImportSite = ImportSite(source: string, candidate: string, line: nat)

  datatype Report = Report(
    modules: seq<string>,
    edges: seq<ImportEdge>,
    forbidden: seq<ImportEdge>,
    cycles: seq<seq<string>>)
  {
    predicate IsValid() {
      forbidden == [] && cycles == []
    }
  }

  /** Dataclass order: source, target, path, line. */
  predicate EdgeLe(a: ImportEdge, b: ImportEdge) {
    if a.source != b.source then NameLe(a.source, b.source)
    else if a.target != b.target then NameLe(a.target, b.target)
    else if a.path != b.path then NameLe(a.path, b.path)
    else a.line <= b.line
  }

  lemma EdgeLeTotal()
    ensures TotalOrder(EdgeLe)
  {
    hide NameLe;
    NameLeTotal();
  }

  /** By source, target and path as names, then by the earlier line. */
  ghost predicate EdgeBefore(a: ImportEdge, b: ImportEdge) {
    || NameBefore(a.source, b.source)
    || (a.source == b.source && NameBefore(a.target, b.target))
    || (a.source == b.source && a.target == b.target && NameBefore(a.path, b.path))
    || (a.source == b.source && a.target == b.target && a.path == b.path && a.line < b.line)
  }

  lemma EdgesInOrder(edges: seq<ImportEdge>, i: nat, j: nat)
    requires Ascending(EdgeLe, edges) && i < j < |edges|
    ensures EdgeBefore(edges[i], edges[j])
  {
    hide NameLe, NameBefore;
    var a, b := edges[i], edges[j];
    assert InOrder(EdgeLe, edges, i, j);
    NameLeExact(a.source, b.source);
    NameLeExact(a.target, b.target);
    NameLeExact(a.path, b.path);
  }

  // ----------------------------------------------------- resolving one import

  /** `m` is `c` or one of its parent packages. */
  predicate DottedPrefix(m: string, c: string) {
    m != "" && m <= c && (m == c || c[|m|] == '.')
  }

  ghost predicate IsResolution(modules: set<string>, candidate: string, m: string) {
    && m in modules && DottedPrefix(m, candidate)
    && forall n :: n in modules && DottedPrefix(n, candidate) ==> |n| <= |m|
  }

  /** `s.rpartition(".")[0]` */
  function BeforeLastDot(s: string): (p: string)
    ensures p == "" || (|p| < |s| && p == s[..|p|] && s[|p|] == '.')
    ensures forall k :: |p| < k < |s| ==> s[k] != '.'
  {
    if s == "" then ""
    else if s[|s| - 1] == '.' then s[..|s| - 1]
    else
      var p := BeforeLastDot(s[..|s| - 1]);
      assert forall k :: 0 <= k < |s| - 1 ==> s[..|s| - 1][k] == s[k];
      p
  }

  method ResolveModule(candidate: string, modules: set<string>) returns (r: Option<string>)
    ensures r.Some? ==> IsResolution(modules, candidate, r.value)
    ensures r.None? <==> forall m :: m in modules ==> !DottedPrefix(m, candidate)
  {
    var current := candidate;
    while current != ""
      invariant current == "" || DottedPrefix(current, candidate)
      invariant forall m :: m in modules && DottedPrefix(m, candidate) ==> |m| <= |current|
      decreases |current|
    {
      if current in modules {
        return Some(current);
      }
      var parent := BeforeLastDot(current);
      forall m | m in modules && DottedPrefix(m, candidate) ensures |m| <= |parent| {
        assert m == candidate[..|m|] && current == candidate[..|current|];
        assert m != current;
        assert current[|m|] == '.';
      }
      current := parent;
    }
    return None;
  }

  // -------------------------------------------------------- building the graph

  predicate InPackage(package: string, candidate: string) {
    candidate == package || package + "." <= candidate
  }

  /** The edge that one import site contributes, if it contributes one. */
  ghost predicate Contributes(modulePaths: map<string, string>, package: string, site: ImportSite, e: ImportEdge) {
    && site.source in modulePaths
    && InPackage(package, site.candidate)
    && IsResolution(modulePaths.Keys, site.candidate, e.target)
    && e.target != site.source
    && e.source == site.source && e.path == modulePaths[site.source] && e.line == site.line
  }

  /** The edges of the whole package. */
  ghost function PackageEdges(modulePaths: map<string, string>, package: string, sites: seq<ImportSite>)
    : set<ImportEdge>
  {
    set s, t | s in sites && t in modulePaths && s.source in modulePaths
               && Contributes(modulePaths, package, s, ImportEdge(s.source, t, modulePaths[s.source], s.line))
      :: ImportEdge(s.source, t, modulePaths[s.source], s.line)
  }

  lemma PackageEdgesExact(modulePaths: map<string, string>, package: string, sites: seq<ImportSite>, e: ImportEdge)
    ensures e in PackageEdges(modulePaths, package, sites)
            <==> exists s :: s in sites && Contributes(modulePaths, package, s, e)
  {
    if s :| s in sites && Contributes(modulePaths, package, s, e) {
      assert e == ImportEdge(s.source, e.target, modulePaths[s.source], s.line);
    }
  }

  function Targets(edges: set<ImportEdge>, source: string): set<string> {
    set e | e in edges && e.source == source :: e.target
  }

  /** The graph with exactly these modules and edges. */
  function EdgeGraph(modules: set<string>, edges: set<ImportEdge>): Graph {
    map m | m in modules :: Targets(edges, m)
  }

  ghost predicate Endpoints(modules: set<string>, edges: set<ImportEdge>) {
    forall e :: e in edges ==> e.source in modules && e.target in modules
  }

  lemma AddEdge(modules: set<string>, edges: set<ImportEdge>, e: ImportEdge)
    requires e.source in modules
    ensures EdgeGraph(modules, edges + {e})
         == EdgeGraph(modules, edges)[e.source := Targets(edges, e.source) + {e.target}]
  {
    forall m
      ensures Targets(edges + {e}, m) == if m == e.source then Targets(edges, m) + {e.target} else Targets(edges, m)
    {
      assert e in edges + {e};
    }
  }

  lemma EdgeGraphClosed(modules: set<string>, edges: set<ImportEdge>)
    requires Endpoints(modules, edges)
    ensures Closed(EdgeGraph(modules, edges))
  {
  }

  lemma ResolutionUnique(modules: set<string>, candidate: string, m: string, n: string)
    requires IsResolution(modules, candidate, m) && IsResolution(modules, candidate, n)
    ensures m == n
  {
    assert m == candidate[..|m|] && n == candidate[..|n|];
  }

  /** What one site adds to the edges found so far: its one contribution, or nothing. */
  ghost predicate Added(modulePaths: map<string, string>, package: string, site: ImportSite,
                        before: set<ImportEdge>, after: set<ImportEdge>) {
    forall e :: e in after <==> e in before || Contributes(modulePaths, package, site, e)
  }

  lemma SiteAdds(modulePaths: map<string, string>, package: string, site: ImportSite, target: string,
                 before: set<ImportEdge>)
    requires site.source in modulePaths && InPackage(package, site.candidate)
    requires IsResolution(modulePaths.Keys, site.candidate, target) && target != site.source
    ensures Added(modulePaths, package, site, before,
                  before + {ImportEdge(site.source, target, modulePaths[site.source], site.line)})
  {
    forall e | Contributes(modulePaths, package, site, e) ensures e.target == target {
      ResolutionUnique(modulePaths.Keys, site.candidate, e.target, target);
    }
  }

  lemma SiteAddsNothing(modulePaths: map<string, string>, package: string, site: ImportSite, before: set<ImportEdge>)
    requires !InPackage(package, site.candidate)
          || (forall m :: m in modulePaths ==> !DottedPrefix(m, site.candidate))
          || IsResolution(modulePaths.Keys, site.candidate, site.source)
    ensures Added(modulePaths, package, site, before, before)
  {
    forall e ensures !Contributes(modulePaths, package, site, e) {
      if IsResolution(modulePaths.Keys, site.candidate, site.source)
         && IsResolution(modulePaths.Keys, site.candidate, e.target) {
        ResolutionUnique(modulePaths.Keys, site.candidate, e.target, site.source);
      }
    }
  }

  lemma MoreSites(modulePaths: map<string, string>, package: string, sites: seq<ImportSite>, site: ImportSite,
                  before: set<ImportEdge>, after: set<ImportEdge>)
    requires forall e :: e in before <==> exists s :: s in sites && Contributes(modulePaths, package, s, e)
    requires Added(modulePaths, package, site, before, after)
    ensures forall e :: e in after <==> exists s :: s in sites + [site] && Contributes(modulePaths, package, s, e)
  {
    forall e ensures e in after <==> exists s :: s in sites + [site] && Contributes(modulePaths, package, s, e) {
      if e in before {
        var s :| s in sites && Contributes(modulePaths, package, s, e);
        assert s in sites + [site];
      }
      if Contributes(modulePaths, package, site, e) {
        assert site in sites + [site];
      }
    }
  }

  method BuildImportGraph(modulePaths: map<string, string>, package: string, sites: seq<ImportSite>)
    returns (graph: Graph, edges: seq<ImportEdge>)
    requires forall s :: s in sites ==> s.source in modulePaths
    ensures forall e :: e in edges <==> exists s :: s in sites && Contributes(modulePaths, package, s, e)
    ensures Ascending(EdgeLe, edges)
    ensures graph == EdgeGraph(modulePaths.Keys, Elements(edges))
    ensures Endpoints(modulePaths.Keys, Elements(edges))
  {
    var modules := modulePaths.Keys;
    graph := map m | m in modules :: {};
    var found: set<ImportEdge> := {};
    assert forall m :: Targets(found, m) == {};
    for i := 0 to |sites|
      invariant graph == EdgeGraph(modules, found)
      invariant forall e :: e in found <==> exists s :: s in sites[..i] && Contributes(modulePaths, package, s, e)
    {
      var site := sites[i];
      ghost var before := found;
      assert sites[..i + 1] == sites[..i] + [site];
      if !InPackage(package, site.candidate) {
        SiteAddsNothing(modulePaths, package, site, found);
      } else {
        var target := ResolveModule(site.candidate, modules);
        if target.None? || target.value == site.source {
          SiteAddsNothing(modulePaths, package, site, found);
        } else {
          var edge := ImportEdge(site.source, target.value, modulePaths[site.source], site.line);
          AddEdge(modules, found, edge);
          SiteAdds(modulePaths, package, site, target.value, found);
          graph := graph[site.source := graph[site.source] + {target.value}];
          found := found + {edge};
        }
      }
      MoreSites(modulePaths, package, sites[..i], site, before, found);
    }
    assert sites[..|sites|] == sites;
    EdgeLeTotal();
    edges := SortSet(EdgeLe, found);
    assert forall e :: e in edges <==> e in Elements(edges);
  }

  // ---------------------------------------------------------------- analysing

  /** `text == prefix or text.startswith(prefix + ".")` */
  predicate Within(prefix: string, text: string) {
    text == prefix || prefix + "." <= text
  }

  predicate IsForbidden(edge: ImportEdge, package: string) {
    var models, services, tasks := package + ".models", package + ".services", package + ".tasks";
    || ((Within(models, edge.source) || edge.source == package + ".multitenancy.models")
        && (Within(services, edge.target) || Within(tasks, edge.target)))
    || (Within(services, edge.source) && (Within(tasks, edge.target) || edge.target == package + ".apps"))
  }

  /** Both tests of names go by whole dotted parts. */
  lemma WithinIsDotted(prefix: string, text: string)
    requires prefix != ""
    ensures Within(prefix, text) <==> DottedPrefix(prefix, text)
    ensures InPackage(prefix, text) <==> DottedPrefix(prefix, text)
  {
    if prefix < text {
      assert prefix + "." <= text <==> text[|prefix|] == '.' by {
        assert text[..|prefix|] == prefix;
        assert text[|prefix|] == '.' ==> text[..|prefix| + 1] == prefix + ".";
        assert prefix + "." <= text ==> text[..|prefix| + 1] == prefix + ".";
      }
    }
  }

  /** The layers of a package, from the bottom up. */
  const LAYERS: seq<string> := [".models", ".services", ".tasks"]

  /** Among the three layers exactly the imports from a lower to a higher one are forbidden. */
  lemma ForbiddenGoesUp(package: string, edge: ImportEdge, low: nat, high: nat)
    requires low < 3 && high < 3
    requires Within(package + LAYERS[low], edge.source) && Within(package + LAYERS[high], edge.target)
    ensures IsForbidden(edge, package) <==> low < high
  {
    LayerOf(package, edge.source, low);
    LayerOf(package, edge.target, high);
    hide Within;
    assert LAYERS[0] == ".models" && LAYERS[1] == ".services" && LAYERS[2] == ".tasks";
  }

  lemma LayerLetters(package: string, text: string, k: nat)
    requires k < 3 && Within(package + LAYERS[k], text)
    ensures |text| > |package| + 2 && text[|package| + 1] == LAYERS[k][1] && text[|package| + 2] == LAYERS[k][2]
  {
    var prefix := package + LAYERS[k];
    assert prefix <= text by {
      if prefix != text {
        assert text[..|prefix|] == (prefix + ".")[..|prefix|];
      }
    }
    assert prefix[|package| + 1] == LAYERS[k][1] && prefix[|package| + 2] == LAYERS[k][2];
  }

  /** A module is in one layer at most, and in a layer it is none of the two modules that are named apart. */
  lemma LayerOf(package: string, text: string, k: nat)
    requires k < 3 && Within(package + LAYERS[k], text)
    ensures forall j: nat :: j < 3 && Within(package + LAYERS[j], text) ==> j == k
    ensures text != package + ".multitenancy.models" && text != package + ".apps"
  {
    LayerLetters(package, text, k);
    forall j: nat | j < 3 && Within(package + LAYERS[j], text) ensures j == k {
      LayerLetters(package, text, j);
    }
    var n := |package| + 1;
    assert (package + ".multitenancy.models")[n + 1] == 'u' && (package + ".apps")[n] == 'a';
  }

  /** Three more pairs are forbidden, and nothing else: models of the tenancy package, and the app configuration. */
  lemma ForbiddenElsewhere(package: string, edge: ImportEdge)
    requires forall low: nat, high: nat :: low < 3 && high < 3
               ==> !(Within(package + LAYERS[low], edge.source) && Within(package + LAYERS[high], edge.target))
    ensures IsForbidden(edge, package) <==>
              || (edge.source == package + ".multitenancy.models"
                  && (Within(package + ".services", edge.target) || Within(package + ".tasks", edge.target)))
              || (Within(package + ".services", edge.source) && edge.target == package + ".apps")
  {
    hide Within;
    assert LAYERS[0] == ".models" && LAYERS[1] == ".services" && LAYERS[2] == ".tasks";
  }

  function ForbiddenEdges(edges: seq<ImportEdge>, package: string): (r: seq<ImportEdge>)
    ensures forall e :: e in r <==> e in edges && IsForbidden(e, package)
  {
    if edges == [] then [] else
      assert edges == [edges[0]] + edges[1..];
      (if IsForbidden(edges[0], package) then [edges[0]] else []) + ForbiddenEdges(edges[1..], package)
  }

  /** Filtering keeps the order, so the forbidden edges stand as they do among all edges. */
  lemma {:induction false} ForbiddenInOrder(edges: seq<ImportEdge>, package: string)
    requires Ascending(EdgeLe, edges)
    ensures Ascending(EdgeLe, ForbiddenEdges(edges, package))
  {
    hide EdgeLe, IsForbidden;
    if edges != [] {
      var rest := ForbiddenEdges(edges[1..], package);
      AscendingTail(EdgeLe, edges);
      ForbiddenInOrder(edges[1..], package);
      forall e | e in Elements(rest) ensures EdgeLe(edges[0], e) && e != edges[0] {
        var j :| 0 <= j < |edges| - 1 && edges[1..][j] == e;
        assert InOrder(EdgeLe, edges, 0, j + 1);
      }
      PrependLeast(EdgeLe, edges[0], rest, Elements(rest));
      assert [] + rest == rest;
    }
  }

  ghost predicate NoSelfImports(g: Graph) {
    forall m :: m in g ==> m !in g[m]
  }

  ghost predicate Acyclic(g: Graph) {
    forall w :: !IsClosedWalk(g, g.Keys, w)
  }

  /** A reported component contains a closed walk, so a representative cycle can be chosen. */
  lemma ComponentHasCycle(g: Graph, c: seq<string>) returns (w: seq<string>)
    requires Closed(g) && IsComponent(g, c)
    ensures IsClosedWalk(g, Elements(c), w) && Elements(c) <= g.Keys
  {
    var x :| x in g && c == Sorted(Scc(g, x));
    var y, z := c[0], c[1];
    assert y != z by { assert InOrder(NameLe, c, 0, 1); }
    assert y in Elements(c) && z in Elements(c);
    var there := SccConnectedInside(g, x, y, z);
    var back := SccConnectedInside(g, x, z, y);
    JoinWalks(g, Scc(g, x), there, back);
    w := there + back[1..];
  }

  /** Conversely the modules of a closed walk are in one component, of two modules at least. */
  lemma CycleInComponent(g: Graph, w: seq<string>)
    requires Closed(g) && NoSelfImports(g) && IsClosedWalk(g, g.Keys, w)
    ensures w[0] in g && |Scc(g, w[0])| > 1
  {
    var x, y := w[0], w[1];
    ClosedWalkStep(g, g.Keys, w);
    ReachSelf(g, x);
    ReachEdge(g, x, y);
    assert Reach(g, y, x);
    TwoMembers(Scc(g, x), x, y);
  }

  lemma ComponentBreaksAcyclicity(g: Graph, c: seq<string>)
    requires Closed(g) && IsComponent(g, c)
    ensures !Acyclic(g)
  {
    hide IsComponent, IsClosedWalk;
    var w := ComponentHasCycle(g, c);
    WalkWidens(g, Elements(c), g.Keys, w);
  }

  lemma NoComponentsIffAcyclic(g: Graph, cycles: seq<seq<string>>)
    requires Closed(g) && NoSelfImports(g) && IsSccReport(g, cycles)
    ensures cycles == [] <==> Acyclic(g)
  {
    hide IsClosedWalk, Reach, IsComponent, Closed, NoSelfImports, Sorted;
    if cycles != [] {
      assert cycles[0] in cycles;
      ComponentBreaksAcyclicity(g, cycles[0]);
    } else {
      forall w ensures !IsClosedWalk(g, g.Keys, w) {
        if IsClosedWalk(g, g.Keys, w) {
          CycleInComponent(g, w);
        }
      }
    }
  }

  lemma WalkWidens(g: Graph, members: set<string>, more: set<string>, w: seq<string>)
    requires IsClosedWalk(g, members, w) && members <= more
    ensures IsClosedWalk(g, more, w)
  {
    forall i | 0 < i < |w| ensures StepAt(g, more, w, i) {
      assert StepAt(g, members, w, i);
    }
  }

  function GraphOf(report: Report): Graph {
    EdgeGraph(Elements(report.modules), Elements(report.edges))
  }

  /** Every lookup that printing makes succeeds on such a report. */
  ghost predicate Printable(report: Report) {
    && Endpoints(Elements(report.modules), Elements(report.edges))
    && forall c :: c in report.cycles ==> HasCycleInside(GraphOf(report), c)
  }

  ghost predicate HasCycleInside(g: Graph, c: seq<string>) {
    Elements(c) <= g.Keys && exists w :: IsClosedWalk(g, Elements(c), w)
  }

  method AnalyzeImportArchitecture(modulePaths: map<string, string>, package: string, sites: seq<ImportSite>)
    returns (report: Report)
    requires forall s :: s in sites ==> s.source in modulePaths
    ensures report.modules == Sorted(modulePaths.Keys)
    ensures forall e :: e in report.edges <==> exists s :: s in sites && Contributes(modulePaths, package, s, e)
    ensures Ascending(EdgeLe, report.edges)
    ensures forall e :: e in report.forbidden <==> e in report.edges && IsForbidden(e, package)
    ensures Ascending(EdgeLe, report.forbidden)
    ensures IsSccReport(GraphOf(report), report.cycles)
    ensures report.cycles == [] <==> Acyclic(GraphOf(report))
    ensures Printable(report)
  {
    hide EdgeLe, IsSccReport, Acyclic, IsForbidden, EdgeGraph;
    var graph, edges := BuildImportGraph(modulePaths, package, sites);
    BuiltGraph(modulePaths, package, sites, graph, edges);
    var cycles := StronglyConnectedComponents(graph);
    report := Report(Sorted(modulePaths.Keys), edges, ForbiddenEdges(edges, package), cycles);
    ForbiddenInOrder(edges, package);
    NoComponentsIffAcyclic(graph, cycles);
    ComponentsPrintable(graph, cycles);
  }

  lemma BuiltGraph(modulePaths: map<string, string>, package: string, sites: seq<ImportSite>,
                   graph: Graph, edges: seq<ImportEdge>)
    requires forall e :: e in edges <==> exists s :: s in sites && Contributes(modulePaths, package, s, e)
    requires graph == EdgeGraph(modulePaths.Keys, Elements(edges))
    requires Endpoints(modulePaths.Keys, Elements(edges))
    ensures graph.Keys == modulePaths.Keys && Closed(graph) && NoSelfImports(graph)
  {
    EdgeGraphClosed(modulePaths.Keys, Elements(edges));
    forall m | m in graph ensures m !in graph[m] {
      forall e | e in Elements(edges) && e.source == m ensures e.target != m {
        var s :| s in sites && Contributes(modulePaths, package, s, e);
      }
    }
  }

  lemma ComponentsPrintable(g: Graph, cycles: seq<seq<string>>)
    requires Closed(g) && IsSccReport(g, cycles)
    ensures forall c :: c in cycles ==> HasCycleInside(g, c)
  {
    forall c | c in cycles ensures HasCycleInside(g, c) {
      var w := ComponentHasCycle(g, c);
    }
  }

  // ----------------------------------------------------------------- printing

  /** The lines of the printed report, before they are laid out as text. */
  datatype ReportLine =
    | AllClear(modules: nat, edges: nat)
    | Title
    | ForbiddenHeading
    | ForbiddenEdge(forbidden: ImportEdge)
    | CyclesHeading
    | ComponentHeading(size: nat)
    | CycleStep(edge: ImportEdge)

  /** The first edge from `s` to `t`: what `setdefault` keeps. */
  function Location(edges: seq<ImportEdge>, s: string, t: string): (r: Option<ImportEdge>)
    ensures r.Some? ==> r.value in edges && r.value.source == s && r.value.target == t
    ensures r.None? ==> forall e :: e in edges ==> !(e.source == s && e.target == t)
  {
    if edges == [] then None
    else
      var last := edges[|edges| - 1];
      var earlier := Location(edges[..|edges| - 1], s, t);
      assert edges == edges[..|edges| - 1] + [last];
      if earlier.Some? then earlier
      else if last.source == s && last.target == t then Some(last)
      else None
  }

  /** The printed location is the least of all imports of `t` by `s`. */
  lemma {:induction false} LocationIsLeast(edges: seq<ImportEdge>, s: string, t: string, e: ImportEdge)
    requires Ascending(EdgeLe, edges) && e in edges && e.source == s && e.target == t
    ensures Location(edges, s, t).Some? && EdgeLe(Location(edges, s, t).value, e)
  {
    hide EdgeLe;
    EdgeLeTotal();
    var n := |edges| - 1;
    var shorter := edges[..n];
    forall i, j {:trigger InOrder(EdgeLe, shorter, i, j)} | 0 <= i < j < n ensures InOrder(EdgeLe, shorter, i, j) {
      assert InOrder(EdgeLe, edges, i, j);
    }
    assert edges == shorter + [edges[n]];
    var k :| 0 <= k < |edges| && edges[k] == e;
    if k < n {
      assert shorter[k] == e;
      LocationIsLeast(shorter, s, t, e);
    } else {
      var earlier := Location(shorter, s, t);
      if earlier.Some? {
        var i :| 0 <= i < n && shorter[i] == earlier.value;
        assert InOrder(EdgeLe, edges, i, n);
      }
    }
  }

  /** Every step of `cycle` is the import at some recorded location. */
  ghost predicate Located(edges: seq<ImportEdge>, cycle: seq<string>) {
    forall i {:trigger cycle[i]} :: 0 <= i < |cycle| - 1 ==> Location(edges, cycle[i], cycle[i + 1]).Some?
  }

  function StepLines(edges: seq<ImportEdge>, cycle: seq<string>, n: nat): (r: seq<ReportLine>)
    requires n < |cycle| && Located(edges, cycle)
    ensures |r| == n
    ensures forall i :: 0 <= i < n ==> r[i] == CycleStep(Location(edges, cycle[i], cycle[i + 1]).value)
  {
    if n == 0 then [] else
      StepLines(edges, cycle, n - 1) + [CycleStep(Location(edges, cycle[n - 1], cycle[n]).value)]
  }

  function ForbiddenLines(edges: seq<ImportEdge>): (r: seq<ReportLine>)
    ensures |r| == |edges| && forall i :: 0 <= i < |r| ==> r[i] == ForbiddenEdge(edges[i])
  {
    seq(|edges|, i requires 0 <= i < |edges| => ForbiddenEdge(edges[i]))
  }

  ghost function CycleLines(edges: seq<ImportEdge>, components: seq<seq<string>>, cycles: seq<seq<string>>,
                            n: nat): seq<ReportLine>
    requires n <= |components| && n <= |cycles|
    requires forall i :: 0 <= i < n ==> cycles[i] != [] && Located(edges, cycles[i])
  {
    if n == 0 then [] else
      CycleLines(edges, components, cycles, n - 1)
      + ([ComponentHeading(|components[n - 1]|)] + StepLines(edges, cycles[n - 1], |cycles[n - 1]| - 1))
  }

  /** A walk of the rebuilt graph has a location for each of its steps. */
  lemma WalkIsLocated(report: Report, members: set<string>, w: seq<string>)
    requires IsWalk(GraphOf(report), members, w)
    ensures Located(report.edges, w)
  {
    var g := GraphOf(report);
    forall i {:trigger w[i]} | 0 <= i < |w| - 1 ensures Location(report.edges, w[i], w[i + 1]).Some? {
      assert StepAt(g, members, w, i + 1);
      var e :| e in Elements(report.edges) && e.source == w[i] && e.target == w[i + 1];
      assert e in report.edges;
    }
  }

  /** `cycles[i]` is the representative cycle printed for component `i`. */
  ghost predicate Represent(report: Report, cycles: seq<seq<string>>, n: nat) {
    && n == |cycles| <= |report.cycles|
    && forall i {:trigger cycles[i]} :: 0 <= i < n
         ==> IsLeastCycle(GraphOf(report), Elements(report.cycles[i]), cycles[i]) && Located(report.edges, cycles[i])
  }

  /** The whole output, given the cycle that represents each component. */
  ghost function ReportLines(report: Report, cycles: seq<seq<string>>): seq<ReportLine>
    requires Represent(report, cycles, |report.cycles|)
  {
    if report.IsValid() then [AllClear(|report.modules|, |report.edges|)]
    else
      [Title]
      + (if report.forbidden == [] then [] else [ForbiddenHeading] + ForbiddenLines(report.forbidden))
      + (if report.cycles == [] then []
         else [CyclesHeading] + CycleLines(report.edges, report.cycles, cycles, |report.cycles|))
  }

  method FormatReport(report: Report) returns (lines: seq<ReportLine>, ghost cycles: seq<seq<string>>)
    requires Printable(report)
    ensures report.IsValid() ==> lines == [AllClear(|report.modules|, |report.edges|)]
    ensures Represent(report, cycles, |report.cycles|)
    ensures !report.IsValid() ==>
              lines == [Title]
                     + (if report.forbidden == [] then [] else [ForbiddenHeading] + ForbiddenLines(report.forbidden))
                     + (if report.cycles == [] then []
                        else [CyclesHeading] + CycleLines(report.edges, report.cycles, cycles, |report.cycles|))
  {
    hide IsClosedWalk, IsLeastCycle, GraphOf, Located, Endpoints, IsWalk, Represent, Location, StepLines, CycleLines;
    cycles := [];
    NothingRepresented(report);
    if report.IsValid() {
      return [AllClear(|report.modules|, |report.edges|)], [];
    }
    lines := [Title];
    if report.forbidden != [] {
      lines := lines + [ForbiddenHeading] + ForbiddenLines(report.forbidden);
    }
    if report.cycles != [] {
      ghost var header := lines + [CyclesHeading];
      var graph, locations := RebuildGraph(report);
      lines := lines + [CyclesHeading];
      NoCycleLines(report.edges, report.cycles);
      for i := 0 to |report.cycles|
        invariant Represent(report, cycles, i) && |cycles| == i
        invariant forall k :: 0 <= k < i ==> cycles[k] != [] && Located(report.edges, cycles[k])
        invariant lines == header + CycleLines(report.edges, report.cycles, cycles, i)
      {
        var component := report.cycles[i];
        assert HasCycleInside(graph, component);
        var chosen := RepresentativeCycle(component, graph);
        var cycle := chosen.value;
        RepresentOneMore(report, cycles, cycle, i);
        OneMoreCycle(report.edges, report.cycles, cycles, cycle, i);
        cycles := cycles + [cycle];
        lines := PrintCycle(report.edges, locations, |component|, cycle, lines);
      }
    }
  }

  /** The body of the loop over the components: a heading and one line for each step. */
  method PrintCycle(edges: seq<ImportEdge>, locations: map<(string, string), ImportEdge>, size: nat,
                    cycle: seq<string>, before: seq<ReportLine>) returns (lines: seq<ReportLine>)
    requires |cycle| >= 2 && Located(edges, cycle)
    requires forall s, t :: Location(edges, s, t).Some?
                            ==> (s, t) in locations && locations[(s, t)] == Location(edges, s, t).value
    ensures lines == before + ([ComponentHeading(size)] + StepLines(edges, cycle, |cycle| - 1))
  {
    lines := before + [ComponentHeading(size)];
    for k := 1 to |cycle|
      invariant lines == before + ([ComponentHeading(size)] + StepLines(edges, cycle, k - 1))
    {
      LocatedStep(edges, cycle, k - 1);
      lines := lines + [CycleStep(locations[(cycle[k - 1], cycle[k])])];
    }
  }

  lemma NoCycleLines(edges: seq<ImportEdge>, components: seq<seq<string>>)
    ensures CycleLines(edges, components, [], 0) == []
  {
  }

  lemma NothingRepresented(report: Report)
    ensures Represent(report, [], 0)
  {
  }

  lemma RepresentOneMore(report: Report, cycles: seq<seq<string>>, cycle: seq<string>, i: nat)
    requires Represent(report, cycles, i) && i < |report.cycles|
    requires IsLeastCycle(GraphOf(report), Elements(report.cycles[i]), cycle)
    ensures Represent(report, cycles + [cycle], i + 1)
    ensures |cycles| == i && (forall k :: 0 <= k < i ==> cycles[k] != [] && Located(report.edges, cycles[k]))
    ensures |cycle| >= 2 && Located(report.edges, cycle)
  {
    hide GraphOf, Location;
    WalkIsLocated(report, Elements(report.cycles[i]), cycle);
    assert forall k :: 0 <= k < i ==> (cycles + [cycle])[k] == cycles[k];
  }

  lemma LocatedStep(edges: seq<ImportEdge>, cycle: seq<string>, k: nat)
    requires Located(edges, cycle) && k + 1 < |cycle|
    ensures Location(edges, cycle[k], cycle[k + 1]).Some?
  {
    assert cycle[k] == cycle[k];
  }

  lemma OneMoreCycle(edges: seq<ImportEdge>, components: seq<seq<string>>, cycles: seq<seq<string>>,
                     cycle: seq<string>, i: nat)
    requires i == |cycles| < |components| && |cycle| >= 2 && Located(edges, cycle)
    requires forall k :: 0 <= k < i ==> cycles[k] != [] && Located(edges, cycles[k])
    ensures forall k :: 0 <= k < i + 1 ==> (cycles + [cycle])[k] != [] && Located(edges, (cycles + [cycle])[k])
    ensures CycleLines(edges, components, cycles + [cycle], i + 1)
         == CycleLines(edges, components, cycles, i)
            + ([ComponentHeading(|components[i]|)] + StepLines(edges, cycle, |cycle| - 1))
  {
    hide Located, Location;
    CycleLinesPrefix(edges, components, cycles, cycle, i);
  }

  lemma CycleLinesPrefix(edges: seq<ImportEdge>, components: seq<seq<string>>, cycles: seq<seq<string>>,
                         cycle: seq<string>, n: nat)
    requires n <= |components| && n <= |cycles|
    requires forall i :: 0 <= i < n ==> cycles[i] != [] && Located(edges, cycles[i])
    ensures forall i :: 0 <= i < n ==> (cycles + [cycle])[i] == cycles[i]
    ensures CycleLines(edges, components, cycles + [cycle], n) == CycleLines(edges, components, cycles, n)
  {
    if n > 0 {
      CycleLinesPrefix(edges, components, cycles, cycle, n - 1);
    }
  }

  /** The loop over the edge list: the analysed graph again, and the first location of every edge. */
  method RebuildGraph(report: Report) returns (graph: Graph, locations: map<(string, string), ImportEdge>)
    requires Endpoints(Elements(report.modules), Elements(report.edges))
    ensures graph == GraphOf(report)
    ensures forall s, t :: if Location(report.edges, s, t).Some?
                           then (s, t) in locations && locations[(s, t)] == Location(report.edges, s, t).value
                           else (s, t) !in locations
  {
    var modules, edges := Elements(report.modules), report.edges;
    graph := map m | m in modules :: {};
    locations := map[];
    assert forall m :: Targets(Elements(edges[..0]), m) == {};
    for i := 0 to |edges|
      invariant graph == EdgeGraph(modules, Elements(edges[..i]))
      invariant forall s, t :: if Location(edges[..i], s, t).Some?
                               then (s, t) in locations && locations[(s, t)] == Location(edges[..i], s, t).value
                               else (s, t) !in locations
    {
      var edge := edges[i];
      assert edge in Elements(edges);
      assert edges[..i + 1][..i] == edges[..i];
      assert Elements(edges[..i + 1]) == Elements(edges[..i]) + {edge};
      AddEdge(modules, Elements(edges[..i]), edge);
      graph := graph[edge.source := graph[edge.source] + {edge.target}];
      if (edge.source, edge.target) !in locations {
        locations := locations[(edge.source, edge.target) := edge];
      }
    }
    assert edges[..|edges|] == edges;
  }

  /** What the analysis of these inputs reports, field by field. */
  ghost predicate IsAnalysis(modulePaths: map<string, string>, package: string, sites: seq<ImportSite>,
                             report: Report) {
    var edges := PackageEdges(modulePaths, package, sites);
    && report.modules == Sorted(modulePaths.Keys)
    && Elements(report.edges) == edges && Ascending(EdgeLe, report.edges)
    && Elements(report.forbidden) == (set e | e in edges && IsForbidden(e, package))
    && Ascending(EdgeLe, report.forbidden)
    && IsSccReport(EdgeGraph(modulePaths.Keys, edges), report.cycles)
  }

  /** The analysis of these inputs with the least cycle of each component, line by line. */
  ghost predicate IsOutput(modulePaths: map<string, string>, package: string, sites: seq<ImportSite>,
                           lines: seq<ReportLine>) {
    exists report, cycles {:trigger PrintedAs(report, cycles, lines)} ::
      IsAnalysis(modulePaths, package, sites, report) && PrintedAs(report, cycles, lines)
  }

  ghost predicate PrintedAs(report: Report, cycles: seq<seq<string>>, lines: seq<ReportLine>) {
    Represent(report, cycles, |report.cycles|) && lines == ReportLines(report, cycles)
  }

  lemma AnalysisUnique(modulePaths: map<string, string>, package: string, sites: seq<ImportSite>, a: Report, b: Report)
    requires IsAnalysis(modulePaths, package, sites, a) && IsAnalysis(modulePaths, package, sites, b)
    ensures a == b
  {
    hide EdgeLe, IsForbidden, PackageEdges, IsSccReport, EdgeGraph;
    EdgeLeTotal();
    AscendingUnique(EdgeLe, a.edges, b.edges);
    AscendingUnique(EdgeLe, a.forbidden, b.forbidden);
    var graph := EdgeGraph(modulePaths.Keys, PackageEdges(modulePaths, package, sites));
    ReportDependsOnlyOnGraph(graph, a.cycles, b.cycles);
  }

  /** The inputs determine every line. */
  lemma OutputUnique(modulePaths: map<string, string>, package: string, sites: seq<ImportSite>,
                     a: seq<ReportLine>, b: seq<ReportLine>)
    requires IsOutput(modulePaths, package, sites, a) && IsOutput(modulePaths, package, sites, b)
    ensures a == b
  {
    hide IsAnalysis, IsLeastCycle, ReportLines, GraphOf, Located;
    var report, cycles :| IsAnalysis(modulePaths, package, sites, report) && PrintedAs(report, cycles, a);
    var other, others :| IsAnalysis(modulePaths, package, sites, other) && PrintedAs(other, others, b);
    AnalysisUnique(modulePaths, package, sites, report, other);
    forall i | 0 <= i < |cycles| ensures cycles[i] == others[i] {
      LeastCycleUnique(GraphOf(report), Elements(report.cycles[i]), cycles[i], others[i]);
    }
    assert cycles == others;
  }

  lemma AnalysisDescribed(modulePaths: map<string, string>, package: string, sites: seq<ImportSite>, report: Report)
    requires report.modules == Sorted(modulePaths.Keys)
    requires forall e :: e in report.edges <==> exists s :: s in sites && Contributes(modulePaths, package, s, e)
    requires Ascending(EdgeLe, report.edges) && Ascending(EdgeLe, report.forbidden)
    requires forall e :: e in report.forbidden <==> e in report.edges && IsForbidden(e, package)
    requires IsSccReport(GraphOf(report), report.cycles)
    ensures IsAnalysis(modulePaths, package, sites, report)
    ensures GraphOf(report) == EdgeGraph(modulePaths.Keys, PackageEdges(modulePaths, package, sites))
    ensures report.forbidden == [] <==>
              forall e :: e in PackageEdges(modulePaths, package, sites) ==> !IsForbidden(e, package)
  {
    hide EdgeLe, IsForbidden, PackageEdges, IsSccReport, EdgeGraph, Contributes;
    var edges := PackageEdges(modulePaths, package, sites);
    forall e ensures e in edges <==> e in report.edges {
      PackageEdgesExact(modulePaths, package, sites, e);
    }
    assert edges == Elements(report.edges);
    assert report.forbidden != [] ==> report.forbidden[0] in report.forbidden;
  }

  /** The command's outcome: status 0 for an acyclic package without forbidden edges, else 1, and the whole output. */
  method CheckArchitecture(modulePaths: map<string, string>, package: string, sites: seq<ImportSite>)
    returns (status: int, lines: seq<ReportLine>)
    requires forall s :: s in sites ==> s.source in modulePaths
    ensures status == if Acyclic(EdgeGraph(modulePaths.Keys, PackageEdges(modulePaths, package, sites)))
                         && (forall e :: e in PackageEdges(modulePaths, package, sites) ==> !IsForbidden(e, package))
                      then 0 else 1
    ensures status == 0 <==> lines == [AllClear(|modulePaths|, |PackageEdges(modulePaths, package, sites)|)]
    ensures IsOutput(modulePaths, package, sites, lines)
  {
    hide Acyclic, IsForbidden, EdgeGraph, Contributes, Printable, IsSccReport;
    hide EdgeLe, Represent, CycleLines, PackageEdges;
    var report := AnalyzeImportArchitecture(modulePaths, package, sites);
    ghost var cycles;
    lines, cycles := FormatReport(report);
    status := if report.IsValid() then 0 else 1;
    AnalysisDescribed(modulePaths, package, sites, report);
    assert PrintedAs(report, cycles, lines);
    AscendingSize(report.edges);
    assert !report.IsValid() ==> lines[0] == Title;
  }

  lemma {:induction false} AscendingSize(edges: seq<ImportEdge>)
    requires Ascending(EdgeLe, edges)
    ensures |Elements(edges)| == |edges|
  {
    hide EdgeLe;
    if edges != [] {
      AscendingTail(EdgeLe, edges);
      AscendingSize(edges[1..]);
    }
  }
}
