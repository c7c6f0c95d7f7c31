/** The dependency worklist of the encapsulation test: a depth-first crawl over "normal" dependencies that keeps one
    edge per package it discovers. */
module PackageGraph {
  import opened Options

  type Name = string
  type Edge = (Name, Name)

  datatype Kind = Normal | Development | Build | Unknown
  datatype Dependency = Dependency(name: Name, kind: Kind, target: Option<string>)
  type Packages = map<Name, seq<Dependency>>

  /** A `DiGraphMap` without weights. */
  datatype Graph = Graph(nodes: set<Name>, edges: set<Edge>) {
    function AddEdge(from: Name, to: Name): Graph {
      Graph(nodes + {from, to}, edges + {(from, to)})
    }
  }

  // ----- `normal_edges`

  predicate IsNormal(d: Dependency) {
    d.kind == Normal && d.target == None
  }

  function NormalDeps(pkg: Name, deps: seq<Dependency>): seq<Edge> {
    if deps == [] then []
    else (if IsNormal(deps[0]) then [(pkg, deps[0].name)] else []) + NormalDeps(pkg, deps[1..])
  }

  function NormalEdges(ps: Packages, pkg: Name): seq<Edge> {
    if pkg in ps then NormalDeps(pkg, ps[pkg]) else []
  }

  /** `b` is a dependency of `a` that is neither target-specific nor for tests or builds. */
  ghost predicate DependsOn(ps: Packages, a: Name, b: Name) {
    a in ps && exists i :: 0 <= i < |ps[a]| && IsNormal(ps[a][i]) && ps[a][i].name == b
  }

  lemma {:induction false} NormalDepsExact(pkg: Name, deps: seq<Dependency>, e: Edge)
    ensures e in NormalDeps(pkg, deps) <==>
            e.0 == pkg && exists i :: 0 <= i < |deps| && IsNormal(deps[i]) && deps[i].name == e.1
  {
    if deps != [] {
      NormalDepsExact(pkg, deps[1..], e);
      assert forall i | 0 < i < |deps| :: deps[i] == deps[1..][i - 1];
      if e in NormalDeps(pkg, deps[1..]) {
        var i :| 0 <= i < |deps[1..]| && IsNormal(deps[1..][i]) && deps[1..][i].name == e.1;
        assert deps[i + 1] == deps[1..][i];
      }
    }
  }

  lemma NormalEdgesExact(ps: Packages, pkg: Name, e: Edge)
    ensures e in NormalEdges(ps, pkg) <==> e.0 == pkg && DependsOn(ps, pkg, e.1)
    ensures e in NormalEdges(ps, pkg) <==>
            && e.0 == pkg && pkg in ps
            && exists i :: 0 <= i < |ps[pkg]| && ps[pkg][i].kind == Normal && ps[pkg][i].target.None?
                           && ps[pkg][i].name == e.1
  {
    if pkg in ps { NormalDepsExact(pkg, ps[pkg], e); }
  }

  /** The edges are in the order the dependencies are listed in. */
  lemma {:induction false} NormalDepsInOrder(pkg: Name, a: seq<Dependency>, b: seq<Dependency>)
    ensures NormalDeps(pkg, a + b) == NormalDeps(pkg, a) + NormalDeps(pkg, b)
  {
    if a == [] {
      assert a + b == b;
    } else {
      assert (a + b)[0] == a[0] && (a + b)[1..] == a[1..] + b;
      NormalDepsInOrder(pkg, a[1..], b);
      var head := if IsNormal(a[0]) then [(pkg, a[0].name)] else [];
      assert NormalDeps(pkg, a + b) == head + NormalDeps(pkg, a[1..] + b);
      hide NormalDeps, IsNormal;
    }
  }

  // ----- `graph`

  /** Every normal edge there is. */
  function Real(ps: Packages): set<Edge> {
    set a, e | a in ps && e in NormalEdges(ps, a) :: e
  }

  function Targets(ps: Packages): set<Name> {
    set e | e in Real(ps) :: e.1
  }

  predicate AllReal(ps: Packages, s: seq<Edge>) {
    forall e | e in s :: e in Real(ps)
  }

  lemma RealExact(ps: Packages, e: Edge)
    ensures e in Real(ps) <==> e in NormalEdges(ps, e.0)
  {
    forall a | a in ps && e in NormalEdges(ps, a) ensures a == e.0 {
      NormalEdgesExact(ps, a, e);
    }
  }

  lemma NormalEdgesReal(ps: Packages, a: Name)
    ensures AllReal(ps, NormalEdges(ps, a))
    ensures forall e | e in NormalEdges(ps, a) :: e.0 == a
  {
    forall e | e in NormalEdges(ps, a) ensures e in Real(ps) && e.0 == a {
      NormalEdgesExact(ps, a, e);
      RealExact(ps, e);
    }
  }

  lemma EntersTarget(ps: Packages, g: Graph, from: Name, to: Name)
    requires (from, to) in Real(ps) && to !in g.nodes
    ensures Targets(ps) - g.AddEdge(from, to).nodes < Targets(ps) - g.nodes
  {
    assert to in Targets(ps) - g.nodes;
  }

  /** The loop of `graph` from any point on. It ends because each package is entered once. */
  function Crawl(ps: Packages, g: Graph, stack: seq<Edge>): Graph
    requires AllReal(ps, stack)
    decreases Targets(ps) - g.nodes, |stack|
  {
    if stack == [] then g else
      var (from, to) := stack[|stack| - 1];
      var rest := stack[..|stack| - 1];
      if to in g.nodes then Crawl(ps, g, rest)
      else
        NormalEdgesReal(ps, to);
        EntersTarget(ps, g, from, to);
        Crawl(ps, g.AddEdge(from, to), rest + NormalEdges(ps, to))
  }

  /** Depth first: whatever is on top of the stack is exhausted, with all it leads to, before what is below. */
  lemma {:induction false} CrawlDepthFirst(ps: Packages, g: Graph, below: seq<Edge>, top: seq<Edge>)
    requires AllReal(ps, below) && AllReal(ps, top)
    ensures Crawl(ps, g, below + top) == Crawl(ps, Crawl(ps, g, top), below)
    decreases Targets(ps) - g.nodes, |top|
  {
    hide Real, Targets, NormalEdges;
    if top == [] {
      assert below + top == below;
    } else {
      var (from, to) := top[|top| - 1];
      var stack, rest := below + top, top[..|top| - 1];
      assert stack[|stack| - 1] == top[|top| - 1] && stack[..|stack| - 1] == below + rest;
      if to in g.nodes {
        CrawlDepthFirst(ps, g, below, rest);
      } else {
        NormalEdgesReal(ps, to);
        EntersTarget(ps, g, from, to);
        assert below + rest + NormalEdges(ps, to) == below + (rest + NormalEdges(ps, to));
        CrawlDepthFirst(ps, g.AddEdge(from, to), below, rest + NormalEdges(ps, to));
      }
    }
  }

  function CrawlFrom(ps: Packages, root: Name): Graph {
    NormalEdgesReal(ps, root);
    Crawl(ps, Graph({}, {}), NormalEdges(ps, root))
  }

  /** `Packages::graph`. */
  method BuildGraph(ps: Packages, root: Name) returns (g: Graph)
    ensures g == CrawlFrom(ps, root)
  {
    hide Real, Targets, NormalEdges;
    g := Graph({}, {});
    var stack := NormalEdges(ps, root);
    NormalEdgesReal(ps, root);
    while stack != []
      invariant AllReal(ps, stack)
      invariant Crawl(ps, g, stack) == CrawlFrom(ps, root)
      decreases Targets(ps) - g.nodes, |stack|
    {
      var (from, to) := stack[|stack| - 1];
      stack := stack[..|stack| - 1];
      if to !in g.nodes {
        EntersTarget(ps, g, from, to);
        NormalEdgesReal(ps, to);
        g := g.AddEdge(from, to);
        stack := stack + NormalEdges(ps, to);
      }
    }
  }

  // ----- walks

  predicate StepAt(edges: set<Edge>, p: seq<Name>, i: nat)
    requires i + 1 < |p|
  {
    (p[i], p[i + 1]) in edges
  }

  ghost predicate Walk(edges: set<Edge>, p: seq<Name>) {
    p != [] && forall i: nat | i + 1 < |p| :: StepAt(edges, p, i)
  }

  ghost predicate WalkFromTo(edges: set<Edge>, p: seq<Name>, a: Name, b: Name) {
    Walk(edges, p) && p[0] == a && p[|p| - 1] == b
  }

  ghost predicate Reaches(edges: set<Edge>, a: Name, b: Name) {
    exists p :: WalkFromTo(edges, p, a, b)
  }

  lemma ReachesItself(edges: set<Edge>, a: Name)
    ensures Reaches(edges, a, a)
  {
    assert WalkFromTo(edges, [a], a, a);
  }

  lemma WalkMono(e: set<Edge>, f: set<Edge>, p: seq<Name>)
    requires e <= f && Walk(e, p)
    ensures Walk(f, p)
  {
    forall i: nat | i + 1 < |p| ensures StepAt(f, p, i) { assert StepAt(e, p, i); }
  }

  lemma ReachesMono(e: set<Edge>, f: set<Edge>, a: Name, b: Name)
    requires e <= f && Reaches(e, a, b)
    ensures Reaches(f, a, b)
  {
    var p :| WalkFromTo(e, p, a, b);
    WalkMono(e, f, p);
    assert WalkFromTo(f, p, a, b);
  }

  lemma ReachesStep(edges: set<Edge>, a: Name, b: Name, c: Name)
    requires Reaches(edges, a, b) && (b, c) in edges
    ensures Reaches(edges, a, c)
  {
    var p :| WalkFromTo(edges, p, a, b);
    var q := p + [c];
    forall i: nat | i + 1 < |q| ensures StepAt(edges, q, i) {
      if i + 1 < |p| { assert StepAt(edges, p, i); }
    }
    assert WalkFromTo(edges, q, a, c);
  }

  // ----- what the crawl keeps

  ghost predicate Expanded(ps: Packages, g: Graph, stack: seq<Edge>, a: Name) {
    forall e | e in NormalEdges(ps, a) :: e.1 in g.nodes || e in stack
  }

  ghost predicate OneDependentEach(edges: set<Edge>) {
    forall e, f | e in edges && f in edges && e.1 == f.1 :: e.0 == f.0
  }

  ghost predicate CrawlInv(ps: Packages, root: Name, g: Graph, stack: seq<Edge>) {
    && AllReal(ps, stack)
    && g.edges <= Real(ps)
    && OneDependentEach(g.edges)
    && (forall e | e in g.edges :: e.0 in g.nodes && e.1 in g.nodes)
    && (forall e | e in stack :: e.0 == root || e.0 in g.nodes)
    && Expanded(ps, g, stack, root)
    && (forall n | n in g.nodes :: Reaches(g.edges, root, n) && Expanded(ps, g, stack, n))
  }

  lemma CrawlSkips(ps: Packages, root: Name, g: Graph, rest: seq<Edge>, e: Edge)
    requires CrawlInv(ps, root, g, rest + [e]) && e.1 in g.nodes
    ensures CrawlInv(ps, root, g, rest)
  {
    var stack := rest + [e];
    assert forall i | 0 <= i < |rest| :: rest[i] == stack[i];
    assert forall f | f in stack :: f in rest || f == e;
  }

  lemma CrawlEnters(ps: Packages, root: Name, g: Graph, rest: seq<Edge>, from: Name, to: Name)
    requires CrawlInv(ps, root, g, rest + [(from, to)]) && to !in g.nodes
    ensures CrawlInv(ps, root, g.AddEdge(from, to), rest + NormalEdges(ps, to))
  {
    hide Real, NormalEdges, Reaches;
    var stack := rest + [(from, to)];
    var h := g.AddEdge(from, to);
    var more := rest + NormalEdges(ps, to);
    NormalEdgesReal(ps, to);
    assert (from, to) in stack;
    assert Reaches(h.edges, root, from) by {
      if from == root { ReachesItself(h.edges, root); } else { ReachesMono(g.edges, h.edges, root, from); }
    }
    ReachesStep(h.edges, root, from, to);
    forall n | n in h.nodes
      ensures Reaches(h.edges, root, n) && Expanded(ps, h, more, n)
    {
      if n in g.nodes { ReachesMono(g.edges, h.edges, root, n); }
    }
  }

  lemma {:induction false} CrawlKeeps(ps: Packages, root: Name, g: Graph, stack: seq<Edge>)
    requires AllReal(ps, stack) && CrawlInv(ps, root, g, stack)
    ensures CrawlInv(ps, root, Crawl(ps, g, stack), [])
    decreases Targets(ps) - g.nodes, |stack|
  {
    hide CrawlInv;
    if stack != [] {
      var (from, to) := stack[|stack| - 1];
      var rest := stack[..|stack| - 1];
      assert stack == rest + [(from, to)];
      if to in g.nodes {
        CrawlSkips(ps, root, g, rest, (from, to));
        CrawlKeeps(ps, root, g, rest);
      } else {
        NormalEdgesReal(ps, to);
        EntersTarget(ps, g, from, to);
        CrawlEnters(ps, root, g, rest, from, to);
        CrawlKeeps(ps, root, g.AddEdge(from, to), rest + NormalEdges(ps, to));
      }
    }
  }

  /** Everything the finished graph promises. */
  lemma CrawlFromInv(ps: Packages, root: Name)
    ensures CrawlInv(ps, root, CrawlFrom(ps, root), [])
  {
    NormalEdgesReal(ps, root);
    CrawlKeeps(ps, root, Graph({}, {}), NormalEdges(ps, root));
  }

  /** Following normal dependencies never leaves the root and the finished graph. */
  lemma {:induction false} ClosedUnderWalks(ps: Packages, root: Name, g: Graph, p: seq<Name>, k: nat)
    requires CrawlInv(ps, root, g, []) && Walk(Real(ps), p) && p[0] == root && k < |p|
    ensures k > 0 ==> p[k] in g.nodes
    decreases k
  {
    if k > 0 {
      ClosedUnderWalks(ps, root, g, p, k - 1);
      assert StepAt(Real(ps), p, k - 1);
      RealExact(ps, (p[k - 1], p[k]));
    }
  }

  /** The packages of the graph are exactly those the root depends on, directly or not; each is reached by a walk of
      kept edges, and every kept edge is a real normal dependency. */
  lemma GraphIsReachable(ps: Packages, root: Name, n: Name)
    ensures
      var g := CrawlFrom(ps, root);
      && g.edges <= Real(ps)
      && (n != root ==> (n in g.nodes <==> Reaches(Real(ps), root, n)))
      && (n in g.nodes ==> Reaches(g.edges, root, n))
  {
    var g := CrawlFrom(ps, root);
    CrawlFromInv(ps, root);
    if n in g.nodes { ReachesMono(g.edges, Real(ps), root, n); }
    if n != root && Reaches(Real(ps), root, n) {
      var p :| WalkFromTo(Real(ps), p, root, n);
      ClosedUnderWalks(ps, root, g, p, |p| - 1);
    }
  }

  // ----- which edges are kept

  /** The transitive dependency sub-graph of `root`, with every edge. */
  ghost function SubGraph(ps: Packages, root: Name): set<Edge> {
    set e | e in Real(ps) && Reaches(Real(ps), root, e.0)
  }

  predicate LastEdgeIs(ps: Packages, root: Name, e: Edge) {
    var s := NormalEdges(ps, root);
    s != [] && s[|s| - 1] == e
  }

  /** The root enters the graph with the first edge popped, which is the last of its own edges. */
  ghost predicate FirstInv(ps: Packages, root: Name, g: Graph, stack: seq<Edge>) {
    && (g.nodes == {} ==> g.edges == {} && stack == NormalEdges(ps, root))
    && (g.nodes != {} ==> root in g.nodes && exists e :: e in g.edges && LastEdgeIs(ps, root, e))
    && (forall e | e in g.edges && e.1 == root :: LastEdgeIs(ps, root, (root, root)))
  }

  lemma FirstEnters(ps: Packages, root: Name, g: Graph, rest: seq<Edge>, from: Name, to: Name)
    requires FirstInv(ps, root, g, rest + [(from, to)]) && to !in g.nodes
    ensures FirstInv(ps, root, g.AddEdge(from, to), rest + NormalEdges(ps, to))
  {
    var h := g.AddEdge(from, to);
    assert from in h.nodes && (from, to) in h.edges;
    if g.nodes == {} {
      var stack := rest + [(from, to)];
      assert stack[|stack| - 1] == (from, to) && (from, to) in stack;
      NormalEdgesReal(ps, root);
      assert LastEdgeIs(ps, root, (from, to));
    } else {
      var e :| e in g.edges && LastEdgeIs(ps, root, e);
      assert e in h.edges;
    }
  }

  lemma {:induction false} FirstKeeps(ps: Packages, root: Name, g: Graph, stack: seq<Edge>)
    requires AllReal(ps, stack) && FirstInv(ps, root, g, stack)
    ensures FirstInv(ps, root, Crawl(ps, g, stack), [])
    decreases Targets(ps) - g.nodes, |stack|
  {
    if stack != [] {
      var (from, to) := stack[|stack| - 1];
      var rest := stack[..|stack| - 1];
      assert stack == rest + [(from, to)];
      if to in g.nodes {
        FirstKeeps(ps, root, g, rest);
      } else {
        NormalEdgesReal(ps, to);
        EntersTarget(ps, g, from, to);
        FirstEnters(ps, root, g, rest, from, to);
        hide FirstInv;
        FirstKeeps(ps, root, g.AddEdge(from, to), rest + NormalEdges(ps, to));
      }
    }
  }

  lemma CrawlFromFirst(ps: Packages, root: Name)
    ensures FirstInv(ps, root, CrawlFrom(ps, root), [])
  {
    NormalEdgesReal(ps, root);
    FirstKeeps(ps, root, Graph({}, {}), NormalEdges(ps, root));
  }

  /** The root is in the graph exactly when it has a normal dependency. */
  lemma RootInGraph(ps: Packages, root: Name)
    ensures root in CrawlFrom(ps, root).nodes <==> NormalEdges(ps, root) != []
  {
    CrawlFromFirst(ps, root);
    CrawlFromInv(ps, root);
    var s := NormalEdges(ps, root);
    if s != [] { assert s[0] in s; }
  }

  lemma KeptAreInSubGraph(ps: Packages, root: Name)
    ensures CrawlFrom(ps, root).edges <= SubGraph(ps, root)
  {
    CrawlFromInv(ps, root);
    var g := CrawlFrom(ps, root);
    forall e | e in g.edges ensures e in SubGraph(ps, root) {
      ReachesMono(g.edges, Real(ps), root, e.0);
    }
  }

  /** Some kept edge enters every discovered package but the root. */
  lemma KeptEdgeInto(ps: Packages, root: Name, n: Name) returns (e: Edge)
    requires n != root && Reaches(CrawlFrom(ps, root).edges, root, n)
    ensures e in CrawlFrom(ps, root).edges && e.1 == n
  {
    var g := CrawlFrom(ps, root);
    var p :| WalkFromTo(g.edges, p, root, n);
    var i := |p| - 2;
    assert StepAt(g.edges, p, i);
    e := (p[i], p[i + 1]);
  }

  /** What decides it, read off the package map: no package of the sub-graph has two dependents, and none depends on
      the root (a root that lists itself last is the exception). */
  ghost predicate OneWayIn(ps: Packages, root: Name) {
    && OneDependentEach(SubGraph(ps, root))
    && (forall e | e in SubGraph(ps, root) && e.1 == root :: LastEdgeIs(ps, root, (root, root)))
  }

  lemma KeptWhenOneWayIn(ps: Packages, root: Name, e: Edge)
    requires OneWayIn(ps, root) && e in SubGraph(ps, root)
    ensures e in CrawlFrom(ps, root).edges
  {
    var g := CrawlFrom(ps, root);
    KeptAreInSubGraph(ps, root);
    if e.1 == root {
      CrawlFromFirst(ps, root);
      RootInGraph(ps, root);
      var f :| f in g.edges && LastEdgeIs(ps, root, f);
      assert f == (root, root) && f in SubGraph(ps, root);
    } else {
      ReachesStep(Real(ps), root, e.0, e.1);
      GraphIsReachable(ps, root, e.1);
      var f := KeptEdgeInto(ps, root, e.1);
      assert f in SubGraph(ps, root);
    }
  }

  /** The graph is the transitive dependency sub-graph, edges included, exactly when there is one way into each
      package. */
  lemma KeepsEveryEdge(ps: Packages, root: Name)
    ensures CrawlFrom(ps, root).edges == SubGraph(ps, root) <==> OneWayIn(ps, root)
  {
    var g := CrawlFrom(ps, root);
    CrawlFromInv(ps, root);
    CrawlFromFirst(ps, root);
    KeptAreInSubGraph(ps, root);
    if OneWayIn(ps, root) {
      forall e | e in SubGraph(ps, root) ensures e in g.edges { KeptWhenOneWayIn(ps, root, e); }
    }
  }

  // ----- the encapsulation check

  /** `target` can be reached from `root` without passing through a removed package. */
  ghost predicate Bypass(edges: set<Edge>, root: Name, target: Name, removed: set<Name>) {
    exists p :: WalkFromTo(edges, p, root, target) && forall i | 0 <= i < |p| :: p[i] !in removed
  }

  /** A bypass that the check reports is one. */
  lemma AlarmsAreReal(ps: Packages, root: Name, target: Name, removed: set<Name>)
    ensures Bypass(CrawlFrom(ps, root).edges, root, target, removed) ==> Bypass(Real(ps), root, target, removed)
  {
    var g := CrawlFrom(ps, root);
    CrawlFromInv(ps, root);
    if Bypass(g.edges, root, target, removed) {
      var p :| WalkFromTo(g.edges, p, root, target) && forall i | 0 <= i < |p| :: p[i] !in removed;
      WalkMono(g.edges, Real(ps), p);
      assert WalkFromTo(Real(ps), p, root, target);
    }
  }

  /** No walk to `n` avoids `p`. */
  ghost predicate OnEveryWalk(edges: set<Edge>, root: Name, p: Name, n: Name) {
    forall w | WalkFromTo(edges, w, root, n) :: p in w
  }

  /** Each package was discovered from one that every real way to it goes through. */
  ghost predicate KeptEdgesDominate(ps: Packages, root: Name) {
    forall e | e in CrawlFrom(ps, root).edges && e.1 != root :: OnEveryWalk(Real(ps), root, e.0, e.1)
  }

  ghost predicate MissesNothing(ps: Packages, root: Name) {
    forall target, removed |
      Bypass(Real(ps), root, target, removed) :: Bypass(CrawlFrom(ps, root).edges, root, target, removed)
  }

  lemma WalkPrefix(edges: set<Edge>, w: seq<Name>, i: nat)
    requires Walk(edges, w) && i < |w|
    ensures WalkFromTo(edges, w[..i + 1], w[0], w[i])
  {
    var q := w[..i + 1];
    forall k: nat | k + 1 < |q| ensures StepAt(edges, q, k) { assert StepAt(edges, w, k); }
  }

  lemma WalkSnoc(edges: set<Edge>, w: seq<Name>, n: Name)
    requires Walk(edges, w) && (w[|w| - 1], n) in edges
    ensures Walk(edges, w + [n])
  {
    var q := w + [n];
    forall k: nat | k + 1 < |q| ensures StepAt(edges, q, k) {
      if k + 1 < |w| { assert StepAt(edges, w, k); }
    }
  }

  /** Where kept edges dominate, a kept walk to a package stays on any real walk to it. */
  lemma {:induction false} KeptWalkInside(ps: Packages, root: Name, v: seq<Name>, k: nat, w: seq<Name>)
      returns (u: seq<Name>)
    requires KeptEdgesDominate(ps, root)
    requires Walk(CrawlFrom(ps, root).edges, v) && v[0] == root && k < |v|
    requires Walk(Real(ps), w) && w[0] == root && v[k] in w
    ensures WalkFromTo(CrawlFrom(ps, root).edges, u, root, v[k]) && forall n | n in u :: n in w
    decreases k
  {
    hide CrawlFrom, Real;
    var kept := CrawlFrom(ps, root).edges;
    if v[k] == root {
      u := [root];
    } else {
      var i :| 0 <= i < |w| && w[i] == v[k];
      WalkPrefix(Real(ps), w, i);
      assert StepAt(kept, v, k - 1);
      assert OnEveryWalk(Real(ps), root, v[k - 1], v[k]);
      assert v[k - 1] in w[..i + 1];
      u := KeptWalkInside(ps, root, v, k - 1, w);
      WalkSnoc(kept, u, v[k]);
      u := u + [v[k]];
    }
  }

  lemma DominatedMissesNothing(ps: Packages, root: Name, target: Name, removed: set<Name>)
    requires KeptEdgesDominate(ps, root) && Bypass(Real(ps), root, target, removed)
    ensures Bypass(CrawlFrom(ps, root).edges, root, target, removed)
  {
    var kept := CrawlFrom(ps, root).edges;
    var w :| WalkFromTo(Real(ps), w, root, target) && forall i | 0 <= i < |w| :: w[i] !in removed;
    assert Reaches(kept, root, target) by {
      if target == root {
        ReachesItself(kept, root);
      } else {
        assert Reaches(Real(ps), root, target);
        GraphIsReachable(ps, root, target);
      }
    }
    var v :| WalkFromTo(kept, v, root, target);
    var u := KeptWalkInside(ps, root, v, |v| - 1, w);
    assert forall i | 0 <= i < |u| :: u[i] in u;
  }

  lemma OneKeptEdgeEach(ps: Packages, root: Name)
    ensures OneDependentEach(CrawlFrom(ps, root).edges)
  {
    hide CrawlFrom, Expanded, Reaches, Real;
    CrawlFromInv(ps, root);
  }

  /** A kept walk enters a package by its one kept edge. */
  lemma KeptWalkUsesEdge(ps: Packages, root: Name, e: Edge, v: seq<Name>)
    requires e in CrawlFrom(ps, root).edges && e.1 != root && WalkFromTo(CrawlFrom(ps, root).edges, v, root, e.1)
    ensures e.0 in v
  {
    hide CrawlFrom;
    OneKeptEdgeEach(ps, root);
    assert StepAt(CrawlFrom(ps, root).edges, v, |v| - 2);
    var last := (v[|v| - 2], v[|v| - 1]);
    assert last.0 == e.0;
  }

  lemma MissesNothingDominates(ps: Packages, root: Name, e: Edge, w: seq<Name>)
    requires MissesNothing(ps, root) && e in CrawlFrom(ps, root).edges && e.1 != root
    requires WalkFromTo(Real(ps), w, root, e.1)
    ensures e.0 in w
  {
    var kept := CrawlFrom(ps, root).edges;
    if e.0 !in w {
      assert Bypass(Real(ps), root, e.1, {e.0});
      var v :| WalkFromTo(kept, v, root, e.1) && forall i | 0 <= i < |v| :: v[i] !in {e.0};
      KeptWalkUsesEdge(ps, root, e, v);
    }
  }

  /** The check finds every bypass there is, whatever is removed, exactly when each package was discovered from one
      that all real ways to it go through. */
  lemma MissesNothingExactly(ps: Packages, root: Name)
    ensures MissesNothing(ps, root) <==> KeptEdgesDominate(ps, root)
  {
    if KeptEdgesDominate(ps, root) {
      forall target, removed | Bypass(Real(ps), root, target, removed)
        ensures Bypass(CrawlFrom(ps, root).edges, root, target, removed)
      {
        DominatedMissesNothing(ps, root, target, removed);
      }
    }
    if MissesNothing(ps, root) {
      forall e | e in CrawlFrom(ps, root).edges && e.1 != root ensures OnEveryWalk(Real(ps), root, e.0, e.1) {
        forall w | WalkFromTo(Real(ps), w, root, e.1) ensures e.0 in w { MissesNothingDominates(ps, root, e, w); }
      }
    }
  }

  /** With one way into each package, which can be read off the package map, no bypass goes unreported. */
  lemma CheckIsExact(ps: Packages, root: Name, target: Name, removed: set<Name>)
    requires OneWayIn(ps, root)
    ensures Bypass(CrawlFrom(ps, root).edges, root, target, removed) <==> Bypass(Real(ps), root, target, removed)
  {
    AlarmsAreReal(ps, root, target, removed);
    KeepsEveryEdge(ps, root);
    var g := CrawlFrom(ps, root);
    if Bypass(Real(ps), root, target, removed) {
      var p :| WalkFromTo(Real(ps), p, root, target) && forall i | 0 <= i < |p| :: p[i] !in removed;
      forall i: nat | i + 1 < |p| ensures StepAt(g.edges, p, i) {
        assert StepAt(Real(ps), p, i);
        WalkPrefix(Real(ps), p, i);
        assert Reaches(Real(ps), root, p[i]);
      }
      assert WalkFromTo(g.edges, p, root, target);
    }
  }

  lemma CrawlPushes(ps: Packages, g: Graph, rest: seq<Edge>, from: Name, to: Name, h: Graph, more: seq<Edge>)
    requires AllReal(ps, rest + [(from, to)]) && to !in g.nodes
    requires h == g.AddEdge(from, to) && more == rest + NormalEdges(ps, to)
    ensures AllReal(ps, more) && Crawl(ps, g, rest + [(from, to)]) == Crawl(ps, h, more)
  {
    var stack := rest + [(from, to)];
    assert stack[..|stack| - 1] == rest;
    NormalEdgesReal(ps, to);
  }

  const SHARED: Packages := map[
    "node" := [Dependency("vm", Normal, None), Dependency("execution", Normal, None)],
    "execution" := [Dependency("vm", Normal, None)]
  ]

  lemma SharedCrawl()
    ensures CrawlFrom(SHARED, "node").edges == {("node", "execution"), ("execution", "vm")}
    ensures ("node", "vm") in Real(SHARED)
  {
    var vm, execution := Dependency("vm", Normal, None), Dependency("execution", Normal, None);
    assert [vm, execution][1..] == [execution];
    assert NormalDeps("node", [vm, execution]) == [("node", "vm"), ("node", "execution")];
    assert NormalDeps("execution", [vm]) == [("execution", "vm")];
    assert NormalEdges(SHARED, "node") == [("node", "vm"), ("node", "execution")];
    assert NormalEdges(SHARED, "execution") == [("execution", "vm")];
    assert NormalEdges(SHARED, "vm") == [];
    hide NormalEdges;
    var g1 := Graph({"node", "execution"}, {("node", "execution")});
    var g2 := Graph({"node", "execution", "vm"}, {("node", "execution"), ("execution", "vm")});
    NormalEdgesReal(SHARED, "node");
    RealExact(SHARED, ("node", "vm"));
    var rest := [("node", "vm")];
    assert NormalEdges(SHARED, "node") == rest + [("node", "execution")];
    CrawlPushes(SHARED, Graph({}, {}), rest, "node", "execution", g1, rest + [("execution", "vm")]);
    CrawlPushes(SHARED, g1, rest, "execution", "vm", g2, rest);
    assert rest[..0] == [];
    assert Crawl(SHARED, g2, rest) == g2;
  }

  /** `node` depends on `vm` directly and through `execution`, and only the second way is kept: with `execution` removed
      the direct dependency is not reported. */
  lemma SharedDependencyMissed()
    ensures Bypass(Real(SHARED), "node", "vm", {"execution"})
    ensures !Bypass(CrawlFrom(SHARED, "node").edges, "node", "vm", {"execution"})
  {
    SharedCrawl();
    var edges := CrawlFrom(SHARED, "node").edges;
    var direct := ["node", "vm"];
    assert StepAt(Real(SHARED), direct, 0);
    assert WalkFromTo(Real(SHARED), direct, "node", "vm");
    forall p | WalkFromTo(edges, p, "node", "vm")
      ensures exists i :: 0 <= i < |p| && p[i] in {"execution"}
    {
      assert StepAt(edges, p, |p| - 2);
    }
  }
}
