/** The dependency graph both scripts draw from `file_dependencies`: an edge
    from each file to each of its dependencies. The two scripts differ in
    which nodes the graph gets: the static graph only has the ends of edges,
    the interactive one also every file. */
module GraphModel {
  import opened Text
  import opened Mapping

  /** A directed edge (file, dependency). */
  type Edge = (string, string)

  /** The edges of one file, in the order of its dependency list. */
  function FileEdges(src: string, deps: seq<string>): (edges: seq<Edge>)
    ensures |edges| == |deps|
    ensures forall k :: 0 <= k < |deps| ==> edges[k] == (src, deps[k])
  {
    seq(|deps|, k requires 0 <= k < |deps| => (src, deps[k]))
  }

  predicate Covers(keys: seq<string>, records: map<string, Record>) {
    forall k :: k in keys ==> k in records
  }

  /** Every (file, dependency) pair, files in key order and dependencies in
      list order: the order in which both builders add edges. */
  function EdgeList(keys: seq<string>, records: map<string, Record>): (edges: seq<Edge>)
    requires Covers(keys, records)
    ensures forall k :: 0 <= k < |edges| ==> edges[k].0 in keys
    decreases |keys|
  {
    if keys == [] then []
    else
      var last := keys[|keys| - 1];
      EdgeList(keys[..|keys| - 1], records) + FileEdges(last, records[last].dependencies)
  }

  /** The sum, over the files, of the lengths of their dependency lists. */
  function DependencyCount(keys: seq<string>, records: map<string, Record>): nat
    requires Covers(keys, records)
    decreases |keys|
  {
    if keys == [] then 0
    else
      var last := keys[|keys| - 1];
      DependencyCount(keys[..|keys| - 1], records) + |records[last].dependencies|
  }

  /** The nodes `add_edge` creates: the two ends of every edge. */
  function EdgeEnds(keys: seq<string>, records: map<string, Record>): (nodes: set<string>)
    requires Covers(keys, records)
    ensures nodes <= FilesAndDeps(keys, records)
    decreases |keys|
  {
    if keys == [] then {}
    else
      var last := keys[|keys| - 1];
      var deps := records[last].dependencies;
      EdgeEnds(keys[..|keys| - 1], records) + (if deps == [] then {} else {last}) + Elements(deps)
  }

  /** The nodes of the interactive graph: every file, and every dependency. */
  function FilesAndDeps(keys: seq<string>, records: map<string, Record>): (nodes: set<string>)
    requires Covers(keys, records)
    ensures Elements(keys) <= nodes
    decreases |keys|
  {
    if keys == [] then {}
    else
      var last := keys[|keys| - 1];
      FilesAndDeps(keys[..|keys| - 1], records) + {last} + Elements(records[last].dependencies)
  }

  function Edges(m: FileMapping): set<Edge> {
    Elements(EdgeList(m.keys, m.records))
  }

  // ---------------------------------------------------------- properties

  lemma PrefixCovers(m: FileMapping, i: nat)
    requires i <= |m.keys|
    ensures Covers(m.keys[..i], m.records)
  {
    forall k | k in m.keys[..i] ensures k in m.records {
      assert k in Elements(m.keys);
    }
  }

  /** Going from the first `i` files to the first `i + 1` adds the edges and
      the nodes of file `i`. */
  lemma PrefixStep(m: FileMapping, i: nat)
    requires i < |m.keys|
    ensures m.keys[i] in m.records
    ensures Covers(m.keys[..i], m.records) && Covers(m.keys[..i + 1], m.records)
    ensures var f := m.keys[i];
            var deps := m.records[f].dependencies;
            && EdgeList(m.keys[..i + 1], m.records) == EdgeList(m.keys[..i], m.records) + FileEdges(f, deps)
            && EdgeEnds(m.keys[..i + 1], m.records)
               == EdgeEnds(m.keys[..i], m.records) + (if deps == [] then {} else {f}) + Elements(deps)
            && FilesAndDeps(m.keys[..i + 1], m.records)
               == FilesAndDeps(m.keys[..i], m.records) + {f} + Elements(deps)
  {
    assert m.keys[i] in Elements(m.keys);
    PrefixCovers(m, i);
    PrefixCovers(m, i + 1);
    assert m.keys[..i + 1][..i] == m.keys[..i];
  }

  /** One more dependency adds one edge. */
  lemma FileEdgesStep(src: string, deps: seq<string>, j: nat)
    requires j < |deps|
    ensures FileEdges(src, deps[..j + 1]) == FileEdges(src, deps[..j]) + [(src, deps[j])]
    ensures Elements(FileEdges(src, deps[..j + 1])) == Elements(FileEdges(src, deps[..j])) + {(src, deps[j])}
    ensures Elements(deps[..j + 1]) == Elements(deps[..j]) + {deps[j]}
  {
    assert FileEdges(src, deps[..j + 1]) == FileEdges(src, deps[..j]) + [(src, deps[j])];
    ElementsAppend(FileEdges(src, deps[..j]), (src, deps[j]));
    assert deps[..j + 1] == deps[..j] + [deps[j]];
    ElementsAppend(deps[..j], deps[j]);
  }

  /** An edge (f, d) is listed exactly when d is in the list of f. */
  lemma {:induction false} EdgeListIff(keys: seq<string>, records: map<string, Record>, e: Edge)
    requires Covers(keys, records)
    ensures e in EdgeList(keys, records)
            <==> e.0 in keys && e.1 in records[e.0].dependencies
    decreases |keys|
  {
    if keys != [] {
      var init := keys[..|keys| - 1];
      var last := keys[|keys| - 1];
      EdgeListIff(init, records, e);
      var fe := FileEdges(last, records[last].dependencies);
      if e in fe {
        var k :| 0 <= k < |fe| && fe[k] == e;
      }
      if e.0 == last && e.1 in records[last].dependencies {
        var k :| 0 <= k < |records[last].dependencies| && records[last].dependencies[k] == e.1;
        assert fe[k] == e;
      }
      assert keys == init + [last];
    }
  }

  /** With distinct files and duplicate-free lists, no edge is listed twice. */
  lemma {:induction false} EdgeListDistinct(keys: seq<string>, records: map<string, Record>)
    requires Covers(keys, records) && Distinct(keys)
    requires forall k :: k in records ==> Distinct(records[k].dependencies)
    ensures Distinct(EdgeList(keys, records))
    decreases |keys|
  {
    if keys != [] {
      var init := keys[..|keys| - 1];
      var last := keys[|keys| - 1];
      EdgeListDistinct(init, records);
      var a := EdgeList(init, records);
      var b := FileEdges(last, records[last].dependencies);
      forall i, j | 0 <= i < j < |a + b| ensures (a + b)[i] != (a + b)[j] {
        if j >= |a| && i < |a| {
          EdgeListIff(init, records, (a + b)[i]);
          assert a[i] in a;
          assert (a + b)[j].0 == last;
        }
      }
    }
  }

  /** One listed edge per dependency-list entry. */
  lemma {:induction false} EdgeListLength(keys: seq<string>, records: map<string, Record>)
    requires Covers(keys, records)
    ensures |EdgeList(keys, records)| == DependencyCount(keys, records)
    decreases |keys|
  {
    if keys != [] {
      EdgeListLength(keys[..|keys| - 1], records);
    }
  }

  lemma AscendingDistinct(s: seq<string>)
    requires StrictlyAscending(s)
    ensures Distinct(s)
  {
    forall i, j | 0 <= i < j < |s| ensures s[i] != s[j] {
      LessIrreflexive(s[i]);
    }
  }

  /** The number of distinct edges is the sum of the dependency-list
      lengths: the lists are duplicate-free and the files distinct, so no two
      pairs coincide. */
  lemma EdgeCount(m: FileMapping)
    ensures |Edges(m)| == DependencyCount(m.keys, m.records)
  {
    forall k | k in m.records ensures Distinct(m.records[k].dependencies) {
      AscendingDistinct(m.records[k].dependencies);
    }
    EdgeListDistinct(m.keys, m.records);
    DistinctCard(EdgeList(m.keys, m.records));
    EdgeListLength(m.keys, m.records);
  }

  /** The edge set is exactly {(f, d) | d in the list of f}. */
  lemma EdgesIff(m: FileMapping, f: string, d: string)
    ensures (f, d) in Edges(m) <==> f in m.records && d in m.records[f].dependencies
  {
    EdgeListIff(m.keys, m.records, (f, d));
    assert f in m.keys <==> f in Elements(m.keys);
  }

  /** A node of the static graph is exactly an end of some edge. */
  lemma {:induction false} EdgeEndsIff(keys: seq<string>, records: map<string, Record>, n: string)
    requires Covers(keys, records)
    ensures n in EdgeEnds(keys, records)
            <==> exists e :: e in EdgeList(keys, records) && (e.0 == n || e.1 == n)
    decreases |keys|
  {
    if keys != [] {
      var init := keys[..|keys| - 1];
      var last := keys[|keys| - 1];
      var deps := records[last].dependencies;
      EdgeEndsIff(init, records, n);
      var fe := FileEdges(last, deps);
      if n in Elements(deps) {
        var k :| 0 <= k < |deps| && deps[k] == n;
        assert fe[k] in EdgeList(keys, records);
      } else if deps != [] && n == last {
        assert fe[0] in EdgeList(keys, records);
      }
      if e :| e in EdgeList(keys, records) && (e.0 == n || e.1 == n) {
        if e in fe {
          var k :| 0 <= k < |fe| && fe[k] == e;
          assert e.1 in Elements(deps);
        } else {
          assert e in EdgeList(init, records);
        }
      }
    }
  }

  /** A file with no dependencies that no file depends on is not a node of
      the static graph, because nodes only arise from `add_edge`. */
  lemma IsolatedFileNotStaticNode(m: FileMapping, f: string)
    requires f in m.records && m.records[f].dependencies == []
    requires forall k :: k in m.records ==> f !in m.records[k].dependencies
    ensures f !in EdgeEnds(m.keys, m.records)
  {
    EdgeEndsIff(m.keys, m.records, f);
    if e :| e in EdgeList(m.keys, m.records) && (e.0 == f || e.1 == f) {
      EdgeListIff(m.keys, m.records, e);
    }
  }

  /** A node of the interactive graph is exactly a file or a dependency of
      some file. */
  lemma {:induction false} FilesAndDepsIff(keys: seq<string>, records: map<string, Record>, n: string)
    requires Covers(keys, records)
    ensures n in FilesAndDeps(keys, records)
            <==> n in keys || exists k :: k in keys && n in records[k].dependencies
    decreases |keys|
  {
    if keys != [] {
      var init := keys[..|keys| - 1];
      var last := keys[|keys| - 1];
      FilesAndDepsIff(init, records, n);
      assert keys == init + [last];
      if k :| k in keys && n in records[k].dependencies {
        if k != last { assert k in init; }
      }
    }
  }

  /** Every node of the static graph is a node of the interactive one; the
      interactive graph has, besides, the files the static one leaves out. */
  lemma StaticNodesWithinInteractive(m: FileMapping)
    ensures EdgeEnds(m.keys, m.records) <= FilesAndDeps(m.keys, m.records)
    ensures Elements(m.keys) <= FilesAndDeps(m.keys, m.records)
  {
    forall n | n in EdgeEnds(m.keys, m.records) ensures n in FilesAndDeps(m.keys, m.records) {
      EdgeEndsIff(m.keys, m.records, n);
      var e :| e in EdgeList(m.keys, m.records) && (e.0 == n || e.1 == n);
      EdgeListIff(m.keys, m.records, e);
      FilesAndDepsIff(m.keys, m.records, n);
    }
    forall n | n in Elements(m.keys) ensures n in FilesAndDeps(m.keys, m.records) {
      FilesAndDepsIff(m.keys, m.records, n);
    }
  }
}

/** `generate_dependency_graph`: the edges go into a `networkx.DiGraph`,
    whose `add_edge` creates missing end nodes. Layout and drawing are not
    modelled. */
module StaticGraph {
  import opened Text
  import opened Mapping
  import opened GraphModel

  /** The node and edge sets of a `networkx.DiGraph`. */
  class DiGraph {
    var nodes: set<string>
    var edges: set<Edge>

    constructor ()
      ensures nodes == {} && edges == {}
    {
      nodes := {};
      edges := {};
    }

    /** `G.add_edge(u, v)`: adds both ends as nodes if absent, and the edge. */
    method AddEdge(u: string, v: string)
      modifies this
      ensures nodes == old(nodes) + {u, v}
      ensures edges == old(edges) + {(u, v)}
    {
      nodes := nodes + {u, v};
      edges := edges + {(u, v)};
    }
  }

  /** The graph has one edge per (file, dependency) pair, and as nodes only
      the ends of those edges. */
  method GenerateDependencyGraph(m: FileMapping) returns (g: DiGraph)
    ensures fresh(g)
    ensures g.edges == Edges(m)
    ensures g.nodes == EdgeEnds(m.keys, m.records)
  {
    g := new DiGraph();
    for i := 0 to |m.keys|
      invariant Covers(m.keys[..i], m.records)
      invariant g.edges == Elements(EdgeList(m.keys[..i], m.records))
      invariant g.nodes == EdgeEnds(m.keys[..i], m.records)
    {
      PrefixStep(m, i);
      var src := m.keys[i];
      AddFileEdges(g, src, m.records[src].dependencies);
      ElementsConcat(EdgeList(m.keys[..i], m.records), FileEdges(src, m.records[src].dependencies));
    }
    assert m.keys[..|m.keys|] == m.keys;
  }

  /** The inner loop: one `add_edge` from `src` to each of its dependencies.
      A file without dependencies adds nothing, not even its own node. */
  method AddFileEdges(g: DiGraph, src: string, deps: seq<string>)
    modifies g
    ensures g.edges == old(g.edges) + Elements(FileEdges(src, deps))
    ensures g.nodes == old(g.nodes) + (if deps == [] then {} else {src}) + Elements(deps)
  {
    for j := 0 to |deps|
      invariant g.edges == old(g.edges) + Elements(FileEdges(src, deps[..j]))
      invariant g.nodes == old(g.nodes) + (if j == 0 then {} else {src}) + Elements(deps[..j])
    {
      FileEdgesStep(src, deps, j);
      g.AddEdge(src, deps[j]);
    }
    assert deps[..|deps|] == deps;
  }
}

/** `generate_interactive_html_graph`: every file is added as a node, then
    each of its dependencies as a node followed by the edge to it, into a
    `pyvis` network. Styling, physics and the HTML page are not modelled. */
module InteractiveGraph {
  import opened Text
  import opened Mapping
  import opened GraphModel

  /** The nodes of a `pyvis.network.Network`, and its edges in the order
      they were added (a directed network appends every edge). */
  class Network {
    var nodes: set<string>
    var edges: seq<Edge>

    constructor ()
      ensures nodes == {} && edges == []
    {
      nodes := {};
      edges := [];
    }

    /** `add_node(n, ...)`: a node already present is left as it is. */
    method AddNode(n: string)
      modifies this
      ensures nodes == old(nodes) + {n}
      ensures edges == old(edges)
    {
      nodes := nodes + {n};
    }

    /** `add_edge(source, to)`: both ends must already be nodes. */
    method AddEdge(source: string, to: string)
      requires source in nodes && to in nodes
      modifies this
      ensures nodes == old(nodes)
      ensures edges == old(edges) + [(source, to)]
    {
      edges := edges + [(source, to)];
    }
  }

  /** Every file and every dependency is a node, and one edge is added per
      (file, dependency) pair, in key order then list order. */
  method GenerateInteractiveHtmlGraph(m: FileMapping) returns (g: Network)
    ensures fresh(g)
    ensures g.edges == EdgeList(m.keys, m.records)
    ensures g.nodes == FilesAndDeps(m.keys, m.records)
  {
    g := new Network();
    for i := 0 to |m.keys|
      invariant Covers(m.keys[..i], m.records)
      invariant g.edges == EdgeList(m.keys[..i], m.records)
      invariant g.nodes == FilesAndDeps(m.keys[..i], m.records)
    {
      PrefixStep(m, i);
      var src := m.keys[i];
      AddFile(g, src, m.records[src].dependencies);
    }
    assert m.keys[..|m.keys|] == m.keys;
  }

  /** The body of the loop for one file: its node, then for each dependency
      the dependency's node and the edge to it. */
  method AddFile(g: Network, src: string, deps: seq<string>)
    modifies g
    ensures g.edges == old(g.edges) + FileEdges(src, deps)
    ensures g.nodes == old(g.nodes) + {src} + Elements(deps)
  {
    g.AddNode(src);
    for j := 0 to |deps|
      invariant g.edges == old(g.edges) + FileEdges(src, deps[..j])
      invariant g.nodes == old(g.nodes) + {src} + Elements(deps[..j])
    {
      FileEdgesStep(src, deps, j);
      g.AddNode(deps[j]);
      g.AddEdge(src, deps[j]);
    }
    assert deps[..|deps|] == deps;
  }
}
