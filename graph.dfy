/**
 The directed multigraph that the Eulerian-path tests build: one ordered list of
 target nodes per node (a `List<List<Integer>>`), grown one edge at a time.
 */
module AdjacencyList {

  /** A Java `int`. */
  newtype int32 = x: int | -0x8000_0000 <= x < 0x8000_0000

  /** A directed edge or a consecutive pair of an ordering, as (from, to). */
  type Edge = (int, int)

  /** The outer list of the graph; `adj[u]` holds the targets of `u`'s outgoing
      edges in insertion order. A target is any `int`: nothing checks its range. */
  class Graph {
    var adj: seq<seq<int32>>

    constructor ()
      ensures adj == []
    {
      adj := [];
    }
  }

  /** Every target in the graph is non-negative (true of every graph whose
      targets are node indices). */
  predicate NonNegativeTargets(adj: seq<seq<int32>>)
  {
    forall u, j :: 0 <= u < |adj| && 0 <= j < |adj[u]| ==> adj[u][j] >= 0
  }

  /** Number of edges: the sum of the lengths of the adjacency lists. */
  function EdgeCount(adj: seq<seq<int32>>): nat
  {
    if adj == [] then 0 else EdgeCount(adj[..|adj| - 1]) + |adj[|adj| - 1]|
  }

  /** The edges leaving `from`, one per entry of its list, in list order. */
  function OutEdges(from: int, targets: seq<int32>): seq<Edge>
  {
    seq(|targets|, j requires 0 <= j < |targets| => (from, targets[j] as int))
  }

  /** Every edge of the graph, node by node and within a node in list order:
      the order in which the counting pass of the test visits them. */
  function EdgeList(adj: seq<seq<int32>>): (es: seq<Edge>)
    ensures |es| == EdgeCount(adj)
    ensures forall e :: e in es ==> 0 <= e.0 < |adj| && -0x8000_0000 <= e.1 < 0x8000_0000
    ensures NonNegativeTargets(adj) ==> forall e :: e in es ==> e.1 >= 0
  {
    if adj == [] then []
    else
      var last := |adj| - 1;
      assert NonNegativeTargets(adj) ==> NonNegativeTargets(adj[..last]);
      EdgeList(adj[..last]) + OutEdges(last, adj[last])
  }

  /** The empty graph of `n` nodes. */
  function EmptyLists(n: nat): seq<seq<int32>>
  {
    seq(n, _ => [])
  }

  /** `initializeEmptyGraph(n)`: a fresh graph of `n` empty adjacency lists. A
      negative `n` makes the `ArrayList` capacity check throw; that is the
      `null` result here. */
  method InitializeEmptyGraph(n: int32) returns (g: Graph?)
    ensures g == null <==> n < 0
    ensures g != null ==> fresh(g) && g.adj == EmptyLists(n as int)
  {
    if n < 0 {
      return null;
    }
    g := new Graph();
    var i: int32 := 0;
    while i < n
      invariant 0 <= i <= n
      invariant g.adj == EmptyLists(i as int)
    {
      g.adj := g.adj + [[]];
      i := i + 1;
    }
  }

  /** `addDirectedEdge(graph, from, to)`: appends `to` to the list of `from`.
      A `from` outside the graph makes `graph.get(from)` throw; then `ok` is
      false and nothing changes. */
  method AddDirectedEdge(g: Graph, from: int32, to: int32) returns (ok: bool)
    modifies g
    ensures ok <==> 0 <= from as int < |old(g.adj)|
    ensures ok ==> g.adj == old(g.adj)[from := old(g.adj)[from] + [to]]
    ensures !ok ==> g.adj == old(g.adj)
  {
    if from < 0 || from as int >= |g.adj| {
      return false;
    }
    g.adj := g.adj[from := g.adj[from] + [to]];
    ok := true;
  }

  /** A freshly initialised graph has no edges. */
  lemma {:induction false} EmptyGraphHasNoEdges(n: nat)
    ensures EdgeList(EmptyLists(n)) == []
  {
    if n > 0 {
      assert EmptyLists(n)[..n - 1] == EmptyLists(n - 1);
      EmptyGraphHasNoEdges(n - 1);
    }
  }

  lemma OutEdgesAppend(from: int, targets: seq<int32>, to: int32)
    ensures OutEdges(from, targets + [to]) == OutEdges(from, targets) + [(from, to as int)]
  {
  }

  /** Adding the edge (from, to) adds exactly that edge to the graph's edge
      multiset and leaves every other multiplicity alone. */
  lemma {:induction false} AddDirectedEdgeAddsOneEdge(adj: seq<seq<int32>>, from: nat, to: int32)
    requires from < |adj|
    ensures multiset(EdgeList(adj[from := adj[from] + [to]]))
         == multiset(EdgeList(adj)) + multiset{(from as int, to as int)}
  {
    var adj' := adj[from := adj[from] + [to]];
    var last := |adj| - 1;
    if from == last {
      assert adj'[..last] == adj[..last];
      OutEdgesAppend(from, adj[from], to);
    } else {
      assert adj'[..last] == adj[..last][from := adj[from] + [to]];
      AddDirectedEdgeAddsOneEdge(adj[..last], from, to);
    }
  }

  lemma {:induction false} OutEdgesMultiplicity(from: int, targets: seq<int32>, u: int, v: int32)
    ensures multiset(OutEdges(from, targets))[(u, v as int)]
         == if u == from then multiset(targets)[v] else 0
  {
    if targets != [] {
      var init := targets[..|targets| - 1];
      var t := targets[|targets| - 1];
      assert targets == init + [t];
      OutEdgesAppend(from, init, t);
      OutEdgesMultiplicity(from, init, u, v);
    }
  }

  /** The graph holds the edge (u, v) exactly as many times as `v` occurs in
      the list of `u`. */
  lemma {:induction false} EdgeMultiplicity(adj: seq<seq<int32>>, u: int, v: int32)
    ensures multiset(EdgeList(adj))[(u, v as int)]
         == if 0 <= u < |adj| then multiset(adj[u])[v] else 0
  {
    if adj != [] {
      var last := |adj| - 1;
      EdgeMultiplicity(adj[..last], u, v);
      OutEdgesMultiplicity(last, adj[last], u, v);
    }
  }
}
