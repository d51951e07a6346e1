/**
 `verifyEulerianPath`: the check that a node ordering walks every edge of the
 graph exactly once. The ordering is whatever the solver returned; the solver
 itself is not part of this model, so the ordering is an input here.
 */
module EulerianPathCheck {
  import opened AdjacencyList
  import opened EdgeHash
  import opened KeyCounts
  import opened CounterScan

  /** How the check ends: it passes, or the assertion that fails. */
  datatype Verdict =
    | Pass
      /** The solver returned `null`. */
    | NullOrdering
      /** The graph has no nodes but the ordering is not empty. */
    | OrderingNotEmpty
      /** The pair ending at position `at` has no counter at all. */
    | MissingEdge(at: nat)
      /** The pair ending at position `at` finds its counter at zero. */
    | EdgeUsedUp(at: nat)
      /** The counter under `key` is not zero after the walk. */
    | EdgeLeftOver(key: int)

  /** The counting pass of `verifyEulerianPath`, over every node's list: one counter per key, holding how many
      edges have that key. */
  method CountEdges(g: Graph) returns (counts: map<int, int>)
    ensures Tallies(counts, EdgeKeys(g.adj))
  {
    var adj := g.adj;
    counts := map[];
    var from := 0;
    while from < |adj|
      invariant 0 <= from <= |adj|
      invariant Tallies(counts, CountedKeys(adj, from))
    {
      var targets := adj[from];
      var j := 0;
      while j < |targets|
        invariant 0 <= j <= |targets|
        invariant Tallies(counts, SeenKeys(adj, from, j))
      {
        var hash := Key((from, targets[j] as int));
        var count := if hash in counts then counts[hash] else 0;
        TalliesAdd(counts, SeenKeys(adj, from, j), hash);
        counts := counts[hash := count + 1];
        j := j + 1;
      }
      from := from + 1;
    }
  }

  /** The walk of `verifyEulerianPath` over the ordering: each consecutive pair must find a positive
      counter for its key, which it decrements. It passes exactly when the
      pairs' keys fit within `keys`; then `rest` holds what is left over. */
  method ConsumeOrdering(counts: map<int, int>, ordering: array<int32>, ghost keys: multiset<int>)
    returns (r: Verdict, rest: map<int, int>)
    requires Tallies(counts, keys)
    ensures r == Pass || r.MissingEdge? || r.EdgeUsedUp?
    ensures forall k :: k in rest ==> rest[k] >= 0
    ensures r == Pass <==> PairKeys(ordering[..]) <= keys
    ensures r == Pass ==> Leftover(rest, keys, PairKeys(ordering[..]))
    ensures r.MissingEdge? ==>
              FirstOverdraw(ordering[..], r.at, keys) && PairKey(ordering[..], r.at) !in keys
    ensures r.EdgeUsedUp? ==>
              FirstOverdraw(ordering[..], r.at, keys) && PairKey(ordering[..], r.at) in keys
  {
    ghost var o := ordering[..];
    rest := counts;
    NothingUsed(counts, keys);
    var i := 1;
    while i < ordering.Length
      invariant 1 <= i && (i <= |o| || |o| == 0)
      invariant WalkedKeys(o, if |o| == 0 then 0 else i) <= keys
      invariant Leftover(rest, keys, WalkedKeys(o, if |o| == 0 then 0 else i))
      invariant forall k :: k in rest ==> rest[k] >= 0
    {
      var hash := Key((ordering[i - 1] as int, ordering[i] as int));
      WalkStep(o, i, keys, rest);
      if hash !in rest {
        return MissingEdge(i), rest;
      }
      var count := rest[hash];
      if count <= 0 {
        return EdgeUsedUp(i), rest;
      }
      rest := rest[hash := count - 1];
      i := i + 1;
    }
    r := Pass;
  }

  /** `verifyEulerianPath(graph)` with the solver's answer given as `ordering`.
      For an empty graph only an empty ordering passes; otherwise the ordering
      passes exactly when its pairs' keys are the edges' keys, with
      multiplicity, and, when no target is negative, exactly when its pairs
      are the graph's edges, with multiplicity. It only reads the graph. */
  method VerifyEulerianPath(g: Graph, ordering: array?<int32>) returns (r: Verdict)
    ensures r == NullOrdering <==> ordering == null
    ensures r == OrderingNotEmpty <==> ordering != null && |g.adj| == 0 && ordering.Length != 0
    ensures r == Pass <==>
              ordering != null &&
              if |g.adj| == 0 then ordering.Length == 0
              else PairKeys(ordering[..]) == EdgeKeys(g.adj)
    ensures r.MissingEdge? ==>
              ordering != null && |g.adj| > 0 && FirstOverdraw(ordering[..], r.at, EdgeKeys(g.adj))
              && PairKey(ordering[..], r.at) !in EdgeKeys(g.adj)
    ensures r.EdgeUsedUp? ==>
              ordering != null && |g.adj| > 0 && FirstOverdraw(ordering[..], r.at, EdgeKeys(g.adj))
              && PairKey(ordering[..], r.at) in EdgeKeys(g.adj)
    ensures r.EdgeLeftOver? ==>
              ordering != null && |g.adj| > 0 && PairKeys(ordering[..]) < EdgeKeys(g.adj)
              && PairKeys(ordering[..])[r.key] < EdgeKeys(g.adj)[r.key]
    ensures NonNegativeTargets(g.adj) ==>
              (r == Pass <==>
                 ordering != null &&
                 if |g.adj| == 0 then ordering.Length == 0
                 else multiset(PairList(ordering[..])) == multiset(EdgeList(g.adj)))
  {
    var n := |g.adj|;
    if n == 0 {
      if ordering == null {
        return NullOrdering;
      }
      return if ordering.Length == 0 then Pass else OrderingNotEmpty;
    }
    if ordering == null {
      return NullOrdering;
    }
    if NonNegativeTargets(g.adj) {
      PairsAreEdges(g.adj, ordering[..]);
    }
    var counts := CountEdges(g);
    var walk, rest := ConsumeOrdering(counts, ordering, EdgeKeys(g.adj));
    if walk != Pass {
      return walk;
    }
    var leftover := FindLeftover(rest);
    LeftoverAllZero(rest, EdgeKeys(g.adj), PairKeys(ordering[..]));
    if leftover.Some? {
      return EdgeLeftOver(leftover.value);
    }
    r := Pass;
  }
}
