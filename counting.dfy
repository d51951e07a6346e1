/**
 What the counters of `verifyEulerianPath` hold: the keys of the graph's edges
 and of an ordering's consecutive pairs, as multisets, and the counter maps
 built from them.
 */
module KeyCounts {
  import opened AdjacencyList
  import opened EdgeHash

  /** The keys of the edges of the first `from` nodes, with multiplicity: what
      the counting pass has counted when it reaches node `from`. */
  function CountedKeys(adj: seq<seq<int32>>, from: nat): (keys: multiset<int>)
    requires from <= |adj|
    ensures |keys| == EdgeCount(adj[..from])
    decreases from, 0, 0
  {
    if from == 0 then multiset{}
    else
      assert adj[..from][..from - 1] == adj[..from - 1];
      SeenKeys(adj, from - 1, |adj[from - 1]|)
  }

  /** What the counting pass has counted when it reaches target `j` of node
      `from`: the keys of the earlier nodes' edges and of `from`'s first `j`
      edges. */
  function SeenKeys(adj: seq<seq<int32>>, from: nat, j: nat): (keys: multiset<int>)
    requires from < |adj| && j <= |adj[from]|
    ensures |keys| == EdgeCount(adj[..from]) + j
    decreases from, 1, j
  {
    if j == 0 then CountedKeys(adj, from)
    else SeenKeys(adj, from, j - 1) + multiset{Key((from, adj[from][j - 1] as int))}
  }

  /** The keys the counting pass increments, with multiplicity. */
  function EdgeKeys(adj: seq<seq<int32>>): multiset<int>
  {
    CountedKeys(adj, |adj|)
  }

  /** The key of the pair that ends at position `at` of an ordering. */
  function PairKey(ordering: seq<int32>, at: nat): int
    requires 1 <= at < |ordering|
  {
    Key((ordering[at - 1] as int, ordering[at] as int))
  }

  /** The keys of the pairs ending before position `i`, with multiplicity:
      what the walk has taken when it reaches position `i`. */
  function WalkedKeys(ordering: seq<int32>, i: nat): (keys: multiset<int>)
    requires i <= |ordering|
    ensures |keys| == if i <= 1 then 0 else i - 1
  {
    if i <= 1 then multiset{}
    else WalkedKeys(ordering, i - 1) + multiset{PairKey(ordering, i - 1)}
  }

  /** The keys the walk decrements, with multiplicity: one per consecutive
      pair. */
  function PairKeys(ordering: seq<int32>): multiset<int>
  {
    WalkedKeys(ordering, |ordering|)
  }

  /** The consecutive pairs (ordering[i-1], ordering[i]) of an ordering. */
  function PairList(ordering: seq<int32>): (ps: seq<Edge>)
    ensures |ps| == if |ordering| <= 1 then 0 else |ordering| - 1
    ensures forall i :: 0 <= i < |ps| ==> ps[i] == (ordering[i] as int, ordering[i + 1] as int)
  {
    if |ordering| <= 1 then []
    else PairList(ordering[..|ordering| - 1]) + [(ordering[|ordering| - 2] as int, ordering[|ordering| - 1] as int)]
  }

  /** `counts` has a counter for every key of `keys` and for no other key, and
      each counter holds its key's multiplicity in `keys`. */
  ghost predicate Tallies(counts: map<int, int>, keys: multiset<int>)
  {
    forall k :: (k in counts <==> k in keys) && (k in counts ==> counts[k] == keys[k])
  }

  /** `rest` has a counter for every key of `keys` and for no other key, and
      each counter holds its key's multiplicity in `keys` less its
      multiplicity in `used`. */
  ghost predicate Leftover(rest: map<int, int>, keys: multiset<int>, used: multiset<int>)
  {
    forall k :: (k in rest <==> k in keys) && (k in rest ==> rest[k] == keys[k] as int - used[k] as int)
  }

  /** Position `at` of an ordering is where the walk first takes a key that
      `keys` no longer holds. */
  predicate FirstOverdraw(ordering: seq<int32>, at: nat, keys: multiset<int>)
  {
    1 <= at < |ordering|
    && WalkedKeys(ordering, at) <= keys
    && !(WalkedKeys(ordering, at + 1) <= keys)
  }

  /** Walking further never takes fewer keys. */
  lemma {:induction false} WalkedKeysGrow(ordering: seq<int32>, i: nat, j: nat)
    requires i <= j <= |ordering|
    ensures WalkedKeys(ordering, i) <= WalkedKeys(ordering, j)
  {
    if j > i && j >= 2 {
      WalkedKeysGrow(ordering, i, j - 1);
    }
  }

  /** A multiset has one tally: two counter maps that tally the same keys are
      the same map. */
  lemma TalliesUnique(a: map<int, int>, b: map<int, int>, keys: multiset<int>)
    requires Tallies(a, keys) && Tallies(b, keys)
    ensures a == b
  {
    assert forall k :: k in a <==> k in keys;
    assert forall k :: k in b <==> k in keys;
    assert forall k :: k in a ==> a[k] == b[k];
  }

  /** Counting one more key increments its counter, creating it at 1. */
  lemma TalliesAdd(counts: map<int, int>, keys: multiset<int>, k: int)
    requires Tallies(counts, keys)
    ensures Tallies(counts[k := (if k in counts then counts[k] else 0) + 1], keys + multiset{k})
  {
  }

  /** Before the walk the counters are the counting pass's. */
  lemma NothingUsed(counts: map<int, int>, keys: multiset<int>)
    requires Tallies(counts, keys)
    ensures Leftover(counts, keys, multiset{})
  {
  }

  /** Taking one more key decrements its counter. */
  lemma LeftoverTake(rest: map<int, int>, keys: multiset<int>, used: multiset<int>, k: int)
    requires Leftover(rest, keys, used)
    requires k in keys
    ensures Leftover(rest[k := rest[k] - 1], keys, used + multiset{k})
  {
  }

  /** A pair whose key the earlier pairs already used up makes the whole
      ordering take more than `keys` holds. */
  lemma Overdraw(ordering: seq<int32>, at: nat, keys: multiset<int>)
    requires 1 <= at < |ordering|
    requires WalkedKeys(ordering, at) <= keys
    requires WalkedKeys(ordering, at)[PairKey(ordering, at)] >= keys[PairKey(ordering, at)]
    ensures FirstOverdraw(ordering, at, keys)
    ensures !(PairKeys(ordering) <= keys)
  {
    var k := PairKey(ordering, at);
    assert WalkedKeys(ordering, at + 1)[k] > keys[k];
    WalkedKeysGrow(ordering, at + 1, |ordering|);
    assert PairKeys(ordering)[k] > keys[k];
  }

  /** One step of the walk at position `i`, with the counters `rest` left by
      the earlier pairs: a missing or zero counter is the first overdraw, and
      a positive one is decremented into the counters after this pair. */
  lemma WalkStep(ordering: seq<int32>, i: nat, keys: multiset<int>, rest: map<int, int>)
    requires 1 <= i < |ordering|
    requires WalkedKeys(ordering, i) <= keys
    requires Leftover(rest, keys, WalkedKeys(ordering, i))
    ensures var k := PairKey(ordering, i);
            && (k !in rest ==> FirstOverdraw(ordering, i, keys) && k !in keys && !(PairKeys(ordering) <= keys))
            && (k in rest && rest[k] <= 0 ==>
                  FirstOverdraw(ordering, i, keys) && k in keys && !(PairKeys(ordering) <= keys))
            && (k in rest && rest[k] > 0 ==>
                  WalkedKeys(ordering, i + 1) <= keys
                  && Leftover(rest[k := rest[k] - 1], keys, WalkedKeys(ordering, i + 1)))
  {
    var k := PairKey(ordering, i);
    if k !in rest || rest[k] <= 0 {
      Overdraw(ordering, i, keys);
    } else {
      LeftoverTake(rest, keys, WalkedKeys(ordering, i), k);
    }
  }

  /** Every counter is zero after the walk exactly when the walk used every key
      as often as the counting pass saw it; no counter is ever negative. */
  lemma LeftoverAllZero(rest: map<int, int>, keys: multiset<int>, used: multiset<int>)
    requires used <= keys
    requires Leftover(rest, keys, used)
    ensures forall k :: k in rest ==> rest[k] >= 0
    ensures (forall k :: k in rest ==> rest[k] == 0) <==> used == keys
  {
    if forall k :: k in rest ==> rest[k] == 0 {
      forall k
        ensures used[k] == keys[k]
      {
        if k in keys {
          assert rest[k] == 0;
        }
      }
    }
  }

  /** The counted keys are the keys of the first `from` nodes' edges. */
  lemma {:induction false} CountedKeysMatchEdgeList(adj: seq<seq<int32>>, from: nat)
    requires from <= |adj|
    ensures CountedKeys(adj, from) == multiset(KeyList(EdgeList(adj[..from])))
    decreases from, 0, 0
  {
    if from > 0 {
      var last := from - 1;
      SeenKeysMatchEdgeList(adj, last, |adj[last]|);
      assert adj[last][..|adj[last]|] == adj[last];
      assert adj[..from][..last] == adj[..last];
      assert EdgeList(adj[..from]) == EdgeList(adj[..last]) + OutEdges(last, adj[last]);
    }
  }

  /** Within node `from`, the counted keys are those of the earlier nodes' edges
      followed by `from`'s first `j` edges. */
  lemma {:induction false} SeenKeysMatchEdgeList(adj: seq<seq<int32>>, from: nat, j: nat)
    requires from < |adj| && j <= |adj[from]|
    ensures SeenKeys(adj, from, j)
         == multiset(KeyList(EdgeList(adj[..from]) + OutEdges(from, adj[from][..j])))
    decreases from, 1, j
  {
    if j == 0 {
      CountedKeysMatchEdgeList(adj, from);
      assert EdgeList(adj[..from]) + OutEdges(from, adj[from][..0]) == EdgeList(adj[..from]);
    } else {
      SeenKeysMatchEdgeList(adj, from, j - 1);
      SeenKeysStep(adj, from, j);
    }
  }

  /** One step of the inner loop: the match for `j - 1` targets extends to `j`. */
  lemma SeenKeysStep(adj: seq<seq<int32>>, from: nat, j: nat)
    requires from < |adj| && 0 < j <= |adj[from]|
    requires SeenKeys(adj, from, j - 1)
          == multiset(KeyList(EdgeList(adj[..from]) + OutEdges(from, adj[from][..j - 1])))
    ensures SeenKeys(adj, from, j)
         == multiset(KeyList(EdgeList(adj[..from]) + OutEdges(from, adj[from][..j])))
  {
    var done := EdgeList(adj[..from]);
    var targets := adj[from];
    var pre := OutEdges(from, targets[..j - 1]);
    var e := (from, targets[j - 1] as int);
    assert OutEdges(from, targets[..j]) == pre + [e] by {
      assert targets[..j] == targets[..j - 1] + [targets[j - 1]];
      OutEdgesAppend(from, targets[..j - 1], targets[j - 1]);
    }
    KeysAppend(done, pre, e);
  }

  /** Keying one more edge adds its key once. */
  lemma KeysAppend(done: seq<Edge>, pre: seq<Edge>, e: Edge)
    ensures multiset(KeyList(done + (pre + [e]))) == multiset(KeyList(done + pre)) + multiset{Key(e)}
  {
    assert done + (pre + [e]) == (done + pre) + [e];
    KeyListAppend(done + pre, e);
  }

  /** The counted keys are the keys of the graph's edge list. */
  lemma EdgeKeysMatchEdgeList(adj: seq<seq<int32>>)
    ensures EdgeKeys(adj) == multiset(KeyList(EdgeList(adj)))
  {
    CountedKeysMatchEdgeList(adj, |adj|);
    assert adj[..|adj|] == adj;
  }

  /** The keys walked before position `i` are those of the pairs of `ordering[..i]`. */
  lemma {:induction false} WalkedKeysMatchPairList(ordering: seq<int32>, i: nat)
    requires i <= |ordering|
    ensures WalkedKeys(ordering, i) == multiset(KeyList(PairList(ordering[..i])))
  {
    if i > 1 {
      var pre := PairList(ordering[..i - 1]);
      var p := (ordering[i - 2] as int, ordering[i - 1] as int);
      WalkedKeysMatchPairList(ordering, i - 1);
      assert ordering[..i][..i - 1] == ordering[..i - 1];
      assert PairList(ordering[..i]) == pre + [p];
      KeyListAppend(pre, p);
      assert KeyList(PairList(ordering[..i])) == KeyList(pre) + [Key(p)];
    }
  }

  /** The walked keys are the keys of the ordering's pair list. */
  lemma PairKeysMatchPairList(ordering: seq<int32>)
    ensures PairKeys(ordering) == multiset(KeyList(PairList(ordering)))
  {
    WalkedKeysMatchPairList(ordering, |ordering|);
    assert ordering[..|ordering|] == ordering;
  }

  /** When no target is negative, the keyed comparison the check makes is the
      comparison of the ordering's pairs with the graph's edges. */
  lemma PairsAreEdges(adj: seq<seq<int32>>, ordering: seq<int32>)
    requires NonNegativeTargets(adj)
    ensures PairKeys(ordering) == EdgeKeys(adj)
        <==> multiset(PairList(ordering)) == multiset(EdgeList(adj))
  {
    var ps, es := PairList(ordering), EdgeList(adj);
    forall e | e in es ensures Canonical(e) { }
    forall p | p in ps
      ensures Encodable(p)
    {
      var i :| 0 <= i < |ps| && ps[i] == p;
      assert ordering[i + 1] as int < 0x8000_0000;
    }
    EdgeKeysMatchEdgeList(adj);
    PairKeysMatchPairList(ordering);
    KeysAgreeIffEdgesAgree(ps, es);
  }

  /** After the counting pass the counter of the edge (u, v) holds the number
      of times `v` occurs in the list of `u`, and a pair that is not an edge
      has no counter. */
  lemma CountedMultiplicity(adj: seq<seq<int32>>, counts: map<int, int>, u: int, v: int32)
    requires Tallies(counts, EdgeKeys(adj))
    requires u >= 0 && v >= 0
    ensures && (Key((u, v as int)) in counts <==> u < |adj| && v in adj[u])
            && (Key((u, v as int)) in counts ==> counts[Key((u, v as int))] == multiset(adj[u])[v])
  {
    var es := EdgeList(adj);
    forall e | e in es ensures Encodable(e) { }
    EdgeKeysMatchEdgeList(adj);
    KeyCount(es, (u, v as int));
    EdgeMultiplicity(adj, u, v);
  }

  /** An ordering whose pairs are exactly the edges, with multiplicity, has one
      more node than the graph has edges; with no edges it has at most one. */
  lemma PassingOrderingLength(adj: seq<seq<int32>>, ordering: seq<int32>)
    requires multiset(PairList(ordering)) == multiset(EdgeList(adj))
    ensures EdgeCount(adj) >= 1 ==> |ordering| == EdgeCount(adj) + 1
    ensures EdgeCount(adj) == 0 ==> |ordering| <= 1
  {
  }

  /** The counting pass counts one key per edge. */
  lemma EdgeKeysCount(adj: seq<seq<int32>>)
    ensures |EdgeKeys(adj)| == EdgeCount(adj)
  {
    assert adj[..|adj|] == adj;
  }

  /** An ordering whose pair keys are the edge keys, with multiplicity, has one
      more node than the graph has edges; with no edges it has at most one.
      This holds for every graph, negative targets included. */
  lemma PassingKeysLength(adj: seq<seq<int32>>, ordering: seq<int32>)
    requires PairKeys(ordering) == EdgeKeys(adj)
    ensures EdgeCount(adj) >= 1 ==> |ordering| == EdgeCount(adj) + 1
    ensures EdgeCount(adj) == 0 ==> |ordering| <= 1
  {
    EdgeKeysCount(adj);
  }
}
