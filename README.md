# Eulerian-path test harness, modelled in Dafny

The JUnit class `EulerianPathDirectedEdgesAdjacencyListTest` builds directed
multigraphs as adjacency lists and checks the node ordering that an
Eulerian-path solver returns for them. This project models the three helpers
that do that work:

- `initializeEmptyGraph(n)`: a graph of `n` empty adjacency lists.
- `addDirectedEdge(graph, from, to)`: appends `to` to the list of `from`.
- `verifyEulerianPath(graph)`: asks the solver for an ordering and checks it.
  It counts every edge in a `HashMap<Long, Integer>` keyed by
  `((long) from) << 32 | to`. It then walks the consecutive pairs of the
  ordering, and each pair must find a positive counter, which it decrements.
  Finally every counter must be zero.

Modules:

- `AdjacencyList` (`graph.dfy`)
  - `Graph` is a class whose field `adj: seq<seq<int32>>` is the
    `List<List<Integer>>`.
  - The two builders are module-level methods: `InitializeEmptyGraph`
    returns a fresh `Graph`, and `AddDirectedEdge` takes one and is the only
    operation that modifies a graph.
  - `EdgeList` is the graph's edges in the order the counting pass visits
    them.
- `EdgeHash` (`edge_hash.dfy`)
  - The key, in closed form. A non-negative `to` gives `from * 2^32 + to`.
    A negative `to` is sign-extended before the OR, so the key is `to` itself.
  - The key is injective on pairs with non-negative targets.
  - Pairs with a negative target collide.
  - Comparing key multisets is the same as comparing edge multisets.
- `KeyCounts` (`counting.dfy`) holds what the counters contain at each step of
  the check:
  - the keys counted so far and the keys walked so far, as multisets;
  - `Tallies`: the counter map after counting;
  - `Leftover`: the counter map during the walk;
  - the lemmas that connect these to the graph and to the ordering.
- `CounterScan` (`scan.dfy`) holds the final scan over the counters. A
  `HashMap`'s iteration order is not specified, so the scan may take the keys
  in any order.
- `EulerianPathCheck` (`validator.dfy`)
  - `verifyEulerianPath`, split into its counting pass, its walk and its scan.
  - The ordering the solver returned is a parameter (`array?<int32>`, since
    it may be `null`).
  - `Verdict` says whether the check passes, and if not, which assertion
    fails.

The main result is the contract of `EulerianPathCheck.VerifyEulerianPath`:
- For a graph with nodes and a non-null ordering, the check passes exactly
  when the multiset of the ordering's pair keys equals the multiset of the
  edges' keys.
- When no target is negative, that is the same as saying the ordering's
  consecutive pairs are the graph's edges, each used once.
- For the empty graph, only an empty ordering passes.
- `VerifyEulerianPath` has no `modifies` clause, so it only reads the graph.

## Model

| member | source | states |
|---|---|---|
| AdjacencyList.InitializeEmptyGraph | javatests/com/williamfiset/algorithms/graphtheory/EulerianPathDirectedEdgesAdjacencyListTest.java:22-27 | returns a fresh graph of exactly `n` empty lists; a negative `n` (on which the `ArrayList` constructor throws) gives `null` |
| AdjacencyList.EmptyGraphHasNoEdges | javatests/com/williamfiset/algorithms/graphtheory/EulerianPathDirectedEdgesAdjacencyListTest.java:22-27 | a freshly initialised graph has no edges |
| AdjacencyList.AddDirectedEdge | javatests/com/williamfiset/algorithms/graphtheory/EulerianPathDirectedEdgesAdjacencyListTest.java:30-32 | for `from` in range, `to` is appended at the end of `from`'s list and every other list is unchanged; for `from` out of range (`get` throws) it reports failure and changes nothing |
| AdjacencyList.AddDirectedEdgeAddsOneEdge | javatests/com/williamfiset/algorithms/graphtheory/EulerianPathDirectedEdgesAdjacencyListTest.java:30-32 | adding an edge adds exactly `(from, to)` to the graph's edge multiset |
| AdjacencyList.EdgeList | javatests/com/williamfiset/algorithms/graphtheory/EulerianPathDirectedEdgesAdjacencyListTest.java:54-55 | the counting pass visits one edge per list entry, each with an in-range source and an `int` target; the targets are non-negative when the graph's are |
| AdjacencyList.EdgeMultiplicity | javatests/com/williamfiset/algorithms/graphtheory/EulerianPathDirectedEdgesAdjacencyListTest.java:54-55 | the edge `(u, v)` occurs as often as `v` occurs in `u`'s list, and not at all for a `u` outside the graph |
| EdgeHash.Key | javatests/com/williamfiset/algorithms/graphtheory/EulerianPathDirectedEdgesAdjacencyListTest.java:56 | the key of `(from, to)`, computed the same way for the walk at line 68: for a non-negative source and target, dividing by 2^32 gives back `from` and the remainder is `to` (`from` in the high word, `to` in the low word); a negative `to` is sign-extended before the OR and the key is `to` itself |
| EdgeHash.KeyInjective | javatests/com/williamfiset/algorithms/graphtheory/EulerianPathDirectedEdgesAdjacencyListTest.java:56 | two pairs with non-negative targets share a key exactly when they are equal |
| EdgeHash.KeyMatch | javatests/com/williamfiset/algorithms/graphtheory/EulerianPathDirectedEdgesAdjacencyListTest.java:68 | an ordering pair (any `int` target) has the key of a canonical edge exactly when it is that edge |
| EdgeHash.KeySign | javatests/com/williamfiset/algorithms/graphtheory/EulerianPathDirectedEdgesAdjacencyListTest.java:56 | a key is non-negative exactly when its source is non-negative and its target lies in the low word |
| EdgeHash.KeyDecode | javatests/com/williamfiset/algorithms/graphtheory/EulerianPathDirectedEdgesAdjacencyListTest.java:56 | every non-negative key is the key of a canonical edge |
| EdgeHash.NegativeTargetsCollide | javatests/com/williamfiset/algorithms/graphtheory/EulerianPathDirectedEdgesAdjacencyListTest.java:56 | with a negative target the source is lost: `(0, -1)` and `(1, -1)` share a key |
| EdgeHash.KeyCount | javatests/com/williamfiset/algorithms/graphtheory/EulerianPathDirectedEdgesAdjacencyListTest.java:56-59 | the counter of a canonical edge's key counts exactly that edge's occurrences |
| EdgeHash.KeysAgreeIffEdgesAgree | javatests/com/williamfiset/algorithms/graphtheory/EulerianPathDirectedEdgesAdjacencyListTest.java:53-79 | if one side holds only canonical edges, its key multiset equals the other side's exactly when its edge multiset does |
| KeyCounts.CountedKeys | javatests/com/williamfiset/algorithms/graphtheory/EulerianPathDirectedEdgesAdjacencyListTest.java:54-60 | the keys the nested loops have counted when the outer loop reaches node `from`: as many as the first `from` lists have entries |
| KeyCounts.SeenKeys | javatests/com/williamfiset/algorithms/graphtheory/EulerianPathDirectedEdgesAdjacencyListTest.java:55-59 | the keys counted when the inner loop of node `from` has taken `j` targets: the earlier nodes' edge count plus `j` |
| KeyCounts.WalkedKeys | javatests/com/williamfiset/algorithms/graphtheory/EulerianPathDirectedEdgesAdjacencyListTest.java:63-73 | the keys the walk has taken when it reaches position `i`: one per pair before `i`, i.e. `i - 1` of them (none for `i <= 1`) |
| KeyCounts.PairList | javatests/com/williamfiset/algorithms/graphtheory/EulerianPathDirectedEdgesAdjacencyListTest.java:63-65 | the walk visits `length - 1` pairs, the i-th being `(ordering[i], ordering[i+1])` |
| KeyCounts.TalliesUnique | javatests/com/williamfiset/algorithms/graphtheory/EulerianPathDirectedEdgesAdjacencyListTest.java:53-61 | the counter map after the counting pass is determined by the counted keys |
| KeyCounts.TalliesAdd | javatests/com/williamfiset/algorithms/graphtheory/EulerianPathDirectedEdgesAdjacencyListTest.java:57-59 | incrementing a counter (created at 0 when missing) counts one more key |
| KeyCounts.NothingUsed | javatests/com/williamfiset/algorithms/graphtheory/EulerianPathDirectedEdgesAdjacencyListTest.java:53-63 | the walk starts from the counting pass's counters with nothing taken |
| KeyCounts.LeftoverTake | javatests/com/williamfiset/algorithms/graphtheory/EulerianPathDirectedEdgesAdjacencyListTest.java:72 | decrementing a counter takes one more key |
| KeyCounts.WalkedKeysGrow | javatests/com/williamfiset/algorithms/graphtheory/EulerianPathDirectedEdgesAdjacencyListTest.java:63-73 | a longer walk takes every key a shorter one takes |
| KeyCounts.Overdraw | javatests/com/williamfiset/algorithms/graphtheory/EulerianPathDirectedEdgesAdjacencyListTest.java:69-71 | a pair whose key the earlier pairs have used up is the first overdraw, and the whole ordering takes more than the graph holds |
| KeyCounts.WalkStep | javatests/com/williamfiset/algorithms/graphtheory/EulerianPathDirectedEdgesAdjacencyListTest.java:63-73 | at each pair, a null counter means the key is not an edge key, a zero counter means it is used up (both are the first overdraw), and a positive one is decremented into the counters of the longer walk |
| KeyCounts.LeftoverAllZero | javatests/com/williamfiset/algorithms/graphtheory/EulerianPathDirectedEdgesAdjacencyListTest.java:76-79 | after a walk within the counts no counter is negative, and every counter is zero exactly when the walk took every counted key as often as it was counted |
| KeyCounts.CountedKeysMatchEdgeList | javatests/com/williamfiset/algorithms/graphtheory/EulerianPathDirectedEdgesAdjacencyListTest.java:53-61 | the keys counted before node `from` are the keys of the edges of the first `from` nodes |
| KeyCounts.SeenKeysMatchEdgeList | javatests/com/williamfiset/algorithms/graphtheory/EulerianPathDirectedEdgesAdjacencyListTest.java:55-60 | inside node `from`'s list, the keys counted are the earlier nodes' edge keys plus those of `from`'s first `j` edges |
| KeyCounts.SeenKeysStep | javatests/com/williamfiset/algorithms/graphtheory/EulerianPathDirectedEdgesAdjacencyListTest.java:55-59 | one iteration of the inner loop extends the match between counted keys and edge keys by one edge |
| KeyCounts.EdgeKeysCount | javatests/com/williamfiset/algorithms/graphtheory/EulerianPathDirectedEdgesAdjacencyListTest.java:53-61 | the counting pass counts exactly one key per edge |
| KeyCounts.EdgeKeysMatchEdgeList | javatests/com/williamfiset/algorithms/graphtheory/EulerianPathDirectedEdgesAdjacencyListTest.java:53-61 | the counting pass counts the keys of the graph's edge list |
| KeyCounts.WalkedKeysMatchPairList | javatests/com/williamfiset/algorithms/graphtheory/EulerianPathDirectedEdgesAdjacencyListTest.java:63-73 | the keys walked before position `i` are the keys of the pairs of the first `i` nodes |
| KeyCounts.PairKeysMatchPairList | javatests/com/williamfiset/algorithms/graphtheory/EulerianPathDirectedEdgesAdjacencyListTest.java:63-73 | the walk takes the keys of the ordering's pair list |
| KeyCounts.PairsAreEdges | javatests/com/williamfiset/algorithms/graphtheory/EulerianPathDirectedEdgesAdjacencyListTest.java:53-79 | with non-negative targets, the keyed comparison equals the comparison of the ordering's pairs with the graph's edges, with multiplicity |
| KeyCounts.CountedMultiplicity | javatests/com/williamfiset/algorithms/graphtheory/EulerianPathDirectedEdgesAdjacencyListTest.java:53-61 | for any graph and non-negative `u`, `v`, after counting `(u, v)` has a counter exactly when it is an edge, and the counter holds the number of times `v` occurs in `u`'s list |
| KeyCounts.PassingOrderingLength | javatests/com/williamfiset/algorithms/graphtheory/EulerianPathDirectedEdgesAdjacencyListTest.java:63-79 | an ordering whose pairs are the `m` edges has `m + 1` nodes when `m >= 1`, and at most one when `m == 0` |
| KeyCounts.PassingKeysLength | javatests/com/williamfiset/algorithms/graphtheory/EulerianPathDirectedEdgesAdjacencyListTest.java:63-79 | for every graph, negative targets included, an ordering whose pair keys are the edge keys has `m + 1` nodes when `m >= 1` edges, and at most one when `m == 0` |
| CounterScan.FindLeftover | javatests/com/williamfiset/algorithms/graphtheory/EulerianPathDirectedEdgesAdjacencyListTest.java:76-79 | reports no key exactly when every counter is zero; otherwise it reports a key whose counter is not zero |
| EulerianPathCheck.CountEdges | javatests/com/williamfiset/algorithms/graphtheory/EulerianPathDirectedEdgesAdjacencyListTest.java:53-61 | the counters after the nested loops tally the keys of the graph's edges: one counter per key, holding its multiplicity |
| EulerianPathCheck.ConsumeOrdering | javatests/com/williamfiset/algorithms/graphtheory/EulerianPathDirectedEdgesAdjacencyListTest.java:63-73 | the walk passes exactly when the pairs' keys fit within the counted keys, and then leaves the difference. Otherwise it stops at the first overdrawn pair, reporting a missing counter or a used-up one. No counter goes negative |
| EulerianPathCheck.VerifyEulerianPath | javatests/com/williamfiset/algorithms/graphtheory/EulerianPathDirectedEdgesAdjacencyListTest.java:34-81 | for an empty graph, passes exactly on an empty ordering. A null ordering fails. Otherwise it passes exactly when the pair keys equal the edge keys with multiplicity, and with non-negative targets exactly when the ordering's pairs are the graph's edges. Each failure names its assertion with its witness |

## Left out

- The solver `EulerianPathDirectedEdgesAdjacencyList` and `getEulerianPath()` are not part of this model.
  - The ordering is a parameter of `VerifyEulerianPath`.
  - Nothing is claimed about which orderings the solver produces. That includes its `null` for the one-node self-loop graph (lines 125-136), an ordering the check itself would accept as `[0, 0]`.
- `Geometry/CircleCircleIntersection.java`: floating-point geometry, outside the harness.
- JUnit and Truth plumbing is not modelled: `setUp`, the `@Test` methods, the empty `testTwoNodeGraph`, and the `println` of line 44.
- Exceptions are results here. Each failed assertion is a `Verdict`.
  - The `NullPointerException` that `ordering.length` throws for an empty graph with a `null` ordering is reported as `NullOrdering`.
  - An out-of-range `from` in `addDirectedEdge` returns `false`.
  - A negative size in `initializeEmptyGraph` returns `null`.
- The inner lists are values. Aliasing between the graph's `ArrayList`s is not modelled.
- Counters and list sizes are unbounded integers. `Integer` overflow past 2^31 - 1 edges is not modelled, and neither is a graph with more than 2^31 - 1 nodes.
- Lists hold `int` values, so a `null` `Integer` element (which would throw on unboxing) cannot occur.
- `HashMap` is modelled as a Dafny `map` from the `long` key to the count. The order of the final scan is a nondeterministic choice, so when several counters are not zero the reported key is any one of them.
- EulerianPathCheck.VerifyEulerianPath: the edge-multiset form of the verdict is stated only for graphs without negative targets. With a negative target the check compares colliding keys (`EdgeHash.NegativeTargetsCollide`), and the contract states that keyed comparison exactly.
