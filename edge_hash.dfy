/**
 The 64-bit key under which the test counts an edge: `((long) from) << 32 | to`.
 */
module EdgeHash {
  import opened AdjacencyList

  const TwoTo32: int := 0x1_0000_0000

  /** The value of `((long) from) << 32 | to` for Java `int`s `from` and `to`.
      The shift puts `from` in the high word and leaves the low word zero. A
      non-negative `to` fills the low word, so the key is `from * 2^32 + to`.
      A negative `to` is sign-extended to 64 bits first, so its high word is all
      ones and swallows `from`: the key is `to` itself. */
  function Key(e: Edge): (k: int)
    ensures Canonical(e) ==> k / TwoTo32 == e.0 && k % TwoTo32 == e.1
    ensures e.1 < 0 ==> k == e.1
  {
    if e.1 >= 0 then e.0 * TwoTo32 + e.1 else e.1
  }

  /** An edge whose key lies in the non-negative range of a `long`: its source
      is non-negative and its target fits in the low word. */
  predicate Canonical(e: Edge)
  {
    e.0 >= 0 && 0 <= e.1 < TwoTo32
  }

  /** An edge whose target is a Java `int` (or any value below 2^32). */
  predicate Encodable(e: Edge)
  {
    e.1 < TwoTo32
  }

  /** The keys of a list of edges, position by position. */
  function KeyList(es: seq<Edge>): (ks: seq<int>)
  {
    seq(|es|, i requires 0 <= i < |es| => Key(es[i]))
  }

  /** The key never confuses two edges whose targets are non-negative. */
  lemma KeyInjective(p: Edge, q: Edge)
    requires 0 <= p.1 < TwoTo32 && 0 <= q.1 < TwoTo32
    ensures Key(p) == Key(q) <==> p == q
  {
  }

  /** A canonical edge shares its key with no other encodable edge. */
  lemma KeyMatch(p: Edge, q: Edge)
    requires Canonical(p) && Encodable(q)
    ensures Key(q) == Key(p) <==> q == p
  {
  }

  /** The key of an edge is non-negative exactly when the edge is canonical. */
  lemma KeySign(e: Edge)
    requires Encodable(e)
    ensures Key(e) >= 0 <==> Canonical(e)
  {
  }

  /** Every non-negative key is the key of one canonical edge. */
  lemma KeyDecode(k: int) returns (e: Edge)
    requires k >= 0
    ensures Canonical(e) && Key(e) == k
  {
    e := (k / TwoTo32, k % TwoTo32);
  }

  /** With a negative target the source is lost: (0, -1) and (1, -1) share
      the key -1. */
  lemma NegativeTargetsCollide()
    ensures Key((0, -1)) == Key((1, -1)) && (0, -1) != (1, -1)
  {
  }

  lemma KeyListAppend(es: seq<Edge>, e: Edge)
    ensures KeyList(es + [e]) == KeyList(es) + [Key(e)]
  {
  }

  /** Counting a canonical edge by its key counts exactly its own occurrences. */
  lemma {:induction false} KeyCount(es: seq<Edge>, p: Edge)
    requires Canonical(p)
    requires forall q :: q in es ==> Encodable(q)
    ensures multiset(KeyList(es))[Key(p)] == multiset(es)[p]
  {
    if es != [] {
      var init := es[..|es| - 1];
      var q := es[|es| - 1];
      assert es == init + [q];
      KeyListAppend(init, q);
      KeyCount(init, p);
      KeyMatch(p, q);
    }
  }

  /** Edges that are all canonical have only non-negative keys. */
  lemma {:induction false} NoNegativeKeys(es: seq<Edge>, k: int)
    requires forall q :: q in es ==> Canonical(q)
    requires k < 0
    ensures k !in multiset(KeyList(es))
  {
    forall i | 0 <= i < |es|
      ensures KeyList(es)[i] != k
    {
      assert es[i] in es;
    }
  }

  /** Comparing key multisets is comparing edge multisets, provided one side
      holds canonical edges only (the other may hold any encodable pair). */
  lemma {:induction false} KeysAgreeIffEdgesAgree(ps: seq<Edge>, qs: seq<Edge>)
    requires forall p :: p in ps ==> Encodable(p)
    requires forall q :: q in qs ==> Canonical(q)
    ensures multiset(KeyList(ps)) == multiset(KeyList(qs)) <==> multiset(ps) == multiset(qs)
  {
    if multiset(KeyList(ps)) == multiset(KeyList(qs)) {
      forall p | p in ps
        ensures Canonical(p)
      {
        var i :| 0 <= i < |ps| && ps[i] == p;
        assert Key(p) in multiset(KeyList(ps)) by { assert KeyList(ps)[i] == Key(p); }
        var j :| 0 <= j < |qs| && KeyList(qs)[j] == Key(p);
        KeyMatch(qs[j], p);
      }
      forall x
        ensures multiset(ps)[x] == multiset(qs)[x]
      {
        if Canonical(x) {
          KeyCount(ps, x);
          KeyCount(qs, x);
        }
      }
    }
    if multiset(ps) == multiset(qs) {
      forall k
        ensures multiset(KeyList(ps))[k] == multiset(KeyList(qs))[k]
      {
        if k < 0 {
          assert forall p :: p in ps ==> Canonical(p) by {
            forall p | p in ps ensures Canonical(p) { assert p in multiset(qs); }
          }
          NoNegativeKeys(ps, k);
          NoNegativeKeys(qs, k);
        } else {
          var x := KeyDecode(k);
          KeyCount(ps, x);
          KeyCount(qs, x);
        }
      }
    }
  }
}
