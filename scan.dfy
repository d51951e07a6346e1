/**
 The last step of `verifyEulerianPath`: the scan over the counters for one
 that is not zero.
 */
module CounterScan {

  /** The final scan of `verifyEulerianPath` over the map's keys: finds a counter that is not zero, if any.
      The map's iteration order is not fixed, so any such key may be reported. */
  method FindLeftover(counts: map<int, int>) returns (leftover: Option<int>)
    ensures leftover == None <==> forall k :: k in counts ==> counts[k] == 0
    ensures leftover.Some? ==> leftover.value in counts && counts[leftover.value] != 0
  {
    var unseen := counts.Keys;
    while |unseen| > 0
      invariant unseen <= counts.Keys
      invariant forall k :: k in counts && k !in unseen ==> counts[k] == 0
      decreases unseen
    {
      assert exists x :: x in unseen by {
        if forall x: int :: x !in unseen {
          assert false;
        }
      }
      var k :| k in unseen;
      if counts[k] != 0 {
        return Some(k);
      }
      unseen := unseen - {k};
    }
    leftover := None;
  }

  datatype Option<T> = None | Some(value: T)
}
