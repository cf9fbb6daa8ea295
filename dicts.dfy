/**
 * The dictionary that a loop of `d[key] = value` assignments builds: a later
 * assignment to the same key replaces the earlier value.
 */
module Dicts {
  import opened Wrappers

  /** The dict after assigning every present entry in order; None stands for a skipped line. */
  function Assigned<K, V>(entries: seq<Option<(K, V)>>): map<K, V>
  {
    if entries == [] then
      map[]
    else
      var d := Assigned(entries[..|entries| - 1]);
      var e := entries[|entries| - 1];
      if e.Some? then d[e.value.0 := e.value.1] else d
  }

  /** One more entry: assigned when present, the dict unchanged when skipped. */
  lemma AssignedStep<K, V>(entries: seq<Option<(K, V)>>, e: Option<(K, V)>)
    ensures Assigned(entries + [e]) == if e.Some? then Assigned(entries)[e.value.0 := e.value.1] else Assigned(entries)
  {
    assert (entries + [e])[..|entries|] == entries;
  }

  /** Entry `i` assigns key `k`. */
  predicate Assigns<K(==), V>(entries: seq<Option<(K, V)>>, i: int, k: K)
  {
    0 <= i < |entries| && entries[i].Some? && entries[i].value.0 == k
  }

  /** Entry `i` is the last one that assigns key `k`. */
  predicate LastAssigns<K(==), V>(entries: seq<Option<(K, V)>>, i: int, k: K)
  {
    Assigns(entries, i, k) && forall j :: i < j < |entries| ==> !Assigns(entries, j, k)
  }

  /**
   * A key is in the dict exactly when some entry assigns it, and its value is
   * the one the last such entry assigned.
   */
  lemma {:induction false} LastAssignmentWins<K, V>(entries: seq<Option<(K, V)>>)
    ensures forall k :: k in Assigned(entries) <==> exists i :: Assigns(entries, i, k)
    ensures forall k :: k in Assigned(entries) ==>
      exists i :: LastAssigns(entries, i, k) && entries[i].value.1 == Assigned(entries)[k]
    decreases |entries|
  {
    if entries != [] {
      var n := |entries| - 1;
      var init := entries[..n];
      LastAssignmentWins(init);
      var e := entries[n];
      assert Assigned(entries) == if e.Some? then Assigned(init)[e.value.0 := e.value.1] else Assigned(init);
      forall k
        ensures k in Assigned(entries) <==> exists i :: Assigns(entries, i, k)
      {
        if k in Assigned(entries) && !Assigns(entries, n, k) {
          assert k in Assigned(init);
          var i :| Assigns(init, i, k);
          assert Assigns(entries, i, k);
        }
        if i :| Assigns(entries, i, k) {
          if i < n {
            assert Assigns(init, i, k);
          }
        }
      }
      forall k | k in Assigned(entries)
        ensures exists i :: LastAssigns(entries, i, k) && entries[i].value.1 == Assigned(entries)[k]
      {
        if Assigns(entries, n, k) {
          assert LastAssigns(entries, n, k);
        } else {
          assert k in Assigned(init) && Assigned(entries)[k] == Assigned(init)[k];
          var i :| LastAssigns(init, i, k) && init[i].value.1 == Assigned(init)[k];
          forall j | i < j < |entries|
            ensures !Assigns(entries, j, k)
          {
            if j < n {
              assert !Assigns(init, j, k);
            }
          }
          assert LastAssigns(entries, i, k);
        }
      }
    }
  }
}
