/** Failure-carrying values shared by the modules. */
module Common {

  datatype Option<+T> = None | Some(value: T)

  datatype Result<+T, +E> = Ok(value: T) | Err(error: E)

  /** `order` lists every element of `keys` exactly once: how Go's `range`
      visits a map, in an order the language leaves unspecified. */
  ghost predicate IsEnumeration<K(!new)>(order: seq<K>, keys: set<K>) {
    && (forall i, j :: 0 <= i < j < |order| ==> order[i] != order[j])
    && (forall k :: k in order <==> k in keys)
  }

  /** An enumeration has as many entries as the set has elements. */
  lemma {:induction false} EnumerationSize<K(!new)>(order: seq<K>, keys: set<K>)
    requires IsEnumeration(order, keys)
    ensures |order| == |keys|
    decreases |order|
  {
    if order == [] {
      assert forall k :: k !in keys;
      assert keys == {};
    } else {
      var k := order[0];
      var rest := keys - {k};
      forall x
        ensures x in order[1..] <==> x in rest
      {
        if x in order[1..] {
          var j :| 0 <= j < |order[1..]| && order[1..][j] == x;
          assert order[j + 1] == x;
        }
        if x in rest {
          var j :| 0 <= j < |order| && order[j] == x;
          assert j != 0;
          assert order[1..][j - 1] == x;
        }
      }
      forall i, j | 0 <= i < j < |order[1..]|
        ensures order[1..][i] != order[1..][j]
      {
        assert order[1..][i] == order[i + 1] && order[1..][j] == order[j + 1];
      }
      EnumerationSize(order[1..], rest);
    }
  }
}
