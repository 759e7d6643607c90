/**
 The key order of a JavaScript `Map`: `set` of a new key appends it, `set` of
 an existing key keeps its place, `delete` removes it. Iterating `keys()`,
 `values()` or the map itself follows this order.
 */
module KeyOrder {

  /** No key occurs twice. */
  predicate Distinct(s: seq<string>)
  {
    forall i, j :: 0 <= i < j < |s| ==> s[i] != s[j]
  }

  /** `order` lists exactly the keys `keys`, each once. */
  ghost predicate Lists(order: seq<string>, keys: set<string>)
  {
    Distinct(order) && forall k :: k in order <==> k in keys
  }

  /** The key order after `Map.set(k, ...)`. */
  function Appended(order: seq<string>, k: string): (r: seq<string>)
    ensures forall x :: x in r <==> x in order || x == k
    ensures Distinct(order) ==> Distinct(r)
    ensures k in order ==> r == order
    ensures k !in order ==> |r| == |order| + 1 && r[..|order|] == order && r[|order|] == k
  {
    if k in order then order else order + [k]
  }

  /** The key order after `Map.delete(k)`. */
  function Without(order: seq<string>, k: string): (r: seq<string>)
    ensures forall x :: x in r <==> x in order && x != k
  {
    if order == [] then []
    else if order[0] == k then Without(order[1..], k)
    else [order[0]] + Without(order[1..], k)
  }

  /** Deleting a key keeps a key order free of repetition. */
  lemma {:induction false} WithoutDistinct(order: seq<string>, k: string)
    requires Distinct(order)
    ensures Distinct(Without(order, k))
  {
    if order != [] {
      var tail := order[1..];
      assert Distinct(tail) by {
        forall i, j | 0 <= i < j < |tail| ensures tail[i] != tail[j] {
          assert tail[i] == order[i + 1] && tail[j] == order[j + 1];
        }
      }
      WithoutDistinct(tail, k);
      if order[0] != k {
        assert order[0] !in tail by {
          forall j | 0 <= j < |tail| ensures tail[j] != order[0] {
            assert tail[j] == order[j + 1];
          }
        }
        var rest := Without(tail, k);
        assert order[0] !in rest;
        assert Without(order, k) == [order[0]] + rest;
      }
    }
  }

  /** Deleting an absent key changes nothing. */
  lemma {:induction false} WithoutAbsent(order: seq<string>, k: string)
    requires k !in order
    ensures Without(order, k) == order
  {
    if order != [] {
      WithoutAbsent(order[1..], k);
    }
  }

  /** Deleting a key from a concatenation deletes it from both parts. */
  lemma {:induction false} WithoutAppend(x: seq<string>, y: seq<string>, k: string)
    ensures Without(x + y, k) == Without(x, k) + Without(y, k)
  {
    if x == [] {
      assert x + y == y;
    } else {
      assert (x + y)[0] == x[0] && (x + y)[1..] == x[1..] + y;
      WithoutAppend(x[1..], y, k);
    }
  }

  /** Deleting a key that sits between two runs of other keys leaves the two runs joined. */
  lemma WithoutMiddle(a: seq<string>, k: string, b: seq<string>)
    requires k !in a && k !in b
    ensures Without(a + [k] + b, k) == a + b
  {
    assert [k][1..] == [];
    assert Without([k], k) == [];
    WithoutAppend(a, [k], k);
    WithoutAbsent(a, k);
    assert Without(a + [k], k) == a;
    WithoutAppend(a + [k], b, k);
    WithoutAbsent(b, k);
  }

  /** In a key order without repetition, the key at `i` occurs neither before nor after `i`. */
  lemma DistinctSplit(order: seq<string>, i: nat)
    requires Distinct(order) && i < |order|
    ensures order[i] !in order[..i] && order[i] !in order[i + 1..]
  {
    var before, after := order[..i], order[i + 1..];
    forall j | 0 <= j < |before| ensures before[j] != order[i] {
      assert before[j] == order[j];
    }
    forall j | 0 <= j < |after| ensures after[j] != order[i] {
      assert after[j] == order[i + 1 + j];
    }
  }

  /** The key order a fresh `Map` ends with after `set` is called with the keys `ks`, in turn. */
  function InsertionOrder(ks: seq<string>): (r: seq<string>)
    ensures Distinct(r)
    ensures forall x :: x in r <==> x in ks
  {
    if ks == [] then [] else Appended(InsertionOrder(ks[..|ks| - 1]), ks[|ks| - 1])
  }

  /** Setting keys that are all different keeps them in the order given. */
  lemma {:induction false} InsertionOrderOfDistinct(ks: seq<string>)
    requires Distinct(ks)
    ensures InsertionOrder(ks) == ks
  {
    if ks != [] {
      var init, k := ks[..|ks| - 1], ks[|ks| - 1];
      assert ks == init + [k];
      assert Distinct(init) by {
        forall i, j | 0 <= i < j < |init| ensures init[i] != init[j] {
          assert init[i] == ks[i] && init[j] == ks[j];
        }
      }
      assert k !in init by {
        forall j | 0 <= j < |init| ensures init[j] != k {
          assert init[j] == ks[j];
        }
      }
      InsertionOrderOfDistinct(init);
    }
  }

  /** A key order with no repetition has as many entries as keys. */
  lemma {:induction false} DistinctCount(order: seq<string>, keys: set<string>)
    requires Lists(order, keys)
    ensures |order| == |keys|
  {
    if order != [] {
      var rest := order[1..];
      assert Lists(rest, keys - {order[0]}) by {
        forall k ensures k in rest <==> k in keys - {order[0]} {
          if k in rest {
            var j :| 0 <= j < |rest| && rest[j] == k;
            assert order[j + 1] == k;
          }
          if k in keys && k != order[0] {
            assert k in order;
            var j :| 0 <= j < |order| && order[j] == k;
            assert j != 0;
            assert rest[j - 1] == k;
          }
        }
      }
      DistinctCount(rest, keys - {order[0]});
    } else {
      assert forall k :: k in keys ==> k in order;
      assert keys == {};
    }
  }
}
