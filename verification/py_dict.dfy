/**
 * Python's `dict`, which remembers insertion order: a sequence of
 * key/value pairs with pairwise distinct keys. Assigning to a present key
 * keeps its position; assigning to a new key appends it.
 */
module PyDict {

  datatype Option<T> = None | Some(value: T)

  function Keys<K, V>(d: seq<(K, V)>): (ks: seq<K>)
    ensures |ks| == |d| && forall i :: 0 <= i < |d| ==> ks[i] == d[i].0
  {
    seq(|d|, i requires 0 <= i < |d| => d[i].0)
  }

  lemma KeysSnoc<K, V>(d: seq<(K, V)>, x: (K, V))
    ensures Keys(d + [x]) == Keys(d) + [x.0]
  {
  }

  /** The invariant every Python dict keeps: no key twice. */
  predicate IsDict<K(==), V>(d: seq<(K, V)>) {
    forall i, j :: 0 <= i < j < |d| ==> d[i].0 != d[j].0
  }

  /** `d[k] = v`: a present key takes the value `v` where it stands, a new
      key is appended; the result is again a dict. */
  function Set<K(==), V>(d: seq<(K, V)>, k: K, v: V): (r: seq<(K, V)>)
    requires IsDict(d)
    ensures IsDict(r)
    ensures k in Keys(d) ==> Keys(r) == Keys(d)
    ensures k !in Keys(d) ==> r == d + [(k, v)]
    ensures forall i :: 0 <= i < |d| && d[i].0 != k ==> r[i] == d[i]
    ensures (k, v) in r
  {
    if k in Keys(d) then seq(|d|, i requires 0 <= i < |d| => if d[i].0 == k then (k, v) else d[i])
    else d + [(k, v)]
  }

  /** After `d[k] = v` the keys are those of `d` together with `k`, and `k`
      holds `v`. */
  lemma SetKeys<K, V>(d: seq<(K, V)>, k: K, v: V)
    requires IsDict(d)
    ensures forall k' :: k' in Keys(Set(d, k, v)) <==> k' in Keys(d) || k' == k
    ensures forall i :: 0 <= i < |Set(d, k, v)| && Set(d, k, v)[i].0 == k ==> Set(d, k, v)[i].1 == v
  {
    var r := Set(d, k, v);
    forall k' | k' in Keys(r) ensures k' in Keys(d) || k' == k {
      var i :| 0 <= i < |r| && r[i].0 == k';
      if i < |d| && d[i].0 != k {
        assert Keys(d)[i] == k';
      }
    }
    forall k' | k' in Keys(d) ensures k' in Keys(r) {
      var i :| 0 <= i < |d| && d[i].0 == k';
      if k' != k {
        assert Keys(r)[i] == k';
      }
    }
    forall i | 0 <= i < |r| && r[i].0 == k ensures r[i].1 == v {
      var j :| 0 <= j < |r| && r[j] == (k, v);
    }
  }

  /** `dict(items)`: the pairs inserted one after another. */
  function FromItems<K(==), V>(items: seq<(K, V)>): (d: seq<(K, V)>)
    ensures IsDict(d)
  {
    if items == [] then []
    else Set(FromItems(items[..|items| - 1]), items[|items| - 1].0, items[|items| - 1].1)
  }

  /** Building a dict from the items of a dict gives back the same dict, order included. */
  lemma {:induction false} FromItemsOfDict<K, V>(items: seq<(K, V)>)
    requires IsDict(items)
    ensures FromItems(items) == items
  {
    if items != [] {
      var init := items[..|items| - 1];
      var last := items[|items| - 1];
      FromItemsOfDict(init);
      assert IsDict(init) by {
        assert forall i :: 0 <= i < |init| ==> init[i] == items[i];
      }
      assert last.0 !in Keys(init) by {
        forall i | 0 <= i < |init| ensures Keys(init)[i] != last.0 {
          assert init[i] == items[i];
        }
      }
      assert FromItems(items) == Set(init, last.0, last.1);
      assert init + [last] == items;
    }
  }
}
