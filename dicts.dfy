/**
  A Python `dict` with string keys, as the model sees it: the keys in
  insertion order, and a map from each key to its value. Assigning to a key
  that is present replaces its value and keeps its place in the order;
  assigning to a new key appends it.
 */
module Dicts {

  predicate NoDuplicates(s: seq<string>) {
    forall i, j :: 0 <= i < j < |s| ==> s[i] != s[j]
  }

  datatype Dict<V> = Dict(order: seq<string>, entries: map<string, V>) {

    /** What every Python dict satisfies: the order lists each key once and
        lists exactly the keys that have values. */
    ghost predicate Valid() {
      NoDuplicates(order) && forall k :: k in entries <==> k in order
    }

    /** `k in d` */
    predicate HasKey(k: string) {
      k in entries
    }

    /** `d[k]` */
    function Get(k: string): V
      requires HasKey(k)
    {
      entries[k]
    }

    /** `d[k] = v` */
    function Set(k: string, v: V): (r: Dict<V>)
      ensures Valid() ==> r.Valid()
      ensures r.HasKey(k) && r.Get(k) == v
      ensures forall k' :: r.HasKey(k') <==> k' == k || HasKey(k')
      ensures forall k' :: k' != k && HasKey(k') ==> r.Get(k') == Get(k')
      ensures HasKey(k) ==> r.order == order
      ensures !HasKey(k) ==> r.order == order + [k]
    {
      var r := Dict(if k in entries then order else order + [k], entries[k := v]);
      assert Valid() && k !in entries ==> NoDuplicates(r.order) by {
        if Valid() && k !in entries {
          forall i, j | 0 <= i < j < |r.order| ensures r.order[i] != r.order[j] {
            if j == |order| { assert order[i] in order; }
          }
        }
      }
      r
    }
  }

  /** `{}` */
  function Empty<V>(): (d: Dict<V>)
    ensures d.Valid() && d.order == [] && forall k :: !d.HasKey(k)
  {
    Dict([], map[])
  }
}
