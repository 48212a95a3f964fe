/** Swift's `Dictionary.merge(_:uniquingKeysWith:)`, the only library
    operation the preference reduction relies on for its keyed half. */
module DictionaryMerge {

  /** The dictionary `m` after merging `other` into it: every key of either
      side is present, a key held by only one side keeps that side's value,
      and a key held by both gets `combine(m[k], other[k])`. */
  function Merge<K, V>(m: map<K, V>, other: map<K, V>, combine: (V, V) -> V): (r: map<K, V>)
    ensures r.Keys == m.Keys + other.Keys
    ensures forall k | k in m && k in other :: r[k] == combine(m[k], other[k])
    ensures forall k | k in m && k !in other :: r[k] == m[k]
    ensures forall k | k !in m && k in other :: r[k] == other[k]
  {
    map k | k in m.Keys + other.Keys ::
      if k in m && k in other then combine(m[k], other[k])
      else if k in m then m[k]
      else other[k]
  }

  /** The merge as the library performs it: visit the keys of `other` one at
      a time and insert each into the receiver, calling `combine` with the
      receiver's old value and the incoming one when the key is already
      present. The visiting order is left open, and the result does not
      depend on it. */
  method MergeByInsertion<K, V>(m: map<K, V>, other: map<K, V>, combine: (V, V) -> V)
    returns (r: map<K, V>)
    ensures r == Merge(m, other, combine)
  {
    r := m;
    var pending := other.Keys;
    while pending != {}
      invariant pending <= other.Keys
      invariant r.Keys == m.Keys + (other.Keys - pending)
      invariant forall k | k in m && k !in other :: r[k] == m[k]
      invariant forall k | k in pending && k in m :: r[k] == m[k]
      invariant forall k | k in other && k !in pending :: r[k] == Merge(m, other, combine)[k]
      decreases pending
    {
      var k :| k in pending;
      if k in r {
        r := r[k := combine(r[k], other[k])];
      } else {
        r := r[k := other[k]];
      }
      pending := pending - {k};
    }
  }
}
