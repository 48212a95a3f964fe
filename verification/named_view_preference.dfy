/** `_NamedViewDescriptionPreferenceKey.Value`: the aggregate that carries every
    named view description up the view tree. `N` stands for the `AnyHashable`
    name and `E` for `_NamedViewDescription`, of which only the name matters
    here; `nameOf` projects an element to its name. */
module NamedViewPreference {
  import opened Options
  import DictionaryMerge

  /** Every description seen so far, twice over: `arr` in emission order with
      duplicates kept (`allAsArray`), `dict` keyed by name (`allAsDictionary`). */
  datatype Value<N, E> = Value(arr: seq<E>, dict: map<N, E>)

  /** The first element of `s` named `k`, if any: what a keyed lookup is
      meant to return under the first-seen-wins rule. */
  function FirstNamed<N(==, !new), E>(nameOf: E -> N, s: seq<E>, k: N): (r: Option<E>)
    ensures r.Some? ==> r.value in s && nameOf(r.value) == k
    ensures r.None? <==> forall i | 0 <= i < |s| :: nameOf(s[i]) != k
    ensures r.Some? ==> exists i | 0 <= i < |s| ::
      s[i] == r.value && forall j | 0 <= j < i :: nameOf(s[j]) != k
    decreases |s|
  {
    if s == [] then None
    else if nameOf(s[0]) == k then Some(s[0])
    else
      var r := FirstNamed(nameOf, s[1..], k);
      assert r.Some? ==> exists i | 0 <= i < |s| ::
        s[i] == r.value && forall j | 0 <= j < i :: nameOf(s[j]) != k
      by {
        if r.Some? {
          var i :| 0 <= i < |s[1..]| && s[1..][i] == r.value
                   && forall j | 0 <= j < i :: nameOf(s[1..][j]) != k;
          assert s[i + 1] == r.value;
          forall j | 0 <= j < i + 1
            ensures nameOf(s[j]) != k
          {
            if j > 0 { assert s[j] == s[1..][j - 1]; }
          }
        }
      }
      r
  }

  /** The set of names occurring in `s`. */
  ghost function Names<N(!new), E>(nameOf: E -> N, s: seq<E>): set<N> {
    set i | 0 <= i < |s| :: nameOf(s[i])
  }

  /** The invariant tying the two halves together: a name is a key of the
      dictionary exactly when it occurs in the array, and it is bound to the
      first element of the array that carries it. */
  ghost predicate Valid<N(!new), E>(nameOf: E -> N, v: Value<N, E>) {
    forall k :: Lookup(v, k) == FirstNamed(nameOf, v.arr, k)
  }

  /** `subscript(_:)`: the element stored under `k`, or absent. */
  function Lookup<N, E>(v: Value<N, E>, k: N): (r: Option<E>)
    ensures r.Some? <==> k in v.dict
    ensures r.Some? ==> r.value == v.dict[k]
  {
    if k in v.dict then Some(v.dict[k]) else None
  }

  /** `first`: the first element emitted, or absent. */
  function First<N, E>(v: Value<N, E>): (r: Option<E>)
    ensures r.None? <==> |v.arr| == 0
    ensures r.Some? ==> r.value == v.arr[0]
  {
    if |v.arr| == 0 then None else Some(v.arr[0])
  }

  /** `last`: the last element emitted, or absent. */
  function Last<N, E>(v: Value<N, E>): (r: Option<E>)
    ensures r.None? <==> |v.arr| == 0
    ensures r.Some? ==> r.value == v.arr[|v.arr| - 1]
  {
    if |v.arr| == 0 then None else Some(v.arr[|v.arr| - 1])
  }

  /** `makeIterator()`: iteration visits the array's elements in order; the
      iterator object itself is represented by the sequence it yields. */
  function Elements<N, E>(v: Value<N, E>): (it: seq<E>)
    ensures |it| == |v.arr|
    ensures forall i | 0 <= i < |it| :: it[i] == v.arr[i]
  {
    v.arr
  }

  /** `hash(into:)`: only the dictionary is fed to the hasher. The hasher is a
      parameter, since its internals are not part of this model. */
  function Hash<N, E, H>(v: Value<N, E>, hasher: map<N, E> -> H): (r: H)
    ensures r == hasher(v.dict)
  {
    hasher(v.dict)
  }

  /** `init()` and `defaultValue`: nothing has been emitted. */
  function DefaultValue<N(!new), E>(): (v: Value<N, E>)
    ensures First(v) == None && Last(v) == None
    ensures forall k :: Lookup(v, k) == None
    ensures Elements(v) == []
  {
    Value([], map[])
  }

  /** `init(_:)`: the value a single named view emits for its description `e`. */
  function Singleton<N(!new), E>(nameOf: E -> N, e: E): (v: Value<N, E>)
    ensures Elements(v) == [e]
    ensures First(v) == Some(e) && Last(v) == Some(e)
    ensures Lookup(v, nameOf(e)) == Some(e)
    ensures forall k | k != nameOf(e) :: Lookup(v, k) == None
    ensures Valid(nameOf, v)
  {
    var v := Value([e], map[nameOf(e) := e]);
    assert forall k :: FirstNamed(nameOf, v.arr, k) == FirstNamed(nameOf, [], k) || nameOf(e) == k;
    v
  }

  /** `reduce(value:nextValue:)` as a pure function of the current value and
      the next one: the arrays are appended, and the dictionaries are merged
      keeping the current entry whenever both hold the same name. */
  function Reduce<N(!new), E>(cur: Value<N, E>, next: Value<N, E>): (r: Value<N, E>)
    ensures Elements(r) == Elements(cur) + Elements(next)
    ensures r.dict.Keys == cur.dict.Keys + next.dict.Keys
    ensures forall k | k in cur.dict :: Lookup(r, k) == Lookup(cur, k)
    ensures forall k | k !in cur.dict :: Lookup(r, k) == Lookup(next, k)
  {
    Value(cur.arr + next.arr, DictionaryMerge.Merge(cur.dict, next.dict, (lhs, rhs) => lhs))
  }
}
