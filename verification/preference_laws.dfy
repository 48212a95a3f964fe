/** What `reduce` promises: it keeps the array/dictionary invariant, it is a
    monoid with `defaultValue` as identity, it is not commutative, and the
    accessors and the hash behave accordingly. */
module PreferenceLaws {
  import opened Options
  import opened NamedViewPreference

  /** The first element named `k` in `s + t` is the first one in `s`, or
      failing that the first one in `t`. */
  lemma {:induction false} FirstNamedAppend<N(!new), E>(nameOf: E -> N, s: seq<E>, t: seq<E>, k: N)
    ensures FirstNamed(nameOf, s + t, k) == FirstNamed(nameOf, s, k).OrElse(FirstNamed(nameOf, t, k))
    decreases |s|
  {
    if s == [] {
      assert s + t == t;
    } else {
      assert (s + t)[0] == s[0];
      assert (s + t)[1..] == s[1..] + t;
      FirstNamedAppend(nameOf, s[1..], t, k);
    }
  }

  /** `FirstNamed` picks the earliest element carrying the name: if `s[i]` is
      named `k` and nothing before it is, the lookup yields `s[i]`. */
  lemma {:induction false} FirstNamedIsEarliest<N(!new), E>(nameOf: E -> N, s: seq<E>, k: N, i: nat)
    requires i < |s| && nameOf(s[i]) == k
    requires forall j | 0 <= j < i :: nameOf(s[j]) != k
    ensures FirstNamed(nameOf, s, k) == Some(s[i])
    decreases i
  {
    if i > 0 {
      assert nameOf(s[0]) != k;
      forall j | 0 <= j < i - 1
        ensures nameOf(s[1..][j]) != k
      {
        assert s[1..][j] == s[j + 1];
      }
      FirstNamedIsEarliest(nameOf, s[1..], k, i - 1);
    }
  }

  /** Under the invariant, the dictionary's keys are exactly the names that
      occur in the array. */
  lemma ValidKeysAreNames<N(!new), E>(nameOf: E -> N, v: Value<N, E>)
    requires Valid(nameOf, v)
    ensures v.dict.Keys == Names(nameOf, v.arr)
  {
    forall k | k in v.dict
      ensures k in Names(nameOf, v.arr)
    {
      assert Lookup(v, k) == FirstNamed(nameOf, v.arr, k);
      var i :| 0 <= i < |v.arr| && nameOf(v.arr[i]) == k;
    }
    forall k | k in Names(nameOf, v.arr)
      ensures k in v.dict
    {
      var i :| 0 <= i < |v.arr| && nameOf(v.arr[i]) == k;
      assert Lookup(v, k) == FirstNamed(nameOf, v.arr, k);
    }
  }

  /** The empty value satisfies the invariant. */
  lemma DefaultValueValid<N(!new), E>(nameOf: E -> N)
    ensures Valid(nameOf, DefaultValue<N, E>())
  {
  }

  /** `reduce` preserves the invariant: the first element under each name in
      the concatenated array is the one the left-biased merge keeps. */
  lemma ReducePreservesValid<N(!new), E>(nameOf: E -> N, cur: Value<N, E>, next: Value<N, E>)
    requires Valid(nameOf, cur) && Valid(nameOf, next)
    ensures Valid(nameOf, Reduce(cur, next))
  {
    var r := Reduce(cur, next);
    forall k
      ensures Lookup(r, k) == FirstNamed(nameOf, r.arr, k)
    {
      FirstNamedAppend(nameOf, cur.arr, next.arr, k);
      assert Lookup(cur, k) == FirstNamed(nameOf, cur.arr, k);
      assert Lookup(next, k) == FirstNamed(nameOf, next.arr, k);
    }
  }

  /** `defaultValue` is a left and a right identity of `reduce`, on both the
      array and the dictionary. */
  lemma ReduceIdentity<N(!new), E>(v: Value<N, E>)
    ensures Reduce(DefaultValue(), v) == v
    ensures Reduce(v, DefaultValue()) == v
  {
    assert Reduce(DefaultValue(), v).arr == v.arr;
    assert Reduce(v, DefaultValue()).arr == v.arr;
  }

  /** `reduce` is associative, so the order in which sibling values are
      grouped while they travel up the tree does not matter. */
  lemma ReduceAssociative<N(!new), E>(a: Value<N, E>, b: Value<N, E>, c: Value<N, E>)
    ensures Reduce(Reduce(a, b), c) == Reduce(a, Reduce(b, c))
  {
    var lhs := Reduce(Reduce(a, b), c);
    var rhs := Reduce(a, Reduce(b, c));
    assert lhs.arr == a.arr + b.arr + c.arr == rhs.arr;
    forall k | k in lhs.dict
      ensures k in rhs.dict && lhs.dict[k] == rhs.dict[k]
    {
      assert Lookup(lhs, k) == Lookup(rhs, k);
    }
  }

  /** `reduce` is not commutative: two descriptions emitted under the same
      name keep whichever came first, so swapping the operands changes the
      dictionary while the arrays stay the same length. */
  lemma ReduceNotCommutative<N(!new), E>(nameOf: E -> N, e1: E, e2: E)
    requires nameOf(e1) == nameOf(e2) && e1 != e2
    ensures Lookup(Reduce(Singleton(nameOf, e1), Singleton(nameOf, e2)), nameOf(e1)) == Some(e1)
    ensures Lookup(Reduce(Singleton(nameOf, e2), Singleton(nameOf, e1)), nameOf(e1)) == Some(e2)
    ensures Reduce(Singleton(nameOf, e1), Singleton(nameOf, e2)).dict
         != Reduce(Singleton(nameOf, e2), Singleton(nameOf, e1)).dict
    ensures |Elements(Reduce(Singleton(nameOf, e1), Singleton(nameOf, e2)))|
         == |Elements(Reduce(Singleton(nameOf, e2), Singleton(nameOf, e1)))|
  {
    var s1, s2 := Singleton(nameOf, e1), Singleton(nameOf, e2);
    assert Lookup(Reduce(s1, s2), nameOf(e1)) == Some(e1);
    assert Lookup(Reduce(s2, s1), nameOf(e1)) == Some(e2);
  }

  /** `first` of a reduced value is the current value's first element, or the
      next value's when the current one is empty; `last` is the mirror image. */
  lemma FirstLastOfReduce<N(!new), E>(cur: Value<N, E>, next: Value<N, E>)
    ensures First(Reduce(cur, next)) == First(cur).OrElse(First(next))
    ensures Last(Reduce(cur, next)) == Last(next).OrElse(Last(cur))
  {
    var r := Reduce(cur, next);
    assert r.arr == cur.arr + next.arr;
    if |next.arr| > 0 {
      assert r.arr[|r.arr| - 1] == next.arr[|next.arr| - 1];
    }
  }

  /** Under the invariant, the first element emitted is always the one the
      dictionary holds under its name, while the last element's name is at
      least present. */
  lemma FirstIsIndexed<N(!new), E>(nameOf: E -> N, v: Value<N, E>)
    requires Valid(nameOf, v)
    ensures First(v).Some? ==> Lookup(v, nameOf(First(v).value)) == First(v)
    ensures Last(v).Some? ==> nameOf(Last(v).value) in v.dict
  {
    if First(v).Some? {
      assert Lookup(v, nameOf(v.arr[0])) == FirstNamed(nameOf, v.arr, nameOf(v.arr[0]));
      var n := |v.arr| - 1;
      assert Lookup(v, nameOf(v.arr[n])) == FirstNamed(nameOf, v.arr, nameOf(v.arr[n]));
    }
  }

  /** Values with equal dictionaries hash equally, whatever their arrays. */
  lemma HashIgnoresArray<N, E, H>(a: Value<N, E>, b: Value<N, E>, hasher: map<N, E> -> H)
    requires a.dict == b.dict
    ensures Hash(a, hasher) == Hash(b, hasher)
  {
  }

  /** Equality, unlike the hash, does see the array: reducing a single
      emission with itself keeps the invariant and the hash but yields a
      different value. */
  lemma DuplicateKeepsHashNotEquality<N(!new), E, H>(nameOf: E -> N, e: E, hasher: map<N, E> -> H)
    ensures Valid(nameOf, Reduce(Singleton(nameOf, e), Singleton(nameOf, e)))
    ensures Hash(Reduce(Singleton(nameOf, e), Singleton(nameOf, e)), hasher) == Hash(Singleton(nameOf, e), hasher)
    ensures Reduce(Singleton(nameOf, e), Singleton(nameOf, e)) != Singleton(nameOf, e)
  {
    var s := Singleton(nameOf, e);
    ReducePreservesValid(nameOf, s, s);
    var d := Reduce(s, s);
    assert |d.arr| == 2;
    assert d.dict == s.dict;
  }
}
