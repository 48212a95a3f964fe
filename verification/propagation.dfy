/** How the preference channel uses the value: each named view emits a
    singleton, and the values of sibling subtrees are folded left to right
    with `reduce`, starting from `defaultValue`. */
module Propagation {
  import opened Options
  import opened NamedViewPreference
  import opened PreferenceLaws

  /** The value observed above a run of sibling values `vs`. */
  function ReduceAll<N(!new), E>(vs: seq<Value<N, E>>): Value<N, E>
    decreases |vs|
  {
    if vs == [] then DefaultValue()
    else Reduce(ReduceAll(vs[..|vs| - 1]), vs[|vs| - 1])
  }

  /** The values emitted by named views whose descriptions are `es`, in
      traversal order. */
  function Emissions<N(!new), E>(nameOf: E -> N, es: seq<E>): (vs: seq<Value<N, E>>)
    ensures |vs| == |es|
    ensures forall i | 0 <= i < |es| :: vs[i] == Singleton(nameOf, es[i])
  {
    seq(|es|, i requires 0 <= i < |es| => Singleton(nameOf, es[i]))
  }

  /** Folding a concatenation is reducing the two folds: any split of the
      siblings into two groups gives the same value. */
  lemma {:induction false} ReduceAllSplit<N(!new), E>(vs: seq<Value<N, E>>, ws: seq<Value<N, E>>)
    ensures ReduceAll(vs + ws) == Reduce(ReduceAll(vs), ReduceAll(ws))
    decreases |ws|
  {
    if ws == [] {
      assert vs + ws == vs;
      ReduceIdentity(ReduceAll(vs));
    } else {
      var n := |ws| - 1;
      assert (vs + ws)[..|vs + ws| - 1] == vs + ws[..n];
      assert (vs + ws)[|vs + ws| - 1] == ws[n];
      ReduceAllSplit(vs, ws[..n]);
      ReduceAssociative(ReduceAll(vs), ReduceAll(ws[..n]), ws[n]);
    }
  }

  /** Folding values that each keep the invariant yields one that keeps it. */
  lemma {:induction false} ReduceAllValid<N(!new), E>(nameOf: E -> N, vs: seq<Value<N, E>>)
    requires forall i | 0 <= i < |vs| :: Valid(nameOf, vs[i])
    ensures Valid(nameOf, ReduceAll(vs))
    decreases |vs|
  {
    if vs == [] {
      DefaultValueValid<N, E>(nameOf);
    } else {
      var n := |vs| - 1;
      ReduceAllValid(nameOf, vs[..n]);
      ReducePreservesValid(nameOf, ReduceAll(vs[..n]), vs[n]);
    }
  }

  /** Folding the emissions of descriptions `es` iterates exactly `es`. */
  lemma {:induction false} FoldOfEmissionsElements<N(!new), E>(nameOf: E -> N, es: seq<E>)
    ensures Elements(ReduceAll(Emissions(nameOf, es))) == es
    decreases |es|
  {
    if es != [] {
      var vs := Emissions(nameOf, es);
      var n := |es| - 1;
      assert vs[..n] == Emissions(nameOf, es[..n]);
      FoldOfEmissionsElements(nameOf, es[..n]);
      assert Singleton(nameOf, es[n]).arr == [es[n]];
      assert es == es[..n] + [es[n]];
    }
  }

  /** Folding the emissions of descriptions `es` keeps the invariant, so each
      name looks up to the first description emitted under it. */
  lemma FoldOfEmissions<N(!new), E>(nameOf: E -> N, es: seq<E>)
    ensures Elements(ReduceAll(Emissions(nameOf, es))) == es
    ensures Valid(nameOf, ReduceAll(Emissions(nameOf, es)))
    ensures forall k :: Lookup(ReduceAll(Emissions(nameOf, es)), k) == FirstNamed(nameOf, es, k)
  {
    var vs := Emissions(nameOf, es);
    ReduceAllValid(nameOf, vs);
    FoldOfEmissionsElements(nameOf, es);
  }

  /** Three views emitting `es[0]`, `es[1]`, `es[2]` in that order, where the
      first and the last share a name: `first` is `es[0]`, `last` is `es[2]`,
      and the shared name looks up to `es[0]`, the first one seen. */
  lemma ThreeEmissions<N(!new), E>(nameOf: E -> N, es: seq<E>)
    requires |es| == 3 && nameOf(es[0]) == nameOf(es[2]) && nameOf(es[1]) != nameOf(es[0])
    ensures First(ReduceAll(Emissions(nameOf, es))) == Some(es[0])
    ensures Last(ReduceAll(Emissions(nameOf, es))) == Some(es[2])
    ensures Lookup(ReduceAll(Emissions(nameOf, es)), nameOf(es[0])) == Some(es[0])
    ensures Lookup(ReduceAll(Emissions(nameOf, es)), nameOf(es[2])) == Some(es[0])
    ensures Lookup(ReduceAll(Emissions(nameOf, es)), nameOf(es[1])) == Some(es[1])
  {
    FoldOfEmissions(nameOf, es);
    ThreeElementLookups(nameOf, ReduceAll(Emissions(nameOf, es)), es);
  }

  /** The accessors of a value satisfying the invariant whose array is `es`,
      with `es` as in `ThreeEmissions`. */
  lemma ThreeElementLookups<N(!new), E>(nameOf: E -> N, r: Value<N, E>, es: seq<E>)
    requires |es| == 3 && nameOf(es[0]) == nameOf(es[2]) && nameOf(es[1]) != nameOf(es[0])
    requires Valid(nameOf, r) && r.arr == es
    ensures First(r) == Some(es[0]) && Last(r) == Some(es[2])
    ensures Lookup(r, nameOf(es[0])) == Some(es[0])
    ensures Lookup(r, nameOf(es[2])) == Some(es[0])
    ensures Lookup(r, nameOf(es[1])) == Some(es[1])
  {
    FirstNamedIsEarliest(nameOf, es, nameOf(es[0]), 0);
    FirstNamedIsEarliest(nameOf, es, nameOf(es[1]), 1);
    assert Lookup(r, nameOf(es[0])) == FirstNamed(nameOf, es, nameOf(es[0]));
    assert Lookup(r, nameOf(es[1])) == FirstNamed(nameOf, es, nameOf(es[1]));
  }
}
