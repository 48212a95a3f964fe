# Named-view preference value, in Dafny

SwiftUIX lets a view be given a name (`View.name(_:)`). Every named view
emits one `_NamedViewDescription` into SwiftUI's preference channel under
the key `_NamedViewDescriptionPreferenceKey`. As the preference travels up
the view tree, SwiftUI folds the values of sibling subtrees together with
the key's `reduce`. Ancestors then read the aggregate through `first`,
`last`, a keyed subscript, or by iterating it.

This project models that aggregate value and its reduction:

- `NamedViewPreference.Value` has two fields. `arr` is `allAsArray`: every
  description in emission order, with duplicates kept. `dict` is
  `allAsDictionary`: descriptions keyed by name.
- Names are a generic type `N`, standing in for `AnyHashable`. Descriptions
  are a generic type `E`. The projection `nameOf: E -> N` stands in for
  `_NamedViewDescription.name`, the only field of a description that the
  logic reads.
- `Reduce(cur, next)` is `reduce(value:nextValue:)` as a pure function. The
  arrays are appended. The dictionaries are merged with
  `Dictionary.merge(_:uniquingKeysWith:)`, using a combiner that keeps the
  current entry. That library operation is modelled in `DictionaryMerge`,
  both as a definition and as the key-by-key insertion loop.
- `Valid` is the invariant linking the two halves. A name is a key exactly
  when it occurs in the array. Each key maps to the first element emitted
  under that name (`FirstNamed`).
- `Propagation` models how the preference channel uses the value. Each named
  view contributes a singleton (`Emissions`). Sibling values are folded left
  to right from `defaultValue` (`ReduceAll`).

Files: `options.dfy` (Swift's `Optional`), `dictionary_merge.dfy`,
`named_view_preference.dfy` (the value and its operations),
`preference_laws.dfy` (invariant, monoid laws, non-commutativity, accessors,
hash) and `propagation.dfy` (folding many emissions).

`Value` declares `Hashable` and implements only `hash(into:)`
(`_NameAssignmentView.swift:89`, `:113-115`). So `==` is the synthesized
comparison of both stored fields, and only the hash ignores the array;
`DuplicateKeepsHashNotEquality` states this.

## Model

| member | source | states |
|---|---|---|
| DictionaryMerge.Merge | Sources/Intramodular/Referencing/_NameAssignmentView.swift:135 | the merged keys are the union of both key sets; a key held by both sides gets `combine(current, incoming)`; a key held by one side keeps that side's value |
| DictionaryMerge.MergeByInsertion | Sources/Intramodular/Referencing/_NameAssignmentView.swift:135 | inserting the incoming keys one by one, in any order, and combining on collision gives exactly `Merge` |
| NamedViewPreference.FirstNamed | Sources/Intramodular/Referencing/_NameAssignmentView.swift:130-138 | the reference meaning of a lookup: the result carries the requested name and occurs in the sequence at a position with no earlier element of that name, and it is absent exactly when no element carries that name |
| NamedViewPreference.Lookup | Sources/Intramodular/Referencing/_NameAssignmentView.swift:121-123 | the subscript is present exactly when the name is a key of the dictionary, and then it is the entry stored under that key |
| NamedViewPreference.First | Sources/Intramodular/Referencing/_NameAssignmentView.swift:95-97 | `first` is absent exactly when the array is empty, and otherwise it is the array's first element |
| NamedViewPreference.Last | Sources/Intramodular/Referencing/_NameAssignmentView.swift:99-101 | `last` is absent exactly when the array is empty, and otherwise it is the array's last element |
| NamedViewPreference.Elements | Sources/Intramodular/Referencing/_NameAssignmentView.swift:117-119 | iteration yields as many elements as the array holds, each equal to the array element at the same position |
| NamedViewPreference.Hash | Sources/Intramodular/Referencing/_NameAssignmentView.swift:113-115 | the hasher applied to `dict` alone |
| NamedViewPreference.DefaultValue | Sources/Intramodular/Referencing/_NameAssignmentView.swift:108-111 | on the empty value, `first`, `last` and every keyed lookup are absent, and iteration yields nothing |
| NamedViewPreference.Singleton | Sources/Intramodular/Referencing/_NameAssignmentView.swift:103-106 | one emitted element `e` is the whole iteration and is both `first` and `last`; its name looks up to `e`; every other name is absent; the invariant holds |
| NamedViewPreference.Reduce | Sources/Intramodular/Referencing/_NameAssignmentView.swift:130-138 | iteration of the result is the current elements followed by the next ones; the keys are the union of both; a name the current value holds keeps its current entry; any other name takes the next value's entry |
| PreferenceLaws.FirstNamedIsEarliest | Sources/Intramodular/Referencing/_NameAssignmentView.swift:135 | if `s[i]` carries name `k` and no earlier element does, the lookup of `k` yields `s[i]`: the first-seen element wins |
| PreferenceLaws.ValidKeysAreNames | Sources/Intramodular/Referencing/_NameAssignmentView.swift:103-111 | under the invariant, the dictionary's keys are exactly the names that occur in the array |
| PreferenceLaws.DefaultValueValid | Sources/Intramodular/Referencing/_NameAssignmentView.swift:108-111 | the empty value satisfies the invariant |
| PreferenceLaws.ReducePreservesValid | Sources/Intramodular/Referencing/_NameAssignmentView.swift:130-138 | reducing two values that satisfy the invariant gives a value that satisfies it: each key still maps to the first element emitted under its name |
| PreferenceLaws.ReduceIdentity | Sources/Intramodular/Referencing/_NameAssignmentView.swift:126-138 | `defaultValue` is a left and a right identity of `reduce`, on the array and on the dictionary |
| PreferenceLaws.ReduceAssociative | Sources/Intramodular/Referencing/_NameAssignmentView.swift:130-138 | `reduce` is associative on whole values |
| PreferenceLaws.ReduceNotCommutative | Sources/Intramodular/Referencing/_NameAssignmentView.swift:135 | two distinct elements with the same name: the left one wins the lookup, so swapping the operands changes the dictionary; the arrays keep the same length |
| PreferenceLaws.FirstLastOfReduce | Sources/Intramodular/Referencing/_NameAssignmentView.swift:95-101 | `first` of a reduction is the current value's `first`, or else the next value's; `last` is the next value's `last`, or else the current value's |
| PreferenceLaws.FirstIsIndexed | Sources/Intramodular/Referencing/_NameAssignmentView.swift:95-105 | under the invariant, the first element is what its own name looks up to, and the last element's name is a key |
| PreferenceLaws.HashIgnoresArray | Sources/Intramodular/Referencing/_NameAssignmentView.swift:113-115 | values with equal dictionaries hash equally, whatever their arrays |
| PreferenceLaws.DuplicateKeepsHashNotEquality | Sources/Intramodular/Referencing/_NameAssignmentView.swift:89-115 | reducing a singleton with itself keeps the invariant and the hash, but the result differs from the singleton because `==` compares the arrays too |
| Propagation.Emissions | Sources/Intramodular/Referencing/_NameAssignmentView.swift:31-40 | one singleton per description, in traversal order |
| Propagation.ReduceAllSplit | Sources/Intramodular/Referencing/_NameAssignmentView.swift:126-138 | folding a concatenation of sibling values equals reducing the folds of its two parts, so any grouping gives the same aggregate |
| Propagation.ReduceAllValid | Sources/Intramodular/Referencing/_NameAssignmentView.swift:126-138 | folding values that each satisfy the invariant gives a value that satisfies it |
| Propagation.FoldOfEmissionsElements | Sources/Intramodular/Referencing/_NameAssignmentView.swift:103-137 | folding the singletons of descriptions `es` iterates exactly `es`, in order and with duplicates |
| Propagation.FoldOfEmissions | Sources/Intramodular/Referencing/_NameAssignmentView.swift:103-137 | folding the singletons of `es` satisfies the invariant, and every name looks up to the first description in `es` carrying it |
| Propagation.ThreeEmissions | Sources/Intramodular/Referencing/_NameAssignmentView.swift:95-137 | for emissions `a1, b, a3` where `a1` and `a3` share a name: `first` is `a1`, `last` is `a3`, the shared name looks up to `a1`, and `b`'s name looks up to `b` |

## Left out

- The view body (`_NameAssignmentView.body`, `GeometryReader`, `.background`, `.preference`, lines 28-43) belongs to the host framework's layout and measurement. It is represented only as "each named view emits a singleton" (`Propagation.Emissions`).
- The `View.name(...)` overloads (lines 48-84) are thin constructors that differ only in which optional arguments they pass. They are not modelled.
- The `Namespace.ID` downcast (lines 16-19) is a dynamic cast that depends on platform availability. It is not modelled.
- `AnyHashable` type erasure is replaced by a generic name type `N`.
- The `id` and geometry fields of `_NamedViewDescription` are not modelled. That type is not part of this model. Descriptions are opaque apart from their name.
- `Hasher` internals are not modelled: `Hash` takes the hashing function of the dictionary as a parameter.
- `reduce` receives `nextValue` as a lazy closure. The model takes the already-evaluated next value, which matches the copy-then-assign shape of lines 131-137.
- `AnyIterator` mechanics are not modelled: iteration is the sequence `arr` itself.
- The `throws` of the `uniquingKeysWith` combiner is not modelled. The combiner used here cannot throw.
