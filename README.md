# PHDiff edit steps in Dafny

PHDiff computes the edit steps (insertions, deletions, moves and content
updates) that turn one ordered list of identifiable items into another, for
consumers such as table and collection views that apply changes in batches.
This project models the value the diff engine emits: `DiffStep<T>`, a
four-variant tagged union, with its kind predicates, its two projections
(`value` and `index`) and its hand-written equality. It proves what callers
rely on: every step is exactly one kind; `value` is the carried item; `index`
is the destination of a move and the new position of an update; and two steps
are equal exactly when they are the same variant with equal items and equal
index fields. Step equality is reflexive, symmetric and transitive whenever
the item equality is. Equal steps agree on kind and index.

Everything is in `DiffStep.dfy`, module `DiffSteps`:

- `DiffStep<T>`: the datatype, with constructors `Insert(value, index)`,
  `Delete(value, index)`, `Move(value, fromIndex, toIndex)` and
  `Update(value, index, oldIndex)`, as in the source.
- Member predicates `IsInsert`, `IsDelete`, `IsMove`, `IsUpdate` and member
  functions `Value`, `Index`, written as the same `switch` over the variant.
- `Kind` and `Positions`: the variant as a plain tag, and the list of index
  fields a step carries. These two state "same variant and same fields"
  independently of the equality function.
- `Equal(eq, lhs, rhs)`: the source's `==`. The item comparison is the
  parameter `eq`, which stands for the item type's own `==`. The model does
  not assume `eq` is lawful. Lemmas that need an equivalence say so in their
  `requires`.
- `StepsEqual`: two step lists compared element by element with `Equal`. The
  `Equatable` conformance makes this comparison available for the step lists a
  diff returns.

Indices are Swift `Int`s. The model only stores and compares them and never
does arithmetic on them, so unbounded `int` is exact for them.

## Model

| member | source | states |
|---|---|---|
| DiffSteps.DiffStep.IsInsert | PHDiff/PHDiff/Sources/DiffStep.swift:18-23 | true exactly for an insert step |
| DiffSteps.DiffStep.IsDelete | PHDiff/PHDiff/Sources/DiffStep.swift:25-30 | true exactly for a delete step |
| DiffSteps.DiffStep.IsMove | PHDiff/PHDiff/Sources/DiffStep.swift:32-37 | true exactly for a move step |
| DiffSteps.DiffStep.IsUpdate | PHDiff/PHDiff/Sources/DiffStep.swift:39-44 | true exactly for an update step |
| DiffSteps.DiffStep.Value | PHDiff/PHDiff/Sources/DiffStep.swift:46-54 | the result is the item the step carries, for all four variants |
| DiffSteps.DiffStep.Index | PHDiff/PHDiff/Sources/DiffStep.swift:56-64 | a move reports `toIndex`; every other step reports its `index` field; an update never reports a differing `oldIndex` |
| DiffSteps.DiffStep.Kind | PHDiff/PHDiff/Sources/DiffStep.swift:11-16 | the tag agrees with each of the four kind predicates |
| DiffSteps.DiffStep.Positions | PHDiff/PHDiff/Sources/DiffStep.swift:11-16 | one index field for insert and delete; two for move (`fromIndex`, `toIndex`) and update (`index`, `oldIndex`), in declaration order |
| DiffSteps.Equal | PHDiff/PHDiff/Sources/DiffStep.swift:69-82 | false across variants; true exactly when the variants match, the items are `eq`, and every index field matches |
| DiffSteps.ExactlyOneKind | PHDiff/PHDiff/Sources/DiffStep.swift:18-44 | every step satisfies exactly one of the four kind predicates |
| DiffSteps.MoveIndexIsDestination | PHDiff/PHDiff/Sources/DiffStep.swift:56-61 | a move's index is its destination, and differs from its source whenever the two differ |
| DiffSteps.UpdateIndexIsNewPosition | PHDiff/PHDiff/Sources/DiffStep.swift:15-16 | an update's index is its new position, not `oldIndex` when the two differ |
| DiffSteps.PartsDetermineStep | PHDiff/PHDiff/Sources/DiffStep.swift:11-16 | two steps with the same variant, item and index fields are the same step |
| DiffSteps.DifferentVariantsUnequal | PHDiff/PHDiff/Sources/DiffStep.swift:79-80 | steps that differ on any kind predicate are unequal, whatever they carry |
| DiffSteps.UpdateOldIndexMatters | PHDiff/PHDiff/Sources/DiffStep.swift:77-78 | two updates with the same index but different `oldIndex` are unequal |
| DiffSteps.MoveFromIndexMatters | PHDiff/PHDiff/Sources/DiffStep.swift:75-76 | two moves with the same destination but different `fromIndex` are unequal |
| DiffSteps.EqualStepsAgree | PHDiff/PHDiff/Sources/DiffStep.swift:69-78 | equal steps agree on all four kind predicates and on `index`, and their items are `eq` |
| DiffSteps.EqualIsStructural | PHDiff/PHDiff/Sources/DiffStep.swift:69-82 | when `eq` is the item type's structural equality, step equality is structural equality of steps |
| DiffSteps.EqualReflexive | PHDiff/PHDiff/Sources/DiffStep.swift:69-78 | if the item equality is reflexive, every step equals itself |
| DiffSteps.EqualSymmetric | PHDiff/PHDiff/Sources/DiffStep.swift:69-78 | if the item equality is symmetric, so is step equality |
| DiffSteps.EqualTransitive | PHDiff/PHDiff/Sources/DiffStep.swift:69-78 | if the item equality is transitive, so is step equality |
| DiffSteps.StepsEqual | PHDiff/PHDiff/Sources/DiffStep.swift:67 | two step lists compare equal exactly when they have the same length and are `Equal` position by position |
| DiffSteps.EqualListsAgreeOnKinds | PHDiff/PHDiff/Sources/DiffStep.swift:67 | equal step lists have, at each position, steps of the same variant reporting the same index |
| DiffSteps.StepsEqualIsStructural | PHDiff/PHDiff/Sources/DiffStep.swift:67 | with structural item equality, comparing step lists is structural list equality |

## Left out

- `description` (PHDiff/PHDiff/Sources/DiffStep.swift:84-98): a debug string. Its text depends on how the item type prints itself, and that code is not part of this model.
- The `Diffable` protocol and its `diffIdentifier`: they are not part of this model. The item type stays abstract, and only its equality (the `eq` parameter) is used.
- The diff algorithm (occurrence index, classifier, step generator, step ordering): its source is not part of this model, so none of it is modelled.
- How table and collection views apply the steps in a batch update: that is host UI code outside the core.
- StepsEqual: models Swift's array `==` as an element-by-element comparison. The standard library's shortcut that treats two arrays sharing one storage buffer as equal without comparing elements is not modelled. That shortcut changes the answer only when the item equality is not reflexive.
- Swift `Int` width: indices are unbounded `int`s. This is exact because the code never does arithmetic on them.
