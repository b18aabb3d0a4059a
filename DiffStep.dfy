/** The edit step a diff emits: one unit of change between an old and a new
    ordered sequence of items.  The step is a value (a tagged union over four
    variants); everything defined on it is a pure projection or comparison. */
module DiffSteps {

  /** One edit step, generic over the item type `T`.  Indices are the host
      language's signed machine integers; the model never computes with them,
      only stores and compares them, so they are unbounded `int`s here. */
  datatype DiffStep<T> =
    | Insert(value: T, index: int)
    | Delete(value: T, index: int)
    | Move(value: T, fromIndex: int, toIndex: int)
      // `oldIndex` is kept beside `index` so that a batch reload can address
      // the stale row in the pre-edit list.
    | Update(value: T, index: int, oldIndex: int)
  {
    predicate IsInsert()
      ensures IsInsert() <==> Insert?
    {
      match this
      case Insert(_, _) => true
      case _ => false
    }

    predicate IsDelete()
      ensures IsDelete() <==> Delete?
    {
      match this
      case Delete(_, _) => true
      case _ => false
    }

    predicate IsMove()
      ensures IsMove() <==> Move?
    {
      match this
      case Move(_, _, _) => true
      case _ => false
    }

    predicate IsUpdate()
      ensures IsUpdate() <==> Update?
    {
      match this
      case Update(_, _, _) => true
      case _ => false
    }

    /** The item this step carries, whatever the variant. */
    function Value(): (v: T)
      ensures v == this.value
    {
      match this
      case Insert(v, _) => v
      case Delete(v, _) => v
      case Move(v, _, _) => v
      case Update(v, _, _) => v
    }

    /** The position this step reports: the destination for a move, the
        new-sequence position for an update, the carried index otherwise. */
    function Index(): (i: int)
      ensures Move? ==> i == toIndex
      ensures !Move? ==> i == this.index
      ensures Update? && index != oldIndex ==> i != oldIndex
    {
      match this
      case Insert(_, i) => i
      case Delete(_, i) => i
      case Move(_, _, to) => to
      case Update(_, i, _) => i
    }

    /** The variant of the step, as a plain tag. */
    function Kind(): (k: StepKind)
      ensures k == InsertKind <==> IsInsert()
      ensures k == DeleteKind <==> IsDelete()
      ensures k == MoveKind <==> IsMove()
      ensures k == UpdateKind <==> IsUpdate()
    {
      match this
      case Insert(_, _) => InsertKind
      case Delete(_, _) => DeleteKind
      case Move(_, _, _) => MoveKind
      case Update(_, _, _) => UpdateKind
    }

    /** Every index field the step carries, in declaration order. */
    function Positions(): (ps: seq<int>)
      ensures |ps| == if Insert? || Delete? then 1 else 2
      ensures Insert? || Delete? ==> ps == [this.index]
      ensures Move? ==> ps[0] == fromIndex && ps[1] == toIndex
      ensures Update? ==> ps[0] == this.index && ps[1] == oldIndex
    {
      match this
      case Insert(_, i) => [i]
      case Delete(_, i) => [i]
      case Move(_, from, to) => [from, to]
      case Update(_, i, prior) => [i, prior]
    }
  }

  /** The four variants of a step, without their payloads. */
  datatype StepKind = InsertKind | DeleteKind | MoveKind | UpdateKind

  /** Step equality.  The item comparison is delegated to `eq`, the item
      type's own equality, which the model does not assume to be lawful.
      Two steps are equal exactly when they are the same variant, their
      items are `eq`, and every index field matches. */
  function Equal<T>(eq: (T, T) -> bool, lhs: DiffStep<T>, rhs: DiffStep<T>): (r: bool)
    ensures lhs.Kind() != rhs.Kind() ==> !r
    ensures r <==> lhs.Kind() == rhs.Kind() && eq(lhs.value, rhs.value) && lhs.Positions() == rhs.Positions()
  {
    match (lhs, rhs)
    case (Insert(lv, li), Insert(rv, ri)) =>
      eq(lv, rv) && li == ri
    case (Delete(lv, li), Delete(rv, ri)) =>
      eq(lv, rv) && li == ri
    case (Move(lv, lFrom, lTo), Move(rv, rFrom, rTo)) =>
      assert [lFrom, lTo][0] == lFrom && [lFrom, lTo][1] == lTo;
      eq(lv, rv) && lFrom == rFrom && lTo == rTo
    case (Update(lv, li, lOld), Update(rv, ri, rOld)) =>
      assert [li, lOld][0] == li && [li, lOld][1] == lOld;
      eq(lv, rv) && li == ri && lOld == rOld
    case _ => false
  }

  // ---------------------------------------------------------------------
  // Properties of the kind predicates and the projections
  // ---------------------------------------------------------------------

  /** Every step satisfies exactly one of the four kind predicates. */
  lemma ExactlyOneKind<T>(s: DiffStep<T>)
    ensures s.IsInsert() || s.IsDelete() || s.IsMove() || s.IsUpdate()
    ensures (if s.IsInsert() then 1 else 0) + (if s.IsDelete() then 1 else 0)
          + (if s.IsMove() then 1 else 0) + (if s.IsUpdate() then 1 else 0) == 1
  {
  }

  /** For a move, the reported index is the destination, never the source
      unless the two coincide. */
  lemma MoveIndexIsDestination<T>(v: T, from: int, to: int)
    ensures Move(v, from, to).Index() == to
    ensures from != to ==> Move(v, from, to).Index() != from
  {
  }

  /** For an update, the reported index is the new-sequence position. */
  lemma UpdateIndexIsNewPosition<T>(v: T, i: int, prior: int)
    ensures Update(v, i, prior).Index() == i
    ensures i != prior ==> Update(v, i, prior).Index() != prior
  {
  }

  /** A step is fully determined by its variant, item and index fields. */
  lemma PartsDetermineStep<T>(a: DiffStep<T>, b: DiffStep<T>)
    requires a.Kind() == b.Kind() && a.Value() == b.Value()
    requires a.Positions() == b.Positions()
    ensures a == b
  {
    match a
    case Insert(_, _) =>
      assert a.Positions()[0] == b.Positions()[0];
    case Delete(_, _) =>
      assert a.Positions()[0] == b.Positions()[0];
    case Move(_, _, _) =>
      assert a.Positions()[0] == b.Positions()[0] && a.Positions()[1] == b.Positions()[1];
    case Update(_, _, _) =>
      assert a.Positions()[0] == b.Positions()[0] && a.Positions()[1] == b.Positions()[1];
  }

  // ---------------------------------------------------------------------
  // Properties of step equality
  // ---------------------------------------------------------------------

  /** Steps of different variants are never equal, whatever they carry. */
  lemma DifferentVariantsUnequal<T>(eq: (T, T) -> bool, a: DiffStep<T>, b: DiffStep<T>)
    requires a.IsInsert() != b.IsInsert() || a.IsDelete() != b.IsDelete()
          || a.IsMove() != b.IsMove() || a.IsUpdate() != b.IsUpdate()
    ensures !Equal(eq, a, b)
  {
  }

  /** Two updates that agree on the item and the new index but not on the old
      index are unequal. */
  lemma UpdateOldIndexMatters<T>(eq: (T, T) -> bool, v: T, w: T, i: int, old1: int, old2: int)
    requires old1 != old2
    ensures !Equal(eq, Update(v, i, old1), Update(w, i, old2))
  {
  }

  /** Two moves that agree on the item and the destination but not on the
      source are unequal. */
  lemma MoveFromIndexMatters<T>(eq: (T, T) -> bool, v: T, w: T, from1: int, from2: int, to: int)
    requires from1 != from2
    ensures !Equal(eq, Move(v, from1, to), Move(w, from2, to))
  {
  }

  /** Equal steps agree on every kind predicate and on the reported index,
      and their items are equal under `eq`. */
  lemma EqualStepsAgree<T>(eq: (T, T) -> bool, a: DiffStep<T>, b: DiffStep<T>)
    requires Equal(eq, a, b)
    ensures a.IsInsert() == b.IsInsert() && a.IsDelete() == b.IsDelete()
    ensures a.IsMove() == b.IsMove() && a.IsUpdate() == b.IsUpdate()
    ensures a.Index() == b.Index()
    ensures eq(a.Value(), b.Value())
  {
    if a.Move? {
      assert a.Positions()[1] == b.Positions()[1];
    } else {
      assert a.Positions()[0] == b.Positions()[0];
    }
  }

  /** With the item type's structural equality, step equality is exactly
      structural equality of steps. */
  lemma EqualIsStructural<T>(a: DiffStep<T>, b: DiffStep<T>)
    ensures Equal((x: T, y: T) => x == y, a, b) <==> a == b
  {
    if Equal((x: T, y: T) => x == y, a, b) {
      PartsDetermineStep(a, b);
    }
  }

  ghost predicate Reflexive<T(!new)>(eq: (T, T) -> bool) {
    forall x :: eq(x, x)
  }

  ghost predicate Symmetric<T(!new)>(eq: (T, T) -> bool) {
    forall x, y :: eq(x, y) ==> eq(y, x)
  }

  ghost predicate Transitive<T(!new)>(eq: (T, T) -> bool) {
    forall x, y, z :: eq(x, y) && eq(y, z) ==> eq(x, z)
  }

  /** If the item equality is reflexive, so is step equality. */
  lemma EqualReflexive<T(!new)>(eq: (T, T) -> bool)
    requires Reflexive(eq)
    ensures forall s: DiffStep<T> :: Equal(eq, s, s)
  {
    forall s: DiffStep<T> ensures Equal(eq, s, s) {
      assert eq(s.value, s.value);
    }
  }

  /** If the item equality is symmetric, so is step equality. */
  lemma EqualSymmetric<T(!new)>(eq: (T, T) -> bool)
    requires Symmetric(eq)
    ensures forall a: DiffStep<T>, b: DiffStep<T> :: Equal(eq, a, b) ==> Equal(eq, b, a)
  {
    forall a: DiffStep<T>, b: DiffStep<T> | Equal(eq, a, b) ensures Equal(eq, b, a) {
      assert eq(b.value, a.value);
    }
  }

  /** If the item equality is transitive, so is step equality. */
  lemma EqualTransitive<T(!new)>(eq: (T, T) -> bool)
    requires Transitive(eq)
    ensures forall a: DiffStep<T>, b: DiffStep<T>, c: DiffStep<T> ::
      Equal(eq, a, b) && Equal(eq, b, c) ==> Equal(eq, a, c)
  {
    forall a: DiffStep<T>, b: DiffStep<T>, c: DiffStep<T> | Equal(eq, a, b) && Equal(eq, b, c)
      ensures Equal(eq, a, c)
    {
      assert eq(a.value, c.value);
    }
  }

  // ---------------------------------------------------------------------
  // Step lists compared element by element
  // ---------------------------------------------------------------------

  /** Two lists of steps compared element by element with step equality:
      the comparison that the `Equatable` conformance makes available for
      the step lists a diff returns. */
  function StepsEqual<T>(eq: (T, T) -> bool, xs: seq<DiffStep<T>>, ys: seq<DiffStep<T>>): (r: bool)
    ensures r <==> |xs| == |ys| && forall i | 0 <= i < |xs| :: Equal(eq, xs[i], ys[i])
  {
    if |xs| != |ys| then false
    else if xs == [] then true
    else Equal(eq, xs[0], ys[0]) && StepsEqual(eq, xs[1..], ys[1..])
  }

  /** Equal step lists hold, position by position, steps of the same
      variant reporting the same index. */
  lemma {:induction false} EqualListsAgreeOnKinds<T>(eq: (T, T) -> bool, xs: seq<DiffStep<T>>, ys: seq<DiffStep<T>>)
    requires StepsEqual(eq, xs, ys)
    ensures |xs| == |ys|
    ensures forall i | 0 <= i < |xs| :: xs[i].Kind() == ys[i].Kind() && xs[i].Index() == ys[i].Index()
  {
    forall i | 0 <= i < |xs| ensures xs[i].Kind() == ys[i].Kind() && xs[i].Index() == ys[i].Index() {
      EqualStepsAgree(eq, xs[i], ys[i]);
    }
  }

  /** With the item type's structural equality, comparing step lists is
      exactly structural equality of the lists. */
  lemma {:induction false} StepsEqualIsStructural<T>(xs: seq<DiffStep<T>>, ys: seq<DiffStep<T>>)
    ensures StepsEqual((x: T, y: T) => x == y, xs, ys) <==> xs == ys
  {
    if |xs| == |ys| && xs != [] {
      EqualIsStructural(xs[0], ys[0]);
      StepsEqualIsStructural(xs[1..], ys[1..]);
      if xs[1..] == ys[1..] && xs[0] == ys[0] {
        assert xs == [xs[0]] + xs[1..];
        assert ys == [ys[0]] + ys[1..];
      }
    }
  }
}
