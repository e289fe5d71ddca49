/** The ordering policy of the skip list: one injected strict "less" relation
    and the four relations the container derives from it. */
module Ordering {

  /** `less` is a strict weak ordering: irreflexive, transitive, and
      negatively transitive (if a < c then every b is above a or below c),
      which is the same as saying that incomparability is transitive. */
  ghost predicate StrictWeakOrder<T(!new)>(less: (T, T) -> bool) {
    && (forall a :: !less(a, a))
    && (forall a, b, c :: less(a, b) && less(b, c) ==> less(a, c))
    && (forall a, b, c :: less(a, c) ==> less(a, b) || less(b, c))
  }

  function IsLess<T>(less: (T, T) -> bool, lhs: T, rhs: T): bool {
    less(lhs, rhs)
  }

  function IsGreat<T>(less: (T, T) -> bool, lhs: T, rhs: T): bool {
    less(rhs, lhs)
  }

  function IsLessOrEqual<T>(less: (T, T) -> bool, lhs: T, rhs: T): bool {
    !less(rhs, lhs)
  }

  function IsGreatOrEqual<T>(less: (T, T) -> bool, lhs: T, rhs: T): bool {
    !less(lhs, rhs)
  }

  function IsEqual<T>(less: (T, T) -> bool, lhs: T, rhs: T): bool {
    !(less(lhs, rhs) || less(rhs, lhs))
  }

  /** Under a strict weak ordering the derived relations fit together:
      exactly one of less, equal, greater holds, and the non-strict
      relations are the strict ones widened by equality. */
  lemma DerivedRelations<T(!new)>(less: (T, T) -> bool, a: T, b: T)
    requires StrictWeakOrder(less)
    ensures IsGreat(less, a, b) <==> IsLess(less, b, a)
    ensures IsLessOrEqual(less, a, b) <==> IsLess(less, a, b) || IsEqual(less, a, b)
    ensures IsGreatOrEqual(less, a, b) <==> IsGreat(less, a, b) || IsEqual(less, a, b)
    ensures IsEqual(less, a, b) <==> IsLessOrEqual(less, a, b) && IsGreatOrEqual(less, a, b)
    ensures IsLess(less, a, b) ==> !IsEqual(less, a, b) && !IsGreat(less, a, b)
    ensures IsGreat(less, a, b) ==> !IsEqual(less, a, b)
    ensures IsLess(less, a, b) || IsEqual(less, a, b) || IsGreat(less, a, b)
  {
  }

  /** Equality derived from `less` is an equivalence relation. */
  lemma EqualIsEquivalence<T(!new)>(less: (T, T) -> bool, a: T, b: T, c: T)
    requires StrictWeakOrder(less)
    ensures IsEqual(less, a, a)
    ensures IsEqual(less, a, b) ==> IsEqual(less, b, a)
    ensures IsEqual(less, a, b) && IsEqual(less, b, c) ==> IsEqual(less, a, c)
  {
  }
}
