/**
 * Domain comparators. An interval family is built over a value comparator that
 * returns a negative, zero or positive number; only the sign of the result is ever
 * inspected. The code never checks the comparator, so the laws of the algebra are
 * stated for comparators whose sign behaves like a total preorder.
 */
module Comparators {

  /**
   * "a orders no later than b". The laws below are stated with this predicate as
   * their trigger, so that a proof uses them only where it names the values
   * involved (through Facts).
   */
  predicate NoLater<T>(cmp: (T, T) -> int, a: T, b: T) {
    cmp(a, b) <= 0
  }

  /** Every value compares equal to itself. */
  ghost predicate Reflexive<T(!new)>(cmp: (T, T) -> int) {
    forall a {:trigger NoLater(cmp, a, a)} :: cmp(a, a) == 0
  }

  /** Swapping the arguments flips the sign of the result. */
  ghost predicate Antisymmetric<T(!new)>(cmp: (T, T) -> int) {
    forall a, b {:trigger NoLater(cmp, a, b)} :: cmp(a, b) < 0 <==> cmp(b, a) > 0
  }

  /** "Orders no later than" is transitive. */
  ghost predicate Transitive<T(!new)>(cmp: (T, T) -> int) {
    forall a, b, c {:trigger NoLater(cmp, a, b), NoLater(cmp, b, c)} ::
      NoLater(cmp, a, b) && NoLater(cmp, b, c) ==> NoLater(cmp, a, c)
  }

  /**
   * The assumption under which the interval laws hold. A zero result need not mean
   * that the two values are identical: a comparator on a sort key is allowed.
   */
  ghost predicate ValidComparator<T(!new)>(cmp: (T, T) -> int) {
    Reflexive(cmp) && Antisymmetric(cmp) && Transitive(cmp)
  }

  /** The default comparator of a family, `(a > b) - (a < b)`. */
  function NaturalOrder(a: int, b: int): (r: int)
    ensures -1 <= r <= 1
    ensures r < 0 <==> a < b
    ensures r == 0 <==> a == b
  {
    (if a > b then 1 else 0) - (if a < b then 1 else 0)
  }

  lemma NaturalOrderIsValid()
    ensures ValidComparator(NaturalOrder)
  {
    forall a: int, b: int
      ensures NaturalOrder(a, a) == 0
      ensures NaturalOrder(a, b) < 0 <==> NaturalOrder(b, a) > 0
    {
    }
  }

  /** A comparator that subtracts integer sort keys, as the test suite's record comparator does. */
  lemma KeyDifferenceIsValid<T(!new)>(key: T -> int)
    ensures ValidComparator((a: T, b: T) => key(a) - key(b))
  {
  }

  /** Consequences of the three laws, instantiated for the given values. */
  lemma Facts<T(!new)>(cmp: (T, T) -> int, a: T, b: T, c: T)
    requires ValidComparator(cmp)
    ensures cmp(a, a) == 0 && cmp(b, b) == 0 && cmp(c, c) == 0
    ensures (cmp(a, b) < 0 <==> cmp(b, a) > 0) && (cmp(a, b) == 0 <==> cmp(b, a) == 0)
    ensures (cmp(b, c) < 0 <==> cmp(c, b) > 0) && (cmp(b, c) == 0 <==> cmp(c, b) == 0)
    ensures (cmp(a, c) < 0 <==> cmp(c, a) > 0) && (cmp(a, c) == 0 <==> cmp(c, a) == 0)
    ensures cmp(a, b) <= 0 && cmp(b, c) <= 0 ==> cmp(a, c) <= 0
    ensures cmp(a, b) < 0 && cmp(b, c) <= 0 ==> cmp(a, c) < 0
    ensures cmp(a, b) <= 0 && cmp(b, c) < 0 ==> cmp(a, c) < 0
  {
    assert NoLater(cmp, a, a) && NoLater(cmp, b, b) && NoLater(cmp, c, c);
    assert NoLater(cmp, a, b) == (cmp(a, b) <= 0) && NoLater(cmp, b, a) == (cmp(b, a) <= 0);
    assert NoLater(cmp, a, c) == (cmp(a, c) <= 0) && NoLater(cmp, c, a) == (cmp(c, a) <= 0);
    assert NoLater(cmp, b, c) == (cmp(b, c) <= 0) && NoLater(cmp, c, b) == (cmp(c, b) <= 0);
  }
}
