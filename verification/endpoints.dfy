/**
 * Endpoints of an interval and the three orderings on them: the plain endpoint
 * order, and the lower-bound and upper-bound orders that break ties at equal
 * values by inclusivity.
 */
module Endpoints {
  import opened Comparators

  /**
   * A finite value with an inclusive or exclusive flag, or one of the two shared
   * infinity sentinels. Sentinels are never inclusive.
   */
  datatype Endpoint<T> = NegInf | PosInf | Finite(value: T, incl: bool) {
    predicate Inclusive() {
      Finite? && incl
    }
  }

  function IncEnd<T>(v: T): Endpoint<T> {
    Finite(v, true)
  }

  function ExcEnd<T>(v: T): Endpoint<T> {
    Finite(v, false)
  }

  /** A boolean used as a number, as `true - false` is in index.js. */
  function Bit(b: bool): int {
    if b then 1 else 0
  }

  /** Infinities are their own neighbours; a finite endpoint flips its inclusivity. */
  function Adjacent<T>(e: Endpoint<T>): Endpoint<T> {
    match e
    case Finite(v, c) => if c then ExcEnd(v) else IncEnd(v)
    case _ => e
  }

  /**
   * Sentinels compare equal only to themselves (the identity test of index.js),
   * NegInf before and PosInf after everything else; two finite endpoints compare by
   * their values alone.
   */
  function CompareEndpoints<T>(cmp: (T, T) -> int, a: Endpoint<T>, b: Endpoint<T>): int {
    if (a.NegInf? && b.NegInf?) || (a.PosInf? && b.PosInf?) then 0
    else if a.NegInf? || b.PosInf? then -1
    else if b.NegInf? || a.PosInf? then 1
    else cmp(a.value, b.value)
  }

  /** Order on lower bounds: at the same position an inclusive bound comes first. */
  function FromComparator<T>(cmp: (T, T) -> int, a: Endpoint<T>, b: Endpoint<T>): int {
    var ordering := CompareEndpoints(cmp, a, b);
    if ordering == 0 then Bit(b.Inclusive()) - Bit(a.Inclusive()) else ordering
  }

  /** Order on upper bounds: at the same position an exclusive bound comes first. */
  function ToComparator<T>(cmp: (T, T) -> int, a: Endpoint<T>, b: Endpoint<T>): int {
    var ordering := CompareEndpoints(cmp, a, b);
    if ordering == 0 then Bit(a.Inclusive()) - Bit(b.Inclusive()) else ordering
  }

  /** Reference meaning of a lower bound: the value x lies on its admitted side. */
  predicate AboveFrom<T>(cmp: (T, T) -> int, x: T, f: Endpoint<T>) {
    match f
    case NegInf => true
    case PosInf => false
    case Finite(v, c) => if c then cmp(v, x) <= 0 else cmp(v, x) < 0
  }

  /** Reference meaning of an upper bound: the value x lies on its admitted side. */
  predicate BelowTo<T>(cmp: (T, T) -> int, x: T, t: Endpoint<T>) {
    match t
    case NegInf => false
    case PosInf => true
    case Finite(v, c) => if c then cmp(x, v) <= 0 else cmp(x, v) < 0
  }

  /** The sentinels sit at the two ends of the endpoint order; finite endpoints follow their values. */
  lemma SentinelsAreExtremes<T>(cmp: (T, T) -> int, e: Endpoint<T>)
    ensures CompareEndpoints(cmp, NegInf, e) <= 0
    ensures CompareEndpoints(cmp, NegInf, e) == 0 <==> e.NegInf?
    ensures CompareEndpoints(cmp, e, PosInf) <= 0
    ensures CompareEndpoints(cmp, e, PosInf) == 0 <==> e.PosInf?
    ensures e.Finite? ==> CompareEndpoints(cmp, e, NegInf) > 0 && CompareEndpoints(cmp, PosInf, e) > 0
  {
  }

  /** Two finite endpoints compare exactly as their values do, whatever their flags. */
  lemma FiniteEndpointsCompareByValue<T>(cmp: (T, T) -> int, v: T, c: bool, w: T, d: bool)
    ensures CompareEndpoints(cmp, Finite(v, c), Finite(w, d)) == cmp(v, w)
  {
  }

  /** At equal values, inclusive sorts first among lower bounds and last among upper bounds. */
  lemma TieBreaks<T>(cmp: (T, T) -> int, v: T, w: T)
    requires cmp(v, w) == 0
    ensures FromComparator(cmp, IncEnd(v), ExcEnd(w)) < 0
    ensures ToComparator(cmp, ExcEnd(v), IncEnd(w)) < 0
    ensures FromComparator(cmp, IncEnd(v), IncEnd(w)) == 0
    ensures ToComparator(cmp, ExcEnd(v), ExcEnd(w)) == 0
  {
  }

  /** Adjacent is an involution. */
  lemma AdjacentInvolution<T>(e: Endpoint<T>)
    ensures Adjacent(Adjacent(e)) == e
    ensures Adjacent(e).Finite? <==> e.Finite?
    ensures !e.Finite? ==> Adjacent(e) == e
    ensures e.Finite? ==> Adjacent(e) == Finite(e.value, !e.incl)
  {
  }

  /**
   * A finite endpoint and its neighbour split the values: x is admitted by the
   * lower bound e exactly when it is refused by the upper bound Adjacent(e), and
   * the other way round.
   */
  lemma AdjacentSplits<T(!new)>(cmp: (T, T) -> int, x: T, e: Endpoint<T>)
    requires ValidComparator(cmp)
    requires e.Finite?
    ensures AboveFrom(cmp, x, e) <==> !BelowTo(cmp, x, Adjacent(e))
    ensures BelowTo(cmp, x, e) <==> !AboveFrom(cmp, x, Adjacent(e))
  {
    Facts(cmp, x, e.value, x);
  }

  /** A lower bound that sorts no later admits at least the same values. */
  lemma EarlierFromAdmitsMore<T(!new)>(cmp: (T, T) -> int, x: T, f1: Endpoint<T>, f2: Endpoint<T>)
    requires ValidComparator(cmp)
    requires FromComparator(cmp, f1, f2) <= 0
    requires AboveFrom(cmp, x, f2)
    ensures AboveFrom(cmp, x, f1)
  {
    if f1.Finite? && f2.Finite? {
      Facts(cmp, f1.value, f2.value, x);
    }
  }

  /** An upper bound that sorts no earlier admits at least the same values. */
  lemma LaterToAdmitsMore<T(!new)>(cmp: (T, T) -> int, x: T, t1: Endpoint<T>, t2: Endpoint<T>)
    requires ValidComparator(cmp)
    requires ToComparator(cmp, t1, t2) <= 0
    requires BelowTo(cmp, x, t1)
    ensures BelowTo(cmp, x, t2)
  {
    if t1.Finite? && t2.Finite? {
      Facts(cmp, x, t1.value, t2.value);
    }
  }

  /** The laws of a valid comparator, instantiated for the endpoint order. */
  lemma CompareFacts<T(!new)>(cmp: (T, T) -> int, a: Endpoint<T>, b: Endpoint<T>, c: Endpoint<T>)
    requires ValidComparator(cmp)
    ensures CompareEndpoints(cmp, a, a) == 0 && CompareEndpoints(cmp, b, b) == 0 && CompareEndpoints(cmp, c, c) == 0
    ensures CompareEndpoints(cmp, a, b) < 0 <==> CompareEndpoints(cmp, b, a) > 0
    ensures CompareEndpoints(cmp, a, b) == 0 <==> CompareEndpoints(cmp, b, a) == 0
    ensures CompareEndpoints(cmp, b, c) < 0 <==> CompareEndpoints(cmp, c, b) > 0
    ensures CompareEndpoints(cmp, b, c) == 0 <==> CompareEndpoints(cmp, c, b) == 0
    ensures CompareEndpoints(cmp, a, c) < 0 <==> CompareEndpoints(cmp, c, a) > 0
    ensures CompareEndpoints(cmp, a, c) == 0 <==> CompareEndpoints(cmp, c, a) == 0
    ensures CompareEndpoints(cmp, a, b) <= 0 && CompareEndpoints(cmp, b, c) <= 0 ==> CompareEndpoints(cmp, a, c) <= 0
    ensures CompareEndpoints(cmp, a, b) < 0 && CompareEndpoints(cmp, b, c) <= 0 ==> CompareEndpoints(cmp, a, c) < 0
    ensures CompareEndpoints(cmp, a, b) <= 0 && CompareEndpoints(cmp, b, c) < 0 ==> CompareEndpoints(cmp, a, c) < 0
  {
    // Stand-ins for the values of infinite endpoints, which the comparator never sees.
    if a.Finite? || b.Finite? || c.Finite? {
      var u := if a.Finite? then a.value else if b.Finite? then b.value else c.value;
      var va := if a.Finite? then a.value else u;
      var vb := if b.Finite? then b.value else u;
      var vc := if c.Finite? then c.value else u;
      Facts(cmp, va, vb, vc);
    }
  }

  /** The laws of a valid comparator, instantiated for the lower-bound order. */
  lemma FromFacts<T(!new)>(cmp: (T, T) -> int, a: Endpoint<T>, b: Endpoint<T>, c: Endpoint<T>)
    requires ValidComparator(cmp)
    ensures FromComparator(cmp, a, a) == 0 && FromComparator(cmp, b, b) == 0 && FromComparator(cmp, c, c) == 0
    ensures FromComparator(cmp, a, b) < 0 <==> FromComparator(cmp, b, a) > 0
    ensures FromComparator(cmp, a, b) == 0 <==> FromComparator(cmp, b, a) == 0
    ensures FromComparator(cmp, b, c) < 0 <==> FromComparator(cmp, c, b) > 0
    ensures FromComparator(cmp, b, c) == 0 <==> FromComparator(cmp, c, b) == 0
    ensures FromComparator(cmp, a, c) < 0 <==> FromComparator(cmp, c, a) > 0
    ensures FromComparator(cmp, a, c) == 0 <==> FromComparator(cmp, c, a) == 0
    ensures FromComparator(cmp, a, b) == 0 ==> CompareEndpoints(cmp, a, b) == 0 && a.Inclusive() == b.Inclusive()
    ensures FromComparator(cmp, a, b) <= 0 && FromComparator(cmp, b, c) <= 0 ==> FromComparator(cmp, a, c) <= 0
  {
    CompareFacts(cmp, a, b, c);
  }

  /** The laws of a valid comparator, instantiated for the upper-bound order. */
  lemma ToFacts<T(!new)>(cmp: (T, T) -> int, a: Endpoint<T>, b: Endpoint<T>, c: Endpoint<T>)
    requires ValidComparator(cmp)
    ensures ToComparator(cmp, a, a) == 0 && ToComparator(cmp, b, b) == 0 && ToComparator(cmp, c, c) == 0
    ensures ToComparator(cmp, a, b) < 0 <==> ToComparator(cmp, b, a) > 0
    ensures ToComparator(cmp, a, b) == 0 <==> ToComparator(cmp, b, a) == 0
    ensures ToComparator(cmp, b, c) < 0 <==> ToComparator(cmp, c, b) > 0
    ensures ToComparator(cmp, b, c) == 0 <==> ToComparator(cmp, c, b) == 0
    ensures ToComparator(cmp, a, c) < 0 <==> ToComparator(cmp, c, a) > 0
    ensures ToComparator(cmp, a, c) == 0 <==> ToComparator(cmp, c, a) == 0
    ensures ToComparator(cmp, a, b) == 0 ==> CompareEndpoints(cmp, a, b) == 0 && a.Inclusive() == b.Inclusive()
    ensures ToComparator(cmp, a, b) <= 0 && ToComparator(cmp, b, c) <= 0 ==> ToComparator(cmp, a, c) <= 0
  {
    CompareFacts(cmp, a, b, c);
  }

  /** The endpoint order is a total preorder whenever the value comparator is. */
  lemma CompareEndpointsIsValid<T(!new)>(cmp: (T, T) -> int)
    requires ValidComparator(cmp)
    ensures ValidComparator((a: Endpoint<T>, b: Endpoint<T>) => CompareEndpoints(cmp, a, b))
  {
    forall a: Endpoint<T>, b: Endpoint<T>, c: Endpoint<T>
      ensures CompareEndpoints(cmp, a, b) < 0 <==> CompareEndpoints(cmp, b, a) > 0
      ensures CompareEndpoints(cmp, a, b) <= 0 && CompareEndpoints(cmp, b, c) <= 0 ==> CompareEndpoints(cmp, a, c) <= 0
    {
      CompareFacts(cmp, a, b, c);
    }
  }

  /** The lower-bound order is a total preorder whenever the value comparator is. */
  lemma FromComparatorIsValid<T(!new)>(cmp: (T, T) -> int)
    requires ValidComparator(cmp)
    ensures ValidComparator((a: Endpoint<T>, b: Endpoint<T>) => FromComparator(cmp, a, b))
  {
    forall a: Endpoint<T>, b: Endpoint<T>, c: Endpoint<T>
      ensures FromComparator(cmp, a, b) < 0 <==> FromComparator(cmp, b, a) > 0
      ensures FromComparator(cmp, a, b) <= 0 && FromComparator(cmp, b, c) <= 0 ==> FromComparator(cmp, a, c) <= 0
    {
      FromFacts(cmp, a, b, c);
    }
  }

  /** The upper-bound order is a total preorder whenever the value comparator is. */
  lemma ToComparatorIsValid<T(!new)>(cmp: (T, T) -> int)
    requires ValidComparator(cmp)
    ensures ValidComparator((a: Endpoint<T>, b: Endpoint<T>) => ToComparator(cmp, a, b))
  {
    forall a: Endpoint<T>, b: Endpoint<T>, c: Endpoint<T>
      ensures ToComparator(cmp, a, b) < 0 <==> ToComparator(cmp, b, a) > 0
      ensures ToComparator(cmp, a, b) <= 0 && ToComparator(cmp, b, c) <= 0 ==> ToComparator(cmp, a, c) <= 0
    {
      ToFacts(cmp, a, b, c);
    }
  }
}
