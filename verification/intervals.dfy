/**
 * The interval family: an interval value with its cached emptiness flag, the
 * normalising constructor and the public operations. Every operation takes the
 * family's value comparator `cmp` as its first argument; all intervals passed to
 * one call are assumed to belong to the same family.
 */
module Intervals {
  import opened Wrappers
  import opened Endpoints

  /**
   * `from` is the lower bound and `to` the upper bound, as supplied (never
   * reordered); `empty` is computed once by the constructor.
   */
  datatype Interval<T> = Interval(from: Endpoint<T>, to: Endpoint<T>, empty: bool)

  /** The two halves of a complement. */
  datatype Split<T> = Split(before: Interval<T>, after: Interval<T>)

  /**
   * The emptiness rule: `from` strictly after `to`, or both at the same position
   * and not both inclusive.
   */
  predicate IsEmpty<T>(cmp: (T, T) -> int, from: Endpoint<T>, to: Endpoint<T>) {
    var ordering := CompareEndpoints(cmp, from, to);
    ordering > 0 || (ordering == 0 && !(from.Inclusive() && to.Inclusive()))
  }

  /**
   * What the constructor guarantees of every interval: the flag follows the
   * emptiness rule and every empty interval carries the bounds [+inf, -inf].
   */
  predicate Valid<T>(cmp: (T, T) -> int, i: Interval<T>) {
    && i.empty == IsEmpty(cmp, i.from, i.to)
    && (i.empty ==> i.from.PosInf? && i.to.NegInf?)
  }

  /** The constructor: computes emptiness and normalises every empty interval. */
  function Make<T>(cmp: (T, T) -> int, from: Endpoint<T>, to: Endpoint<T>): (r: Interval<T>)
    ensures Valid(cmp, r)
    ensures r.empty == IsEmpty(cmp, from, to)
    ensures !r.empty ==> r.from == from && r.to == to
  {
    if IsEmpty(cmp, from, to) then Interval(PosInf, NegInf, true) else Interval(from, to, false)
  }

  /** The constructor as called from untyped code: a missing endpoint is refused. */
  function New<T>(cmp: (T, T) -> int, from: Option<Endpoint<T>>, to: Option<Endpoint<T>>)
    : (r: Result<Interval<T>, string>)
    ensures r.Success? <==> from.Some? && to.Some?
    ensures r.Success? ==> Valid(cmp, r.value)
    ensures r.Success? ==> (r.value.empty <==> IsEmpty(cmp, from.value, to.value))
    ensures r.Success? && !r.value.empty ==> r.value.from == from.value && r.value.to == to.value
  {
    if from.None? || to.None? then Failure("Interval: missing from/to endpoint(s)")
    else Success(Make(cmp, from.value, to.value))
  }

  /** The shared empty interval. */
  function Empty<T>(cmp: (T, T) -> int): (r: Interval<T>)
    ensures Valid(cmp, r) && r.empty
  {
    Make(cmp, PosInf, NegInf)
  }

  /** The shared unbounded interval (-inf, +inf). */
  function Whole<T>(cmp: (T, T) -> int): (r: Interval<T>)
    ensures Valid(cmp, r) && !r.empty
    ensures r.from.NegInf? && r.to.PosInf?
  {
    Make(cmp, NegInf, PosInf)
  }

  /** The single-point interval [v, v]. */
  function Singleton<T>(cmp: (T, T) -> int, v: T): (r: Interval<T>)
    ensures Valid(cmp, r)
    ensures !r.empty <==> cmp(v, v) <= 0
    ensures !r.empty ==> r.from == IncEnd(v) && r.to == IncEnd(v)
  {
    Make(cmp, IncEnd(v), IncEnd(v))
  }

  function EqualTo<T>(cmp: (T, T) -> int, i: Interval<T>, j: Interval<T>): bool {
    if i.empty && j.empty then true
    else if i.empty != j.empty then false
    else FromComparator(cmp, i.from, j.from) == 0 && ToComparator(cmp, i.to, j.to) == 0
  }

  /** The later lower bound with the earlier upper bound. */
  function Intersection<T>(cmp: (T, T) -> int, i: Interval<T>, j: Interval<T>): (r: Interval<T>)
    ensures Valid(cmp, r)
    ensures i.empty || j.empty ==> r.empty
  {
    if i.empty || j.empty then Empty(cmp)
    else
      var highestFrom := if FromComparator(cmp, i.from, j.from) > 0 then i.from else j.from;
      var lowestTo := if ToComparator(cmp, i.to, j.to) > 0 then j.to else i.to;
      Make(cmp, highestFrom, lowestTo)
  }

  /** The parts of the line before and after the interval. */
  function Complement<T>(cmp: (T, T) -> int, i: Interval<T>): (r: Split<T>)
    ensures Valid(cmp, r.before) && Valid(cmp, r.after)
  {
    Split(Make(cmp, NegInf, Adjacent(i.from)), Make(cmp, Adjacent(i.to), PosInf))
  }

  /**
   * Overlapping intervals, or an upper bound of one meeting the lower bound of the
   * other with at least one side inclusive; vacuously true when either is empty.
   */
  predicate ContiguousWith<T>(cmp: (T, T) -> int, i: Interval<T>, j: Interval<T>) {
    if i.empty || j.empty then true
    else
      var overlapping := !Intersection(cmp, i, j).empty;
      var canConcatThisAndOther :=
        CompareEndpoints(cmp, i.to, j.from) == 0 && (i.to.Inclusive() || j.from.Inclusive());
      var canConcatOtherAndThis :=
        CompareEndpoints(cmp, j.to, i.from) == 0 && (j.to.Inclusive() || i.from.Inclusive());
      overlapping || canConcatThisAndOther || canConcatOtherAndThis
  }

  /** The earlier lower bound with the later upper bound; an empty operand yields the other. */
  function Hull<T>(cmp: (T, T) -> int, i: Interval<T>, j: Interval<T>): (r: Interval<T>)
    ensures Valid(cmp, i) && Valid(cmp, j) ==> Valid(cmp, r)
    ensures i.empty ==> r == j
    ensures !i.empty && j.empty ==> r == i
  {
    if i.empty then j
    else if j.empty then i
    else
      var lowestFrom := if FromComparator(cmp, i.from, j.from) < 0 then i.from else j.from;
      var highestTo := if ToComparator(cmp, i.to, j.to) < 0 then j.to else i.to;
      Make(cmp, lowestFrom, highestTo)
  }

  /** The hull of contiguous intervals; the empty interval otherwise. */
  function Unify<T>(cmp: (T, T) -> int, i: Interval<T>, j: Interval<T>): (r: Interval<T>)
    ensures Valid(cmp, i) && Valid(cmp, j) ==> Valid(cmp, r)
    ensures !ContiguousWith(cmp, i, j) ==> r.empty
  {
    if !ContiguousWith(cmp, i, j) then Empty(cmp) else Hull(cmp, i, j)
  }

  /** Membership, decided by intersecting with the single-point interval [x, x]. */
  predicate Contains<T>(cmp: (T, T) -> int, i: Interval<T>, x: T) {
    if i.empty then false else !Intersection(cmp, i, Singleton(cmp, x)).empty
  }

  /** Lower bound no earlier and upper bound no later than the other's. */
  predicate IsSubsetOf<T>(cmp: (T, T) -> int, i: Interval<T>, j: Interval<T>) {
    FromComparator(cmp, i.from, j.from) >= 0 && ToComparator(cmp, i.to, j.to) <= 0
  }
}
