/**
 * Laws of the interval algebra. The reference meaning of an interval is the set of
 * values its two bounds admit (Within); each operation is tied to that meaning
 * or to the subset order, for every valid comparator.
 */
module IntervalLaws {
  import opened Comparators
  import opened Endpoints
  import opened Intervals

  /** Reference membership: x is admitted by both bounds. */
  predicate Within<T>(cmp: (T, T) -> int, x: T, from: Endpoint<T>, to: Endpoint<T>) {
    AboveFrom(cmp, x, from) && BelowTo(cmp, x, to)
  }

  // ---------------------------------------------------------------------------
  // Emptiness and normalisation

  /** Bounds that the emptiness rule calls empty admit no value at all. */
  lemma EmptyBoundsAdmitNothing<T(!new)>(cmp: (T, T) -> int, x: T, from: Endpoint<T>, to: Endpoint<T>)
    requires ValidComparator(cmp)
    requires IsEmpty(cmp, from, to)
    ensures !Within(cmp, x, from, to)
  {
    if from.Finite? && to.Finite? {
      Facts(cmp, from.value, x, to.value);
    }
  }

  /** A value refused by a lower bound and by an upper bound proves those bounds empty. */
  lemma GapMeansEmpty<T(!new)>(cmp: (T, T) -> int, x: T, from: Endpoint<T>, to: Endpoint<T>)
    requires ValidComparator(cmp)
    requires !AboveFrom(cmp, x, from) && !BelowTo(cmp, x, to)
    ensures IsEmpty(cmp, from, to)
  {
    if from.Finite? && to.Finite? {
      Facts(cmp, to.value, x, from.value);
    }
  }

  /** The constructor keeps exactly the values its bounds admit. */
  lemma MakeMembers<T(!new)>(cmp: (T, T) -> int, x: T, from: Endpoint<T>, to: Endpoint<T>)
    requires ValidComparator(cmp)
    ensures var r := Make(cmp, from, to); Within(cmp, x, r.from, r.to) <==> Within(cmp, x, from, to)
  {
    if IsEmpty(cmp, from, to) {
      EmptyBoundsAdmitNothing(cmp, x, from, to);
    }
  }

  /** [a,a), (a,a] and (a,a) are empty; [a,a] is not. */
  lemma DegenerateIntervals<T(!new)>(cmp: (T, T) -> int, a: T)
    requires ValidComparator(cmp)
    ensures Make(cmp, IncEnd(a), ExcEnd(a)).empty
    ensures Make(cmp, ExcEnd(a), IncEnd(a)).empty
    ensures Make(cmp, ExcEnd(a), ExcEnd(a)).empty
    ensures !Singleton(cmp, a).empty
  {
    Facts(cmp, a, a, a);
  }

  /** Bounds given in the wrong order build the canonical empty interval, whatever their flags. */
  lemma ReversedBoundsAreEmpty<T(!new)>(cmp: (T, T) -> int, a: T, b: T, c: bool, d: bool)
    requires ValidComparator(cmp)
    requires cmp(a, b) < 0
    ensures Make(cmp, Finite(b, c), Finite(a, d)) == Empty(cmp)
  {
    Facts(cmp, a, b, a);
  }

  /** All valid empty intervals are structurally identical. */
  lemma EmptiesAreIdentical<T>(cmp: (T, T) -> int, i: Interval<T>, j: Interval<T>)
    requires Valid(cmp, i) && Valid(cmp, j)
    requires i.empty && j.empty
    ensures i == j && i == Empty(cmp)
  {
  }

  // ---------------------------------------------------------------------------
  // Membership

  /**
   * Bounds that sit at or after [x on the lower side and at or before x] on the
   * upper side can only be non-empty when both are inclusive at x's position.
   */
  lemma PinchedAtPoint<T(!new)>(cmp: (T, T) -> int, x: T, from: Endpoint<T>, to: Endpoint<T>)
    requires ValidComparator(cmp)
    requires FromComparator(cmp, IncEnd(x), from) <= 0
    requires ToComparator(cmp, to, IncEnd(x)) <= 0
    requires !IsEmpty(cmp, from, to)
    ensures Within(cmp, x, from, to)
  {
    if from.Finite? && to.Finite? {
      Facts(cmp, to.value, x, from.value);
      Facts(cmp, from.value, to.value, x);
      Facts(cmp, x, from.value, to.value);
    }
  }

  /** Membership decided through the singleton agrees with the reference meaning. */
  lemma ContainsMeansWithin<T(!new)>(cmp: (T, T) -> int, i: Interval<T>, x: T)
    requires ValidComparator(cmp)
    requires Valid(cmp, i)
    ensures Contains(cmp, i, x) <==> Within(cmp, x, i.from, i.to)
  {
    if !i.empty {
      var s := Singleton(cmp, x);
      Facts(cmp, x, x, x);
      assert !s.empty && s.from == IncEnd(x) && s.to == IncEnd(x);
      var f := if FromComparator(cmp, i.from, s.from) > 0 then i.from else s.from;
      var t := if ToComparator(cmp, i.to, s.to) > 0 then s.to else i.to;
      assert Intersection(cmp, i, s) == Make(cmp, f, t);
      FromFacts(cmp, i.from, IncEnd(x), i.from);
      ToFacts(cmp, i.to, IncEnd(x), i.to);
      if Within(cmp, x, i.from, i.to) && IsEmpty(cmp, f, t) {
        EmptyBoundsAdmitNothing(cmp, x, f, t);
      }
      if !IsEmpty(cmp, f, t) {
        PinchedAtPoint(cmp, x, f, t);
        EarlierFromAdmitsMore(cmp, x, i.from, f);
        LaterToAdmitsMore(cmp, x, t, i.to);
      }
    }
  }

  /** Nothing is in the empty interval; with a reflexive comparator, everything is in the whole line. */
  lemma ContainsExtremes<T(!new)>(cmp: (T, T) -> int, x: T)
    requires ValidComparator(cmp)
    ensures !Contains(cmp, Empty(cmp), x)
    ensures Contains(cmp, Whole(cmp), x)
  {
    ContainsMeansWithin(cmp, Whole(cmp), x);
  }

  /** A finite bound value is a member exactly when that bound is inclusive. */
  lemma ContainsAtBounds<T(!new)>(cmp: (T, T) -> int, i: Interval<T>)
    requires ValidComparator(cmp)
    requires Valid(cmp, i) && !i.empty
    ensures i.from.Finite? ==> (Contains(cmp, i, i.from.value) <==> i.from.Inclusive())
    ensures i.to.Finite? ==> (Contains(cmp, i, i.to.value) <==> i.to.Inclusive())
  {
    if i.from.Finite? {
      Facts(cmp, i.from.value, i.from.value, i.from.value);
      ContainsMeansWithin(cmp, i, i.from.value);
      if i.to.Finite? {
        Facts(cmp, i.from.value, i.to.value, i.from.value);
      }
    }
    if i.to.Finite? {
      Facts(cmp, i.to.value, i.to.value, i.to.value);
      ContainsMeansWithin(cmp, i, i.to.value);
      if i.from.Finite? {
        Facts(cmp, i.from.value, i.to.value, i.from.value);
      }
    }
  }

  // ---------------------------------------------------------------------------
  // Intersection

  /** A value is in the intersection exactly when it is in both operands. */
  lemma IntersectionMembers<T(!new)>(cmp: (T, T) -> int, i: Interval<T>, j: Interval<T>, x: T)
    requires ValidComparator(cmp)
    requires Valid(cmp, i) && Valid(cmp, j)
    ensures Contains(cmp, Intersection(cmp, i, j), x) <==> Contains(cmp, i, x) && Contains(cmp, j, x)
  {
    var r := Intersection(cmp, i, j);
    ContainsMeansWithin(cmp, r, x);
    ContainsMeansWithin(cmp, i, x);
    ContainsMeansWithin(cmp, j, x);
    if !i.empty && !j.empty {
      var f := if FromComparator(cmp, i.from, j.from) > 0 then i.from else j.from;
      var t := if ToComparator(cmp, i.to, j.to) > 0 then j.to else i.to;
      assert r == Make(cmp, f, t);
      MakeMembers(cmp, x, f, t);
      FromFacts(cmp, i.from, j.from, i.from);
      ToFacts(cmp, i.to, j.to, i.to);
      if AboveFrom(cmp, x, f) {
        EarlierFromAdmitsMore(cmp, x, i.from, f);
        EarlierFromAdmitsMore(cmp, x, j.from, f);
      }
      if BelowTo(cmp, x, t) {
        LaterToAdmitsMore(cmp, x, t, i.to);
        LaterToAdmitsMore(cmp, x, t, j.to);
      }
    }
  }

  // ---------------------------------------------------------------------------
  // Equality and the subset order

  /** equalTo is an equivalence relation. */
  lemma EqualToIsEquivalence<T(!new)>(cmp: (T, T) -> int, i: Interval<T>, j: Interval<T>, k: Interval<T>)
    requires ValidComparator(cmp)
    ensures EqualTo(cmp, i, i)
    ensures EqualTo(cmp, i, j) ==> EqualTo(cmp, j, i)
    ensures EqualTo(cmp, i, j) && EqualTo(cmp, j, k) ==> EqualTo(cmp, i, k)
  {
    FromFacts(cmp, i.from, j.from, k.from);
    FromFacts(cmp, k.from, j.from, i.from);
    ToFacts(cmp, i.to, j.to, k.to);
    ToFacts(cmp, k.to, j.to, i.to);
  }

  /** Empty intervals are equal to each other and to no non-empty interval. */
  lemma EqualToAndEmptiness<T>(cmp: (T, T) -> int, i: Interval<T>, j: Interval<T>)
    ensures i.empty && j.empty ==> EqualTo(cmp, i, j)
    ensures i.empty != j.empty ==> !EqualTo(cmp, i, j)
  {
  }

  /** Two intervals are equal exactly when each is a subset of the other. */
  lemma EqualToIsMutualSubset<T(!new)>(cmp: (T, T) -> int, i: Interval<T>, j: Interval<T>)
    requires ValidComparator(cmp)
    requires Valid(cmp, i) && Valid(cmp, j)
    ensures EqualTo(cmp, i, j) <==> IsSubsetOf(cmp, i, j) && IsSubsetOf(cmp, j, i)
  {
    FromFacts(cmp, i.from, j.from, i.from);
    ToFacts(cmp, i.to, j.to, i.to);
    CompareFacts(cmp, i.from, i.to, i.from);
    CompareFacts(cmp, j.from, j.to, j.from);
  }

  /** Every member of a subset is a member of the superset. */
  lemma SubsetMembers<T(!new)>(cmp: (T, T) -> int, i: Interval<T>, j: Interval<T>, x: T)
    requires ValidComparator(cmp)
    requires Valid(cmp, i) && Valid(cmp, j)
    requires IsSubsetOf(cmp, i, j)
    requires Contains(cmp, i, x)
    ensures Contains(cmp, j, x)
  {
    ContainsMeansWithin(cmp, i, x);
    ContainsMeansWithin(cmp, j, x);
    FromFacts(cmp, i.from, j.from, i.from);
    EarlierFromAdmitsMore(cmp, x, j.from, i.from);
    LaterToAdmitsMore(cmp, x, i.to, j.to);
  }

  /** Equal intervals have the same members. */
  lemma EqualToSameMembers<T(!new)>(cmp: (T, T) -> int, i: Interval<T>, j: Interval<T>, x: T)
    requires ValidComparator(cmp)
    requires Valid(cmp, i) && Valid(cmp, j)
    requires EqualTo(cmp, i, j)
    ensures Contains(cmp, i, x) <==> Contains(cmp, j, x)
  {
    EqualToIsMutualSubset(cmp, i, j);
    if Contains(cmp, i, x) {
      SubsetMembers(cmp, i, j, x);
    }
    if Contains(cmp, j, x) {
      SubsetMembers(cmp, j, i, x);
    }
  }

  /** The empty interval is a subset of every interval, itself included. */
  lemma EmptyIsSubsetOfAll<T>(cmp: (T, T) -> int, i: Interval<T>)
    ensures IsSubsetOf(cmp, Empty(cmp), i)
  {
  }

  /** Only an empty interval is a subset of the empty interval. */
  lemma SubsetOfEmpty<T>(cmp: (T, T) -> int, i: Interval<T>)
    requires Valid(cmp, i)
    ensures IsSubsetOf(cmp, i, Empty(cmp)) <==> i.empty
  {
  }

  /** isSubsetOf is reflexive and transitive. */
  lemma SubsetIsPreorder<T(!new)>(cmp: (T, T) -> int, i: Interval<T>, j: Interval<T>, k: Interval<T>)
    requires ValidComparator(cmp)
    ensures IsSubsetOf(cmp, i, i)
    ensures IsSubsetOf(cmp, i, j) && IsSubsetOf(cmp, j, k) ==> IsSubsetOf(cmp, i, k)
  {
    FromFacts(cmp, k.from, j.from, i.from);
    FromFacts(cmp, i.from, j.from, k.from);
    FromFacts(cmp, j.from, k.from, i.from);
    ToFacts(cmp, i.to, j.to, k.to);
  }

  /**
   * Bounds at least as wide as non-empty bounds are non-empty: a lower bound no
   * later and an upper bound no earlier cannot cross.
   */
  lemma WiderBoundsStayNonEmpty<T(!new)>(cmp: (T, T) -> int, f: Endpoint<T>, t: Endpoint<T>, f2: Endpoint<T>, t2: Endpoint<T>)
    requires ValidComparator(cmp)
    requires !IsEmpty(cmp, f, t)
    requires FromComparator(cmp, f2, f) <= 0 && ToComparator(cmp, t, t2) <= 0
    ensures !IsEmpty(cmp, f2, t2)
  {
    CompareFacts(cmp, f2, f, t);
    CompareFacts(cmp, f2, t, t2);
    CompareFacts(cmp, f, t, t2);
    CompareFacts(cmp, t2, f2, f);
    CompareFacts(cmp, t2, t, f);
  }

  /** Bounds that the lower- and upper-bound orders call equivalent build equal intervals. */
  lemma MakeRespectsEquivalence<T(!new)>(cmp: (T, T) -> int, f: Endpoint<T>, t: Endpoint<T>, f2: Endpoint<T>, t2: Endpoint<T>)
    requires ValidComparator(cmp)
    requires FromComparator(cmp, f, f2) == 0 && ToComparator(cmp, t, t2) == 0
    ensures EqualTo(cmp, Make(cmp, f, t), Make(cmp, f2, t2))
  {
    FromFacts(cmp, f, f2, f);
    ToFacts(cmp, t, t2, t);
    if !IsEmpty(cmp, f, t) {
      WiderBoundsStayNonEmpty(cmp, f, t, f2, t2);
    }
    if !IsEmpty(cmp, f2, t2) {
      WiderBoundsStayNonEmpty(cmp, f2, t2, f, t);
    }
  }

  /** The intersection is the greatest lower bound of its operands in the subset order. */
  lemma IntersectionIsGreatestLowerBound<T(!new)>(cmp: (T, T) -> int, i: Interval<T>, j: Interval<T>, k: Interval<T>)
    requires ValidComparator(cmp)
    requires Valid(cmp, i) && Valid(cmp, j) && Valid(cmp, k)
    ensures IsSubsetOf(cmp, Intersection(cmp, i, j), i)
    ensures IsSubsetOf(cmp, Intersection(cmp, i, j), j)
    ensures IsSubsetOf(cmp, k, i) && IsSubsetOf(cmp, k, j) ==> IsSubsetOf(cmp, k, Intersection(cmp, i, j))
  {
    FromFacts(cmp, i.from, j.from, i.from);
    ToFacts(cmp, i.to, j.to, i.to);
    if !i.empty && !j.empty {
      var f := if FromComparator(cmp, i.from, j.from) > 0 then i.from else j.from;
      var t := if ToComparator(cmp, i.to, j.to) > 0 then j.to else i.to;
      assert Intersection(cmp, i, j) == Make(cmp, f, t);
      if IsSubsetOf(cmp, k, i) && IsSubsetOf(cmp, k, j) && !k.empty {
        FromFacts(cmp, f, k.from, f);
        ToFacts(cmp, k.to, t, k.to);
        WiderBoundsStayNonEmpty(cmp, k.from, k.to, f, t);
      }
    }
  }

  /** The hull is the least upper bound of its operands in the subset order. */
  lemma HullIsLeastUpperBound<T(!new)>(cmp: (T, T) -> int, i: Interval<T>, j: Interval<T>, k: Interval<T>)
    requires ValidComparator(cmp)
    requires Valid(cmp, i) && Valid(cmp, j) && Valid(cmp, k)
    ensures IsSubsetOf(cmp, i, Hull(cmp, i, j))
    ensures IsSubsetOf(cmp, j, Hull(cmp, i, j))
    ensures IsSubsetOf(cmp, i, k) && IsSubsetOf(cmp, j, k) ==> IsSubsetOf(cmp, Hull(cmp, i, j), k)
  {
    SubsetIsPreorder(cmp, i, j, k);
    SubsetIsPreorder(cmp, j, i, k);
    FromFacts(cmp, i.from, j.from, i.from);
    ToFacts(cmp, i.to, j.to, i.to);
    if !i.empty && !j.empty {
      var f := if FromComparator(cmp, i.from, j.from) < 0 then i.from else j.from;
      var t := if ToComparator(cmp, i.to, j.to) < 0 then j.to else i.to;
      assert Hull(cmp, i, j) == Make(cmp, f, t);
      FromFacts(cmp, f, i.from, f);
      ToFacts(cmp, i.to, t, i.to);
      WiderBoundsStayNonEmpty(cmp, i.from, i.to, f, t);
    }
  }

  // ---------------------------------------------------------------------------
  // Commutativity and identities

  /** Intersection commutes, up to equalTo. */
  lemma IntersectionCommutes<T(!new)>(cmp: (T, T) -> int, i: Interval<T>, j: Interval<T>)
    requires ValidComparator(cmp)
    ensures EqualTo(cmp, Intersection(cmp, i, j), Intersection(cmp, j, i))
  {
    if !i.empty && !j.empty {
      FromFacts(cmp, i.from, j.from, i.from);
      ToFacts(cmp, i.to, j.to, i.to);
      var f := if FromComparator(cmp, i.from, j.from) > 0 then i.from else j.from;
      var t := if ToComparator(cmp, i.to, j.to) > 0 then j.to else i.to;
      var f2 := if FromComparator(cmp, j.from, i.from) > 0 then j.from else i.from;
      var t2 := if ToComparator(cmp, j.to, i.to) > 0 then i.to else j.to;
      FromFacts(cmp, f, f2, f);
      ToFacts(cmp, t, t2, t);
      MakeRespectsEquivalence(cmp, f, t, f2, t2);
    }
  }

  /** Hull commutes, up to equalTo. */
  lemma HullCommutes<T(!new)>(cmp: (T, T) -> int, i: Interval<T>, j: Interval<T>)
    requires ValidComparator(cmp)
    ensures EqualTo(cmp, Hull(cmp, i, j), Hull(cmp, j, i))
  {
    EqualToIsEquivalence(cmp, i, j, i);
    EqualToIsEquivalence(cmp, j, i, j);
    if !i.empty && !j.empty {
      FromFacts(cmp, i.from, j.from, i.from);
      ToFacts(cmp, i.to, j.to, i.to);
      var f := if FromComparator(cmp, i.from, j.from) < 0 then i.from else j.from;
      var t := if ToComparator(cmp, i.to, j.to) < 0 then j.to else i.to;
      var f2 := if FromComparator(cmp, j.from, i.from) < 0 then j.from else i.from;
      var t2 := if ToComparator(cmp, j.to, i.to) < 0 then i.to else j.to;
      FromFacts(cmp, f, f2, f);
      ToFacts(cmp, t, t2, t);
      MakeRespectsEquivalence(cmp, f, t, f2, t2);
    }
  }

  /** The whole line is a two-sided identity of intersection. */
  lemma WholeIsIntersectionIdentity<T>(cmp: (T, T) -> int, i: Interval<T>)
    requires Valid(cmp, i)
    ensures Intersection(cmp, i, Whole(cmp)) == i
    ensures Intersection(cmp, Whole(cmp), i) == i
  {
  }

  /** The empty interval is a two-sided identity of hull and of unify. */
  lemma EmptyIsHullIdentity<T>(cmp: (T, T) -> int, i: Interval<T>)
    requires Valid(cmp, i)
    ensures Hull(cmp, i, Empty(cmp)) == i && Hull(cmp, Empty(cmp), i) == i
    ensures Unify(cmp, i, Empty(cmp)) == i && Unify(cmp, Empty(cmp), i) == i
  {
  }

  /** Unifying the whole line with any interval gives the whole line. */
  lemma WholeAbsorbsUnify<T>(cmp: (T, T) -> int, i: Interval<T>)
    requires Valid(cmp, i)
    ensures Unify(cmp, Whole(cmp), i) == Whole(cmp)
    ensures Unify(cmp, i, Whole(cmp)) == Whole(cmp)
  {
  }

  // ---------------------------------------------------------------------------
  // Hull, contiguity and unify

  /** Every member of either operand is a member of the hull. */
  lemma HullMembers<T(!new)>(cmp: (T, T) -> int, i: Interval<T>, j: Interval<T>, x: T)
    requires ValidComparator(cmp)
    requires Valid(cmp, i) && Valid(cmp, j)
    requires Contains(cmp, i, x) || Contains(cmp, j, x)
    ensures Contains(cmp, Hull(cmp, i, j), x)
  {
    HullIsLeastUpperBound(cmp, i, j, i);
    if Contains(cmp, i, x) {
      SubsetMembers(cmp, i, Hull(cmp, i, j), x);
    } else {
      SubsetMembers(cmp, j, Hull(cmp, i, j), x);
    }
  }

  /** contiguousWith is symmetric. */
  lemma ContiguousWithSymmetric<T(!new)>(cmp: (T, T) -> int, i: Interval<T>, j: Interval<T>)
    requires ValidComparator(cmp)
    ensures ContiguousWith(cmp, i, j) <==> ContiguousWith(cmp, j, i)
  {
    IntersectionCommutes(cmp, i, j);
  }

  /** Intervals that share a member are contiguous. */
  lemma SharedMemberMeansContiguous<T(!new)>(cmp: (T, T) -> int, i: Interval<T>, j: Interval<T>, x: T)
    requires ValidComparator(cmp)
    requires Valid(cmp, i) && Valid(cmp, j)
    requires Contains(cmp, i, x) && Contains(cmp, j, x)
    ensures ContiguousWith(cmp, i, j)
  {
    IntersectionMembers(cmp, i, j, x);
  }

  /** Unify commutes, up to equalTo. */
  lemma UnifyCommutes<T(!new)>(cmp: (T, T) -> int, i: Interval<T>, j: Interval<T>)
    requires ValidComparator(cmp)
    ensures EqualTo(cmp, Unify(cmp, i, j), Unify(cmp, j, i))
  {
    ContiguousWithSymmetric(cmp, i, j);
    HullCommutes(cmp, i, j);
  }

  /**
   * A value strictly after the upper bound of i and strictly before the lower bound
   * of j shows that i and j are not contiguous.
   */
  lemma GapBreaksContiguity<T(!new)>(cmp: (T, T) -> int, i: Interval<T>, j: Interval<T>, x: T)
    requires ValidComparator(cmp)
    requires Valid(cmp, i) && Valid(cmp, j) && !i.empty && !j.empty
    requires !BelowTo(cmp, x, i.to) && !AboveFrom(cmp, x, j.from)
    ensures !ContiguousWith(cmp, i, j)
  {
    // The operands do not overlap.
    var f := if FromComparator(cmp, i.from, j.from) > 0 then i.from else j.from;
    var t := if ToComparator(cmp, i.to, j.to) > 0 then j.to else i.to;
    assert Intersection(cmp, i, j) == Make(cmp, f, t);
    FromFacts(cmp, i.from, j.from, i.from);
    ToFacts(cmp, i.to, j.to, i.to);
    if AboveFrom(cmp, x, f) {
      EarlierFromAdmitsMore(cmp, x, j.from, f);
    }
    if BelowTo(cmp, x, t) {
      LaterToAdmitsMore(cmp, x, t, i.to);
    }
    GapMeansEmpty(cmp, x, f, t);
    // The upper bound of i does not meet the lower bound of j, and the upper bound
    // of j lies strictly after the lower bound of i.
    if i.to.Finite? && j.from.Finite? {
      Facts(cmp, i.to.value, x, j.from.value);
      if i.from.Finite? && j.to.Finite? {
        Facts(cmp, i.from.value, i.to.value, x);
        Facts(cmp, x, j.from.value, j.to.value);
        Facts(cmp, i.from.value, x, j.to.value);
      }
    }
  }

  /** The unification of contiguous intervals holds exactly the members of the two. */
  lemma UnifyMembers<T(!new)>(cmp: (T, T) -> int, i: Interval<T>, j: Interval<T>, x: T)
    requires ValidComparator(cmp)
    requires Valid(cmp, i) && Valid(cmp, j)
    requires ContiguousWith(cmp, i, j)
    ensures Contains(cmp, Unify(cmp, i, j), x) <==> Contains(cmp, i, x) || Contains(cmp, j, x)
  {
    if Contains(cmp, i, x) || Contains(cmp, j, x) {
      HullMembers(cmp, i, j, x);
    } else if !i.empty && !j.empty {
      var f := if FromComparator(cmp, i.from, j.from) < 0 then i.from else j.from;
      var t := if ToComparator(cmp, i.to, j.to) < 0 then j.to else i.to;
      assert Unify(cmp, i, j) == Make(cmp, f, t);
      ContainsMeansWithin(cmp, Make(cmp, f, t), x);
      MakeMembers(cmp, x, f, t);
      ContainsMeansWithin(cmp, i, x);
      ContainsMeansWithin(cmp, j, x);
      if Within(cmp, x, f, t) {
        if AboveFrom(cmp, x, i.from) {
          GapBreaksContiguity(cmp, i, j, x);
        } else {
          ContiguousWithSymmetric(cmp, i, j);
          GapBreaksContiguity(cmp, j, i, x);
        }
      }
    }
  }

  // ---------------------------------------------------------------------------
  // Complement

  /**
   * For a non-empty interval, `before` holds the values its lower bound refuses and
   * `after` the values its upper bound refuses.
   */
  lemma ComplementMembers<T(!new)>(cmp: (T, T) -> int, i: Interval<T>, x: T)
    requires ValidComparator(cmp)
    requires Valid(cmp, i) && !i.empty
    ensures Contains(cmp, Complement(cmp, i).before, x) <==> !AboveFrom(cmp, x, i.from)
    ensures Contains(cmp, Complement(cmp, i).after, x) <==> !BelowTo(cmp, x, i.to)
  {
    var c := Complement(cmp, i);
    ContainsMeansWithin(cmp, c.before, x);
    ContainsMeansWithin(cmp, c.after, x);
    MakeMembers(cmp, x, NegInf, Adjacent(i.from));
    MakeMembers(cmp, x, Adjacent(i.to), PosInf);
    if i.from.Finite? {
      AdjacentSplits(cmp, x, i.from);
    }
    if i.to.Finite? {
      AdjacentSplits(cmp, x, i.to);
    }
  }

  /** Every value lies in exactly one of a non-empty interval, its `before` and its `after`. */
  lemma ComplementPartitions<T(!new)>(cmp: (T, T) -> int, i: Interval<T>, x: T)
    requires ValidComparator(cmp)
    requires Valid(cmp, i) && !i.empty
    ensures var c := Complement(cmp, i);
      && (Contains(cmp, i, x) || Contains(cmp, c.before, x) || Contains(cmp, c.after, x))
      && !(Contains(cmp, i, x) && Contains(cmp, c.before, x))
      && !(Contains(cmp, i, x) && Contains(cmp, c.after, x))
      && !(Contains(cmp, c.before, x) && Contains(cmp, c.after, x))
  {
    ComplementMembers(cmp, i, x);
    ContainsMeansWithin(cmp, i, x);
    if !AboveFrom(cmp, x, i.from) && !BelowTo(cmp, x, i.to) {
      GapMeansEmpty(cmp, x, i.from, i.to);
    }
  }

  /** The complement of the empty interval is the whole line twice, and of the whole line, empty twice. */
  lemma ComplementOfExtremes<T>(cmp: (T, T) -> int, i: Interval<T>)
    requires Valid(cmp, i)
    ensures i.empty ==> Complement(cmp, i) == Split(Whole(cmp), Whole(cmp))
    ensures Complement(cmp, Whole(cmp)) == Split(Empty(cmp), Empty(cmp))
  {
  }
}
