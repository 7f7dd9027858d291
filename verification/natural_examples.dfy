/**
 * Worked instances of the laws over integers with the default comparator, and over
 * records ordered by an integer sort key.
 */
module NaturalExamples {
  import opened Comparators
  import opened Endpoints
  import opened Intervals
  import opened IntervalLaws

  function Closed(a: int, b: int): Interval<int> {
    Make(NaturalOrder, IncEnd(a), IncEnd(b))
  }

  function Open(a: int, b: int): Interval<int> {
    Make(NaturalOrder, ExcEnd(a), ExcEnd(b))
  }

  lemma EmptinessExamples()
    ensures Make(NaturalOrder, IncEnd(1), ExcEnd(1)).empty
    ensures Make(NaturalOrder, ExcEnd(1), IncEnd(1)).empty
    ensures Open(1, 1).empty
    ensures Closed(2, 1) == Empty(NaturalOrder)
    ensures !Singleton(NaturalOrder, 1).empty
    ensures EqualTo(NaturalOrder, Open(2, 1), Empty(NaturalOrder))
  {
  }

  lemma IntersectionExamples()
    ensures Intersection(NaturalOrder, Closed(1, 4), Closed(2, 3)) == Closed(2, 3)
    ensures Intersection(NaturalOrder, Closed(1, 3), Closed(2, 4)) == Closed(2, 3)
    ensures Intersection(NaturalOrder, Closed(1, 2), Closed(3, 4)).empty
    ensures Intersection(NaturalOrder, Open(1, 4), Open(2, 3)) == Open(2, 3)
    ensures Intersection(NaturalOrder, Open(1, 3), Open(2, 4)) == Open(2, 3)
    ensures Intersection(NaturalOrder, Open(1, 2), Open(3, 4)).empty
    ensures Intersection(NaturalOrder, Closed(1, 2), Open(1, 2)) == Open(1, 2)
    ensures Intersection(NaturalOrder, Closed(1, 2), Empty(NaturalOrder)).empty
  {
  }

  lemma UnifyExamples()
    ensures Unify(NaturalOrder, Closed(1, 4), Closed(2, 3)) == Closed(1, 4)
    ensures Unify(NaturalOrder, Closed(1, 3), Closed(2, 4)) == Closed(1, 4)
    ensures Unify(NaturalOrder, Open(1, 4), Open(2, 3)) == Open(1, 4)
    ensures Unify(NaturalOrder, Open(1, 3), Open(2, 4)) == Open(1, 4)
    ensures Unify(NaturalOrder, Closed(1, 2), Make(NaturalOrder, ExcEnd(2), IncEnd(3))) == Closed(1, 3)
    ensures Unify(NaturalOrder, Make(NaturalOrder, IncEnd(1), ExcEnd(2)), Closed(2, 3)) == Closed(1, 3)
    ensures Unify(NaturalOrder, Closed(1, 2), Closed(3, 4)).empty
    ensures Unify(NaturalOrder, Open(1, 2), Open(2, 3)).empty
    ensures Unify(NaturalOrder, Empty(NaturalOrder), Empty(NaturalOrder)).empty
    ensures Unify(NaturalOrder, Make(NaturalOrder, NegInf, NegInf), Make(NaturalOrder, PosInf, PosInf)).empty
    ensures Unify(NaturalOrder, Whole(NaturalOrder), Make(NaturalOrder, PosInf, PosInf)) == Whole(NaturalOrder)
  {
  }

  lemma ContainsExamples()
    ensures Contains(NaturalOrder, Closed(0, 2), 0) && Contains(NaturalOrder, Closed(0, 2), 2)
    ensures !Contains(NaturalOrder, Make(NaturalOrder, ExcEnd(0), IncEnd(2)), 0)
    ensures !Contains(NaturalOrder, Make(NaturalOrder, IncEnd(0), ExcEnd(2)), 2)
    ensures Contains(NaturalOrder, Open(0, 2), 1) && !Contains(NaturalOrder, Open(0, 2), 2)
    ensures Contains(NaturalOrder, Make(NaturalOrder, NegInf, IncEnd(1)), 1)
    ensures Contains(NaturalOrder, Make(NaturalOrder, IncEnd(1), PosInf), 1)
  {
  }

  lemma SubsetExamples()
    ensures IsSubsetOf(NaturalOrder, Closed(1, 2), Closed(0, 4))
    ensures IsSubsetOf(NaturalOrder, Closed(1, 2), Open(0, 4))
    ensures !IsSubsetOf(NaturalOrder, Closed(0, 4), Closed(1, 2))
    ensures IsSubsetOf(NaturalOrder, Make(NaturalOrder, ExcEnd(1), IncEnd(2)), Closed(1, 2))
    ensures IsSubsetOf(NaturalOrder, Make(NaturalOrder, IncEnd(1), ExcEnd(2)), Closed(1, 2))
    ensures !IsSubsetOf(NaturalOrder, Closed(1, 2), Make(NaturalOrder, ExcEnd(1), IncEnd(2)))
    ensures !IsSubsetOf(NaturalOrder, Closed(1, 2), Make(NaturalOrder, IncEnd(1), ExcEnd(2)))
  {
  }

  lemma ComplementExamples()
    ensures Complement(NaturalOrder, Closed(1, 200))
      == Split(Make(NaturalOrder, NegInf, ExcEnd(1)), Make(NaturalOrder, ExcEnd(200), PosInf))
    ensures Complement(NaturalOrder, Make(NaturalOrder, ExcEnd(1), IncEnd(200)))
      == Split(Make(NaturalOrder, NegInf, IncEnd(1)), Make(NaturalOrder, ExcEnd(200), PosInf))
    ensures Complement(NaturalOrder, Make(NaturalOrder, IncEnd(1), ExcEnd(200)))
      == Split(Make(NaturalOrder, NegInf, ExcEnd(1)), Make(NaturalOrder, IncEnd(200), PosInf))
    ensures Complement(NaturalOrder, Open(1, 200))
      == Split(Make(NaturalOrder, NegInf, IncEnd(1)), Make(NaturalOrder, IncEnd(200), PosInf))
    ensures Complement(NaturalOrder, Make(NaturalOrder, IncEnd(1), PosInf))
      == Split(Make(NaturalOrder, NegInf, ExcEnd(1)), Empty(NaturalOrder))
    ensures Complement(NaturalOrder, Make(NaturalOrder, NegInf, IncEnd(200)))
      == Split(Empty(NaturalOrder), Make(NaturalOrder, ExcEnd(200), PosInf))
  {
  }

  /** A record carrying an integer sort key, compared by subtracting the keys. */
  datatype Chirp = Chirp(sortIndex: int)

  function CompareChirps(a: Chirp, b: Chirp): int {
    a.sortIndex - b.sortIndex
  }

  lemma ChirpExamples()
    ensures ValidComparator(CompareChirps)
    ensures Make(CompareChirps, IncEnd(Chirp(23875)), IncEnd(Chirp(1))).empty
    ensures EqualTo(CompareChirps,
      Make(CompareChirps, IncEnd(Chirp(1)), IncEnd(Chirp(2))),
      Make(CompareChirps, IncEnd(Chirp(1)), IncEnd(Chirp(2))))
    ensures Unify(CompareChirps, Make(CompareChirps, ExcEnd(Chirp(1)), ExcEnd(Chirp(2))), Empty(CompareChirps))
      == Make(CompareChirps, ExcEnd(Chirp(1)), ExcEnd(Chirp(2)))
  {
    forall a: Chirp, b: Chirp
      ensures CompareChirps(a, a) == 0
      ensures CompareChirps(a, b) < 0 <==> CompareChirps(b, a) > 0
    {
    }
  }
}
