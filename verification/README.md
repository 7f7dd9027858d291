# Ordered-interval algebra, modelled in Dafny

A model of the interval family of `index.js`: intervals over any domain ordered by a
pluggable comparator, whose bounds are finite values (inclusive or exclusive) or one of
the two infinity sentinels. The model covers the endpoint order and its two tie-breaking
variants, the emptiness rule and the normalisation of every empty interval to
`[+inf, -inf]`, and the operations `equalTo`, `intersection`, `complement`,
`contiguousWith`, `unify`, `hull`, `contains`, `isSubsetOf`, `singleton` and the `empty`
and `whole` constants.

Layout:

- `comparators.dfy` (`Comparators`): the laws a comparator is assumed to obey
  (`ValidComparator`: reflexive, sign-antisymmetric, transitive; a zero result need not
  mean identical values, so sort-key comparators are included), and the default
  comparator `NaturalOrder`.
- `endpoints.dfy` (`Endpoints`): `Endpoint<T> = NegInf | PosInf | Finite(value, incl)`,
  `IncEnd`, `ExcEnd`, `Adjacent`, `CompareEndpoints`, `FromComparator`, `ToComparator`,
  and the reference meaning of a single bound (`AboveFrom`, `BelowTo`).
- `intervals.dfy` (`Intervals`): `Interval<T>` with its cached `empty` flag, the
  normalising constructor `Make`, the constructor `New` that refuses a missing endpoint,
  and every public operation. The family's comparator is the first argument of each
  operation; this stands for the factory closure.
- `interval_laws.dfy` (`IntervalLaws`): the laws. The reference meaning of an interval
  is the set of values both bounds admit (`Within`). `contains` agrees with it.
  `intersection` is conjunction. The hull covers both operands. `unify` of contiguous
  intervals is exactly their union. The complement of a non-empty interval partitions the line. `isSubsetOf`
  implies member-wise inclusion. Intersection and hull are the meet and join of the
  subset order, and `equalTo` is an equivalence that coincides with mutual inclusion.
- `natural_examples.dfy` (`NaturalExamples`): the concrete cases of the test suite over
  integers, and over records compared by subtracting a sort key.

Every law is stated for intervals that satisfy `Valid` (what the constructor guarantees:
the flag follows the emptiness rule, and empty intervals carry `[+inf, -inf]`). The
operations themselves take any interval value, as `index.js` does.

`compareEndpoints` passes the comparator's result through unchanged (`index.js:38`,
`index.js:206-211`), and the test suite's record comparator returns a raw difference
(`test.js:12-14`). The model keeps a raw `int` and uses only its sign.

The test at `test.js:796-808` is titled "(-inf,inf) unify (inf,inf) is empty", but its
body repeats the previous test with `(-inf,-inf)`. For the interval its title names, the
code returns the whole line, because `(inf,inf)` is empty and empty is the identity of
unify. `NaturalExamples.UnifyExamples` states both results.

## Model

| member | source | states |
|---|---|---|
| `Comparators.NaturalOrder` | index.js:22-24 | the default comparator is negative, zero or positive exactly when a < b, a = b or a > b |
| `Comparators.NaturalOrderIsValid` | index.js:22-24 | the default comparator satisfies the comparator laws |
| `Comparators.KeyDifferenceIsValid` | test.js:12-14 | subtracting integer sort keys gives a valid comparator |
| `Endpoints.SentinelsAreExtremes` | index.js:26-39 | -inf orders before every other endpoint and +inf after; each sentinel compares equal only to itself |
| `Endpoints.FiniteEndpointsCompareByValue` | index.js:38 | two finite endpoints compare by their values, whatever their flags |
| `Endpoints.TieBreaks` | index.js:205-221 | at equal values an inclusive lower bound sorts before an exclusive one, and an exclusive upper bound before an inclusive one |
| `Endpoints.AdjacentInvolution` | index.js:58-69 | adjacentEndpoint applied twice is the identity and keeps finiteness |
| `Endpoints.AdjacentSplits` | index.js:58-69 | a finite endpoint and its neighbour split the values: what one admits as a lower bound the other refuses as an upper bound |
| `Endpoints.EarlierFromAdmitsMore` | index.js:205-212 | a lower bound that sorts no later admits every value the other admits |
| `Endpoints.LaterToAdmitsMore` | index.js:214-221 | an upper bound that sorts no earlier admits every value the other admits |
| `Endpoints.CompareEndpointsIsValid` | index.js:26-39 | compareEndpoints is a total preorder whenever the value comparator is |
| `Endpoints.FromComparatorIsValid` | index.js:205-212 | fromComparator is a total preorder whenever the value comparator is |
| `Endpoints.ToComparatorIsValid` | index.js:214-221 | toComparator is a total preorder whenever the value comparator is |
| `Intervals.Make` | index.js:2-16 | the constructor yields a normalised interval whose flag follows the emptiness rule; a non-empty interval keeps its bounds |
| `Intervals.New` | index.js:3-5 | construction fails exactly when an endpoint is missing; otherwise it yields a normalised interval |
| `Intervals.Empty` | index.js:262-265 | the shared empty constant is empty and normalised |
| `Intervals.Whole` | index.js:267-270 | the shared whole constant is the non-empty interval from -inf to +inf |
| `Intervals.Singleton` | index.js:255-260 | [v,v] is non-empty exactly when v compares no later than itself, and then has both bounds inclusive at v |
| `Intervals.Intersection` | index.js:99-116 | the result is normalised, and empty when either operand is |
| `Intervals.Complement` | index.js:118-129 | both halves are normalised intervals |
| `Intervals.Hull` | index.js:164-185 | an empty operand yields the other operand unchanged; valid operands give a valid result |
| `Intervals.Unify` | index.js:156-162 | non-contiguous operands give the empty interval; valid operands give a valid result |
| `IntervalLaws.EmptyBoundsAdmitNothing` | index.js:238-249 | bounds the emptiness rule calls empty admit no value |
| `IntervalLaws.GapMeansEmpty` | index.js:238-249 | if a value is refused by a lower bound and by an upper bound, those two bounds are empty by the rule |
| `IntervalLaws.MakeMembers` | index.js:6-15 | normalisation keeps exactly the values the supplied bounds admit |
| `IntervalLaws.DegenerateIntervals` | index.js:238-249 | [a,a), (a,a] and (a,a) are empty and [a,a] is not |
| `IntervalLaws.ReversedBoundsAreEmpty` | index.js:10-15 | bounds given in the wrong order build the canonical empty interval |
| `IntervalLaws.EmptiesAreIdentical` | index.js:10-15 | every valid empty interval is structurally the shared empty constant |
| `IntervalLaws.PinchedAtPoint` | index.js:187-192 | non-empty bounds squeezed between [x and x] admit x |
| `IntervalLaws.ContainsMeansWithin` | index.js:187-192 | contains, decided through the singleton, holds exactly when both bounds admit the value |
| `IntervalLaws.ContainsExtremes` | index.js:187-192 | the empty interval contains nothing and the whole line contains every value |
| `IntervalLaws.ContainsAtBounds` | index.js:187-192 | a finite bound value is a member exactly when that bound is inclusive |
| `IntervalLaws.IntersectionMembers` | index.js:99-116 | a value is in the intersection exactly when it is in both operands |
| `IntervalLaws.EqualToIsEquivalence` | index.js:86-97 | equalTo is reflexive, symmetric and transitive |
| `IntervalLaws.EqualToAndEmptiness` | index.js:86-92 | two empty intervals are equal; an empty and a non-empty one never are |
| `IntervalLaws.EqualToIsMutualSubset` | index.js:86-97 | equalTo holds exactly when each interval is a subset of the other |
| `IntervalLaws.SubsetMembers` | index.js:194-199 | every member of a subset is a member of the superset |
| `IntervalLaws.EqualToSameMembers` | index.js:86-97 | equal intervals have the same members |
| `IntervalLaws.EmptyIsSubsetOfAll` | index.js:194-199 | the empty interval is a subset of every interval, itself included |
| `IntervalLaws.SubsetOfEmpty` | index.js:194-199 | an interval is a subset of empty exactly when it is empty |
| `IntervalLaws.SubsetIsPreorder` | index.js:194-199 | isSubsetOf is reflexive and transitive |
| `IntervalLaws.WiderBoundsStayNonEmpty` | index.js:238-249 | widening the bounds of a non-empty interval keeps it non-empty |
| `IntervalLaws.MakeRespectsEquivalence` | index.js:205-221 | bounds equivalent under the directional comparators build equal intervals |
| `IntervalLaws.IntersectionIsGreatestLowerBound` | index.js:99-116 | the intersection is a subset of each operand and contains every common subset |
| `IntervalLaws.HullIsLeastUpperBound` | index.js:164-185 | each operand is a subset of the hull, and the hull is a subset of every common superset |
| `IntervalLaws.IntersectionCommutes` | index.js:99-116 | intersection commutes up to equalTo |
| `IntervalLaws.HullCommutes` | index.js:164-185 | hull commutes up to equalTo |
| `IntervalLaws.WholeIsIntersectionIdentity` | index.js:99-116 | intersecting with the whole line, on either side, returns the interval itself |
| `IntervalLaws.EmptyIsHullIdentity` | index.js:156-185 | hull and unify with the empty interval, on either side, return the interval itself |
| `IntervalLaws.WholeAbsorbsUnify` | index.js:156-185 | unify of the whole line with any interval, on either side, is the whole line |
| `IntervalLaws.HullMembers` | index.js:164-185 | every member of either operand is a member of the hull |
| `IntervalLaws.ContiguousWithSymmetric` | index.js:131-154 | contiguousWith is symmetric |
| `IntervalLaws.SharedMemberMeansContiguous` | index.js:131-154 | intervals with a common member are contiguous |
| `IntervalLaws.UnifyCommutes` | index.js:156-162 | unify commutes up to equalTo |
| `IntervalLaws.GapBreaksContiguity` | index.js:131-154 | a value strictly after one interval and strictly before the other shows they are not contiguous |
| `IntervalLaws.UnifyMembers` | index.js:156-162 | the unify of contiguous intervals holds exactly the members of the two operands |
| `IntervalLaws.ComplementMembers` | index.js:118-129 | for a non-empty interval, before holds the values its lower bound refuses and after the values its upper bound refuses |
| `IntervalLaws.ComplementPartitions` | index.js:118-129 | every value lies in exactly one of a non-empty interval, its before and its after |
| `IntervalLaws.ComplementOfExtremes` | index.js:118-129 | the complement of empty is (whole, whole), and of whole is (empty, empty) |
| `NaturalExamples.EmptinessExamples` | test.js:27-128 | [1,1), (1,1], (1,1) and [2,1] are empty; [1,1] is not; (2,1) equals empty |
| `NaturalExamples.IntersectionExamples` | test.js:164-298 | the intersections of the test suite over closed and open bounds, including [1,2] with (1,2) giving (1,2) |
| `NaturalExamples.UnifyExamples` | test.js:306-457 | the unifications of the test suite, including [1,2) with [2,3] and [1,2] with (2,3] giving [1,3], and disjoint operands giving empty |
| `NaturalExamples.ContainsExamples` | test.js:546-590 | exclusive bound values are not members, inclusive ones are |
| `NaturalExamples.SubsetExamples` | test.js:596-707 | the subset cases of the test suite, including [1,2] not a subset of (1,2] or [1,2) |
| `NaturalExamples.ComplementExamples` | test.js:832-944 | the complements of [1,200], (1,200], [1,200), (1,200), [1,inf) and (-inf,200] as the test suite gives them, e.g. [1,200] gives ([-inf,1), (200,inf]) |
| `NaturalExamples.ChirpExamples` | test.js:463-540 | the record comparator is valid; [23875,1] is empty; equality and unify with empty behave as over integers |

## Left out

- `toString` (index.js:223-236): it renders domain values through the host language's text conversion. Its ` (empty)` suffix is unreachable, because an empty interval returns `{}` first.
- The `-Infinity`/`Infinity` number fields of the sentinels: only `toString` reads them, so the sentinels are value-less constructors.
- The identity test `a === b` of `compareEndpoints` is kept for the sentinels. Finite endpoints always go to the value comparator. For one and the same finite endpoint object `index.js` returns 0 without calling it; the model returns `cmp(v, v)`, which is 0 under the comparator laws.
- The factory closure and prototype machinery: the comparator is an explicit argument of every operation. Mixing intervals of different families is not modelled.
- Validation of the comparator: `index.js` never checks it. The laws take `ValidComparator` as a hypothesis; the operations accept any comparator.
- NaturalOrder: models the default comparator on integers only. On doubles and strings `index.js:22-24` applies the same formula; with NaN it compares 0 against everything, which is not a valid comparator, so the laws do not cover it.
- Membership tests with values of another type (`contains('cake')`, `contains(undefined)`): they rely on mixed-type comparison in the host language. The model has one value type per family.
- A missing endpoint is modelled by `New` over `Option` endpoints; `Make` is the constructor once both are present.
- Member-wise inclusion does not imply `isSubsetOf`, nor does an empty member set imply emptiness by the rule. Both fail over a discrete domain, for example `(1,2)` over the integers. Only the forward directions are stated.
