/**
 * The value-level meaning of an SEH1 distribution: its bucket weights and
 * running statistics as a datatype, the effect of adding an entry and of
 * merging two distributions as functions on it, and the invariants and
 * algebraic laws of those functions.
 */
module Seh1Stats {
  import opened Seh1Codec

  /** The largest finite float64 (Go's math.MaxFloat64). */
  const MaxFloat64: real := 179769313486231570814527423731704356798070567525844996598917476803157260780028538760589558632766878171540458953514382464234321326889464182768467546703537516986049910576551282076245490090389328944075868508455133942304583236903222948165808559332123348274797826204144723168738177180919299881250404026184124858368.0

  /** A value an entry may carry: a positive, finite float64. */
  predicate IsSampleValue(v: real)
  {
    0.0 < v <= MaxFloat64
  }

  function Min(a: real, b: real): real
  {
    if b < a then b else a
  }

  function Max(a: real, b: real): real
  {
    if b > a then b else a
  }

  /**
   * The state of one distribution: bucket index to accumulated weight, the
   * total of value * weight, the total weight, the smallest and largest raw
   * value seen, and the unit label ("" when unset).
   */
  datatype Stats = Stats(
    buckets: map<int, real>,
    sum: real,
    sampleCount: real,
    minimum: real,
    maximum: real,
    unit: string)

  /**
   * A fresh distribution. Its minimum and maximum are sentinels: every sample
   * value is at most MaxFloat64 and above 0, so the first entry replaces both.
   */
  function Empty(): (r: Stats)
    ensures !Occupied(r.buckets) && r.sampleCount == 0.0 && r.sum == 0.0 && r.unit == ""
    ensures forall v :: IsSampleValue(v) ==> v <= r.minimum && r.maximum < v
  {
    Stats(map[], 0.0, 0.0, MaxFloat64, 0.0, "")
  }

  /** The weight of bucket i; an absent bucket weighs 0. */
  function Weight(m: map<int, real>, i: int): real
  {
    if i in m then m[i] else 0.0
  }

  /** Bucket i's weight increased by w (the source's `buckets[i] += w`). */
  function AddWeight(m: map<int, real>, i: int, w: real): (r: map<int, real>)
    ensures r.Keys == m.Keys + {i}
    ensures Weight(r, i) == Weight(m, i) + w
    ensures forall j :: j != i ==> Weight(r, j) == Weight(m, j)
  {
    m[i := Weight(m, i) + w]
  }

  /** The bucket maps of two distributions added index by index. */
  function MergeBuckets(a: map<int, real>, b: map<int, real>): (r: map<int, real>)
    ensures r.Keys == a.Keys + b.Keys
    ensures forall i :: Weight(r, i) == Weight(a, i) + Weight(b, i)
  {
    map i | i in a.Keys + b.Keys :: Weight(a, i) + Weight(b, i)
  }

  /** The effect of AddEntry(value, count): one observation of value, repeated count times. */
  function WithEntry(s: Stats, value: real, count: real): (t: Stats)
    requires IsSampleValue(value) && count > 0.0
    ensures BucketOf(value) in t.buckets && Weight(t.buckets, BucketOf(value)) == Weight(s.buckets, BucketOf(value)) + count
    ensures t.sampleCount > s.sampleCount && t.sum > s.sum
    ensures t.minimum <= value <= t.maximum && t.minimum <= s.minimum && s.maximum <= t.maximum
    ensures (t.minimum == s.minimum || t.minimum == value) && (t.maximum == s.maximum || t.maximum == value)
    ensures t.unit == s.unit
  {
    s.(buckets := AddWeight(s.buckets, BucketOf(value), count),
       sum := s.sum + value * count,
       sampleCount := s.sampleCount + count,
       minimum := Min(s.minimum, value),
       maximum := Max(s.maximum, value))
  }

  /** The effect of AddEntryWithUnit(value, count, unit): the entry, and the unit label set to unit. */
  function WithEntryAndUnit(s: Stats, value: real, count: real, unit: string): (t: Stats)
    requires IsSampleValue(value) && count > 0.0
    ensures t.unit == unit
    ensures t.buckets == WithEntry(s, value, count).buckets && t.sum == WithEntry(s, value, count).sum
    ensures t.sampleCount == WithEntry(s, value, count).sampleCount
    ensures t.minimum == WithEntry(s, value, count).minimum && t.maximum == WithEntry(s, value, count).maximum
  {
    WithEntry(s, value, count).(unit := unit)
  }

  /**
   * The unit after a merge: an unset receiver unit adopts the other's. When
   * both are set and differ the receiver's is kept.
   */
  function MergedUnit(receiver: string, other: string): (r: string)
    ensures receiver != "" ==> r == receiver
    ensures receiver == "" ==> r == other
    ensures r == "" <==> receiver == "" && other == ""
  {
    if receiver == "" then other else receiver
  }

  /** The effect of a.AddDistribution(b) on a. */
  function Merge(a: Stats, b: Stats): (r: Stats)
    ensures r.buckets.Keys == a.buckets.Keys + b.buckets.Keys
    ensures forall i :: Weight(r.buckets, i) == Weight(a.buckets, i) + Weight(b.buckets, i)
    ensures r.minimum <= a.minimum && r.minimum <= b.minimum && (r.minimum == a.minimum || r.minimum == b.minimum)
    ensures a.maximum <= r.maximum && b.maximum <= r.maximum && (r.maximum == a.maximum || r.maximum == b.maximum)
  {
    Stats(
      MergeBuckets(a.buckets, b.buckets),
      a.sum + b.sum,
      a.sampleCount + b.sampleCount,
      Min(a.minimum, b.minimum),
      Max(a.maximum, b.maximum),
      MergedUnit(a.unit, b.unit))
  }

  // ---------------------------------------------------------------------------
  // Total weight of a bucket map

  /** The map has at least one bucket. */
  predicate Occupied(m: map<int, real>)
  {
    exists i :: i in m
  }

  lemma NotOccupiedIsEmpty(m: map<int, real>)
    ensures !Occupied(m) <==> m == map[]
  {
    if !Occupied(m) {
      assert forall i :: i !in m;
      assert m.Keys == {};
    }
  }

  /** Two bucket maps with the same buckets and the same weights are equal. */
  lemma SameWeights(x: map<int, real>, y: map<int, real>)
    requires forall i :: i in x <==> i in y
    requires forall i :: Weight(x, i) == Weight(y, i)
    ensures x == y
  {
    assert forall i :: i in x.Keys <==> i in y.Keys;
    assert x.Keys == y.Keys;
    forall i | i in x
      ensures x[i] == y[i]
    {
      assert Weight(x, i) == Weight(y, i);
    }
  }

  /** The sum of all bucket weights. */
  ghost function TotalWeight(m: map<int, real>): real
    decreases |m|
  {
    if Occupied(m) then
      var i :| i in m;
      m[i] + TotalWeight(m - {i})
    else 0.0
  }

  /** Any bucket can be taken out first when adding up the weights. */
  lemma {:induction false} TotalWeightPick(m: map<int, real>, k: int)
    requires k in m
    ensures TotalWeight(m) == m[k] + TotalWeight(m - {k})
    decreases |m|
  {
    var i :| i in m && TotalWeight(m) == m[i] + TotalWeight(m - {i});
    if i != k {
      TotalWeightPick(m - {i}, k);
      TotalWeightPick(m - {k}, i);
      assert m - {i} - {k} == m - {k} - {i};
    }
  }

  lemma TotalWeightAddWeight(m: map<int, real>, i: int, w: real)
    ensures TotalWeight(AddWeight(m, i, w)) == TotalWeight(m) + w
  {
    var r := AddWeight(m, i, w);
    TotalWeightPick(r, i);
    if i in m {
      TotalWeightPick(m, i);
      assert r - {i} == m - {i};
    } else {
      assert r - {i} == m;
    }
  }

  lemma MergeBucketsIntoNothing(a: map<int, real>, b: map<int, real>)
    requires !Occupied(a)
    ensures MergeBuckets(a, b) == b
  {
    assert forall i :: i !in a;
    SameWeights(MergeBuckets(a, b), b);
  }

  lemma MergeBucketsSplit(a: map<int, real>, b: map<int, real>, k: int)
    requires k in a
    ensures MergeBuckets(a, b) == AddWeight(MergeBuckets(a - {k}, b), k, a[k])
  {
    var rest := MergeBuckets(a - {k}, b);
    forall i
      ensures Weight(MergeBuckets(a, b), i) == Weight(AddWeight(rest, k, a[k]), i)
    {
      if i == k {
        assert Weight(a - {k}, i) == 0.0;
      } else {
        assert Weight(a - {k}, i) == Weight(a, i);
      }
    }
    SameWeights(MergeBuckets(a, b), AddWeight(rest, k, a[k]));
  }

  /** Merging adds the total weights. */
  lemma {:induction false} TotalWeightMerge(a: map<int, real>, b: map<int, real>)
    ensures TotalWeight(MergeBuckets(a, b)) == TotalWeight(a) + TotalWeight(b)
    decreases |a|
  {
    if Occupied(a) {
      var k :| k in a;
      TotalWeightPick(a, k);
      TotalWeightMerge(a - {k}, b);
      MergeBucketsSplit(a, b, k);
      TotalWeightAddWeight(MergeBuckets(a - {k}, b), k, a[k]);
    } else {
      MergeBucketsIntoNothing(a, b);
    }
  }

  /** With positive weights the total is zero exactly when there are no buckets. */
  lemma {:induction false} TotalWeightPositive(m: map<int, real>)
    requires forall i :: i in m ==> m[i] > 0.0
    ensures !Occupied(m) ==> TotalWeight(m) == 0.0
    ensures Occupied(m) ==> TotalWeight(m) > 0.0
    decreases |m|
  {
    if Occupied(m) {
      var k :| k in m;
      TotalWeightPick(m, k);
      TotalWeightPositive(m - {k});
    }
  }

  // ---------------------------------------------------------------------------
  // The invariant every reachable distribution satisfies

  /** The extreme values seen are sample values, in order. */
  ghost predicate ExtremesValid(s: Stats)
  {
    IsSampleValue(s.minimum) && IsSampleValue(s.maximum) && s.minimum <= s.maximum
  }

  /** The buckets of the extreme values are occupied and bracket every occupied bucket. */
  ghost predicate BucketsBracketed(s: Stats)
    requires ExtremesValid(s)
  {
    && BucketOf(s.minimum) in s.buckets
    && BucketOf(s.maximum) in s.buckets
    && (forall i :: i in s.buckets ==> BucketOf(s.minimum) <= i <= BucketOf(s.maximum))
  }

  /** Facts that hold once a distribution holds at least one entry. */
  ghost predicate Populated(s: Stats)
  {
    ExtremesValid(s) && BucketsBracketed(s)
  }

  /**
   * Every bucket has positive weight, the sample count is the total bucket
   * weight, an empty distribution has its sentinels and a zero sum, and a
   * populated one has its extreme values in its extreme buckets.
   */
  ghost predicate Consistent(s: Stats)
  {
    && (forall i :: i in s.buckets ==> s.buckets[i] > 0.0)
    && s.sampleCount == TotalWeight(s.buckets)
    && (!Occupied(s.buckets) ==> s.sum == 0.0 && s.minimum == MaxFloat64 && s.maximum == 0.0)
    && (Occupied(s.buckets) ==> Populated(s))
  }

  /** In a consistent state the sample count is 0 exactly when there are no buckets, and positive otherwise. */
  lemma CountZeroIffEmpty(s: Stats)
    ensures Consistent(s) ==> s.sampleCount >= 0.0 && (s.sampleCount == 0.0 <==> !Occupied(s.buckets))
  {
    if Consistent(s) {
      TotalWeightPositive(s.buckets);
    }
  }

  lemma EmptyConsistent()
    ensures Consistent(Empty())
  {
  }

  /** The first entry of an empty distribution populates it. */
  lemma FirstEntryPopulates(s: Stats, value: real, count: real)
    requires Consistent(s) && !Occupied(s.buckets)
    requires IsSampleValue(value) && count > 0.0
    ensures Populated(WithEntry(s, value, count))
  {
    var t := WithEntry(s, value, count);
    assert t.minimum == value && t.maximum == value;
    assert ExtremesValid(t);
    assert forall i :: i in t.buckets ==> i == BucketOf(value);
  }

  /** A further entry keeps a populated distribution populated. */
  lemma NextEntryKeepsPopulated(s: Stats, value: real, count: real)
    requires Consistent(s) && Occupied(s.buckets)
    requires IsSampleValue(value) && count > 0.0
    ensures Populated(WithEntry(s, value, count))
  {
    var t := WithEntry(s, value, count);
    BucketOfMonotone(t.minimum, s.minimum);
    BucketOfMonotone(t.minimum, value);
    BucketOfMonotone(s.maximum, t.maximum);
    BucketOfMonotone(value, t.maximum);
    TotalWeightAddWeight(s.buckets, BucketOf(value), count);
    TotalWeightPositive(s.buckets);
  }

  /** Adding an entry keeps a distribution consistent. */
  lemma WithEntryConsistent(s: Stats, value: real, count: real)
    requires Consistent(s) && IsSampleValue(value) && count > 0.0
    ensures Consistent(WithEntry(s, value, count))
  {
    TotalWeightAddWeight(s.buckets, BucketOf(value), count);
    if !Occupied(s.buckets) {
      FirstEntryPopulates(s, value, count);
    } else {
      NextEntryKeepsPopulated(s, value, count);
    }
  }

  /** Merging keeps a distribution consistent. */
  lemma MergeConsistent(a: Stats, b: Stats)
    requires Consistent(a) && Consistent(b)
    ensures Consistent(Merge(a, b))
  {
    var m := Merge(a, b);
    TotalWeightMerge(a.buckets, b.buckets);
    TotalWeightPositive(a.buckets);
    TotalWeightPositive(b.buckets);
    if !Occupied(a.buckets) {
      assert m.buckets == b.buckets;
    } else if !Occupied(b.buckets) {
      assert m.buckets == a.buckets;
    } else {
      BucketOfMonotone(m.minimum, a.minimum);
      BucketOfMonotone(m.minimum, b.minimum);
      BucketOfMonotone(a.maximum, m.maximum);
      BucketOfMonotone(b.maximum, m.maximum);
    }
  }

  // ---------------------------------------------------------------------------
  // Laws of merging

  /** Units that a merge in either direction resolves the same way. */
  predicate CompatibleUnits(u: string, v: string)
  {
    u == "" || v == "" || u == v
  }

  /** The direction of a merge does not matter (for units that do not conflict). */
  lemma MergeCommutative(a: Stats, b: Stats)
    requires CompatibleUnits(a.unit, b.unit)
    ensures Merge(a, b) == Merge(b, a)
  {
    assert MergeBuckets(a.buckets, b.buckets) == MergeBuckets(b.buckets, a.buckets);
  }

  /** Merges can be grouped either way. */
  lemma MergeAssociative(a: Stats, b: Stats, c: Stats)
    ensures Merge(Merge(a, b), c) == Merge(a, Merge(b, c))
  {
    assert MergeBuckets(MergeBuckets(a.buckets, b.buckets), c.buckets)
        == MergeBuckets(a.buckets, MergeBuckets(b.buckets, c.buckets));
  }

  /** Merging with an empty distribution, on either side, changes nothing. */
  lemma MergeEmpty(s: Stats)
    requires Consistent(s)
    ensures Merge(s, Empty()) == s
    ensures Merge(Empty(), s) == s
  {
    assert MergeBuckets(s.buckets, map[]) == s.buckets;
    assert MergeBuckets(map[], s.buckets) == s.buckets;
  }

  /** Once set, a unit is never cleared by a merge; an unset one adopts the other's. */
  lemma MergeUnitNeverCleared(a: Stats, b: Stats)
    ensures a.unit != "" ==> Merge(a, b).unit == a.unit
    ensures a.unit == "" ==> Merge(a, b).unit == b.unit
    ensures Merge(a, b).unit == "" <==> a.unit == "" && b.unit == ""
  {
  }

  /** Adding an entry is merging in a distribution that holds just that entry. */
  lemma EntryIsSingletonMerge(s: Stats, value: real, count: real)
    requires IsSampleValue(value) && count > 0.0
    ensures WithEntry(s, value, count) == Merge(s, WithEntry(Empty(), value, count))
  {
    assert AddWeight(s.buckets, BucketOf(value), count)
        == MergeBuckets(s.buckets, map[BucketOf(value) := count]);
  }

  /** The order in which two entries arrive does not matter. */
  lemma EntriesCommute(s: Stats, v1: real, c1: real, v2: real, c2: real)
    requires IsSampleValue(v1) && c1 > 0.0 && IsSampleValue(v2) && c2 > 0.0
    ensures WithEntry(WithEntry(s, v1, c1), v2, c2) == WithEntry(WithEntry(s, v2, c2), v1, c1)
  {
    var i, j := BucketOf(v1), BucketOf(v2);
    assert AddWeight(AddWeight(s.buckets, i, c1), j, c2) == AddWeight(AddWeight(s.buckets, j, c2), i, c1);
  }

  // ---------------------------------------------------------------------------
  // A stream of entries

  /** One AddEntry call: a value and its repeat weight. */
  datatype Entry = Entry(value: real, count: real)

  predicate ValidEntries(es: seq<Entry>)
  {
    forall k :: 0 <= k < |es| ==> IsSampleValue(es[k].value) && es[k].count > 0.0
  }

  /** The state after AddEntry is called with each entry of es in turn. */
  function Replay(s: Stats, es: seq<Entry>): Stats
    requires ValidEntries(es)
    decreases |es|
  {
    if es == [] then s
    else
      var last := es[|es| - 1];
      WithEntry(Replay(s, es[..|es| - 1]), last.value, last.count)
  }

  /** The total of the weights of es. */
  function TotalCount(es: seq<Entry>): real
  {
    if es == [] then 0.0 else TotalCount(es[..|es| - 1]) + es[|es| - 1].count
  }

  /** The total of value * weight over es. */
  function TotalMass(es: seq<Entry>): real
  {
    if es == [] then 0.0 else TotalMass(es[..|es| - 1]) + es[|es| - 1].value * es[|es| - 1].count
  }

  /** The total weight of the entries of es whose value falls into bucket i. */
  function BucketCount(es: seq<Entry>, i: int): real
    requires ValidEntries(es)
  {
    if es == [] then 0.0
    else
      var last := es[|es| - 1];
      BucketCount(es[..|es| - 1], i) + (if BucketOf(last.value) == i then last.count else 0.0)
  }

  /**
   * Conservation: the sample count grows by the total weight, the sum by the
   * total of value * weight, each bucket by the weight of the entries that
   * fall into it, and AddEntry never touches the unit.
   */
  lemma {:induction false} Conservation(s: Stats, es: seq<Entry>)
    requires ValidEntries(es)
    ensures Replay(s, es).sampleCount == s.sampleCount + TotalCount(es)
    ensures Replay(s, es).sum == s.sum + TotalMass(es)
    ensures forall i :: Weight(Replay(s, es).buckets, i) == Weight(s.buckets, i) + BucketCount(es, i)
    ensures Replay(s, es).unit == s.unit
    decreases |es|
  {
    if es != [] {
      Conservation(s, es[..|es| - 1]);
    }
  }

  /**
   * The extremes of a stream: every value added lies between the minimum and
   * the maximum, which only move outward, and each is either the starting
   * one or one of the values added.
   */
  lemma {:induction false} StreamExtremes(s: Stats, es: seq<Entry>)
    requires ValidEntries(es)
    ensures forall k :: 0 <= k < |es| ==> Replay(s, es).minimum <= es[k].value <= Replay(s, es).maximum
    ensures Replay(s, es).minimum <= s.minimum && s.maximum <= Replay(s, es).maximum
    ensures Replay(s, es).minimum == s.minimum || exists k :: 0 <= k < |es| && Replay(s, es).minimum == es[k].value
    ensures Replay(s, es).maximum == s.maximum || exists k :: 0 <= k < |es| && Replay(s, es).maximum == es[k].value
    decreases |es|
  {
    if es != [] {
      var init, n := es[..|es| - 1], |es| - 1;
      StreamExtremes(s, init);
      forall k | 0 <= k < n
        ensures Replay(s, es).minimum <= es[k].value <= Replay(s, es).maximum
      {
        assert init[k] == es[k];
      }
      if Replay(s, es).minimum != s.minimum && Replay(s, es).minimum != es[n].value {
        var k :| 0 <= k < n && Replay(s, init).minimum == init[k].value;
        assert Replay(s, es).minimum == es[k].value;
      }
      if Replay(s, es).maximum != s.maximum && Replay(s, es).maximum != es[n].value {
        var k :| 0 <= k < n && Replay(s, init).maximum == init[k].value;
        assert Replay(s, es).maximum == es[k].value;
      }
    }
  }

  /**
   * Starting from a new distribution, the minimum and the maximum are the
   * smallest and the largest value added.
   */
  lemma EntriesExtremes(es: seq<Entry>)
    requires ValidEntries(es) && es != []
    ensures forall k :: 0 <= k < |es| ==> Replay(Empty(), es).minimum <= es[k].value <= Replay(Empty(), es).maximum
    ensures exists k :: 0 <= k < |es| && Replay(Empty(), es).minimum == es[k].value
    ensures exists k :: 0 <= k < |es| && Replay(Empty(), es).maximum == es[k].value
  {
    StreamExtremes(Empty(), es);
    var t := Replay(Empty(), es);
    if t.minimum == MaxFloat64 {
      assert t.minimum == es[0].value;
    }
  }

  /** A distribution built from AddEntry calls alone reports an unset unit. */
  lemma EntriesLeaveUnitUnset(es: seq<Entry>)
    requires ValidEntries(es)
    ensures Replay(Empty(), es).unit == ""
  {
    Conservation(Empty(), es);
  }

  /** Every state reached by entries from a consistent one is consistent. */
  lemma {:induction false} ReplayConsistent(s: Stats, es: seq<Entry>)
    requires Consistent(s) && ValidEntries(es)
    ensures Consistent(Replay(s, es))
    decreases |es|
  {
    if es != [] {
      ReplayConsistent(s, es[..|es| - 1]);
      WithEntryConsistent(Replay(s, es[..|es| - 1]), es[|es| - 1].value, es[|es| - 1].count);
    }
  }

  // ---------------------------------------------------------------------------
  // The scenarios of the distribution test

  /** AddEntry(20, 1), AddEntry(30, 1), AddEntryWithUnit(50, 1, "Count") on a new distribution. */
  function FirstTestDistribution(): Stats
  {
    WithEntryAndUnit(WithEntry(WithEntry(Empty(), 20.0, 1.0), 30.0, 1.0), 50.0, 1.0, "Count")
  }

  /** AddEntry(21, 1), AddEntry(22, 1), AddEntry(23, 2) on a new distribution. */
  function SecondTestDistribution(): Stats
  {
    WithEntry(WithEntry(WithEntry(Empty(), 21.0, 1.0), 22.0, 1.0), 23.0, 2.0)
  }

  /** What the test asserts of the first distribution: sum 100, count 3, extremes 20 and 50, unit "Count". */
  function FirstTestExpected(): Stats
  {
    Stats(map[31 := 1.0, 35 := 1.0, 41 := 1.0], 100.0, 3.0, 20.0, 50.0, "Count")
  }

  /** What the test asserts of the second distribution: sum 89, count 4, extremes 21 and 23, no unit. */
  function SecondTestExpected(): Stats
  {
    Stats(map[31 := 1.0, 32 := 3.0], 89.0, 4.0, 21.0, 23.0, "")
  }

  /** What the test asserts after the merge: sum 189, count 7, extremes 20 and 50, unit "Count". */
  function MergedTestExpected(): Stats
  {
    Stats(map[31 := 2.0, 32 := 3.0, 35 := 1.0, 41 := 1.0], 189.0, 7.0, 20.0, 50.0, "Count")
  }

  lemma FirstTestResult()
    ensures FirstTestDistribution() == FirstTestExpected()
  {
    TestValueBuckets();
    assert FirstTestDistribution().buckets == map[31 := 1.0, 35 := 1.0, 41 := 1.0];
  }

  lemma SecondTestResult()
    ensures SecondTestDistribution() == SecondTestExpected()
  {
    TestValueBuckets();
    assert SecondTestDistribution().buckets == map[31 := 1.0, 32 := 3.0];
  }

  /** The bucket weights of the test's merge: 31 gets 1 + 1, the others keep their weight. */
  lemma MergedTestBuckets()
    ensures MergeBuckets(map[31 := 1.0, 35 := 1.0, 41 := 1.0], map[31 := 1.0, 32 := 3.0])
         == map[31 := 2.0, 32 := 3.0, 35 := 1.0, 41 := 1.0]
  {
    var a: map<int, real> := map[31 := 1.0, 35 := 1.0, 41 := 1.0];
    var b: map<int, real> := map[31 := 1.0, 32 := 3.0];
    var r: map<int, real> := map[31 := 2.0, 32 := 3.0, 35 := 1.0, 41 := 1.0];
    assert a.Keys + b.Keys == r.Keys;
    SameWeights(MergeBuckets(a, b), r);
  }

  /** Merging the second into the first, or the first into the second, gives the same result. */
  lemma MergedTestResult()
    ensures Merge(FirstTestExpected(), SecondTestExpected()) == MergedTestExpected()
    ensures Merge(SecondTestExpected(), FirstTestExpected()) == MergedTestExpected()
  {
    MergedTestBuckets();
    MergeCommutative(FirstTestExpected(), SecondTestExpected());
  }
}
