/**
 * The SEH1 distribution object: a bucket map and running statistics that
 * AddEntry, AddEntryWithUnit and AddDistribution update in place, the read
 * accessors, the ValuesAndCounts snapshot, and the field-by-field clone.
 * Every method is specified by the value-level functions of Seh1Stats.
 */
module Seh1 {
  import opened Seh1Codec
  import opened Seh1Stats

  class SEH1Distribution {
    var buckets: map<int, real>
    var sum: real
    var sampleCount: real
    var minimum: real
    var maximum: real
    var unit: string

    /** The fields as one value. */
    function State(): Stats
      reads this
    {
      Stats(buckets, sum, sampleCount, minimum, maximum, unit)
    }

    /** The invariant every reachable distribution keeps. */
    ghost predicate Valid()
      reads this
    {
      Consistent(State())
    }

    /** NewSEH1Distribution: no buckets, zero sum and count, sentinel extremes, no unit. */
    constructor ()
      ensures Valid() && State() == Empty()
    {
      buckets := map[];
      sum := 0.0;
      sampleCount := 0.0;
      minimum := MaxFloat64;
      maximum := 0.0;
      unit := "";
      new;
      EmptyConsistent();
    }

    /**
     * Records count observations of value. A non-positive value or count is
     * rejected (ok is false) and nothing changes.
     */
    method AddEntry(value: real, count: real) returns (ok: bool)
      requires Valid() && value <= MaxFloat64
      modifies this
      ensures Valid()
      ensures ok <==> value > 0.0 && count > 0.0
      ensures State() == if ok then WithEntry(old(State()), value, count) else old(State())
    {
      if value <= 0.0 || count <= 0.0 {
        return false;
      }
      ghost var t := WithEntry(State(), value, count);
      WithEntryConsistent(State(), value, count);
      var k := BucketOf(value);
      buckets := buckets[k := (if k in buckets then buckets[k] else 0.0) + count];
      sum := sum + value * count;
      sampleCount := sampleCount + count;
      minimum := Min(minimum, value);
      maximum := Max(maximum, value);
      assert State() == t;
      ok := true;
    }

    /** AddEntry, and on success the unit label becomes unit. */
    method AddEntryWithUnit(value: real, count: real, unit: string) returns (ok: bool)
      requires Valid() && value <= MaxFloat64
      modifies this
      ensures Valid()
      ensures ok <==> value > 0.0 && count > 0.0
      ensures State() == if ok then WithEntryAndUnit(old(State()), value, count, unit) else old(State())
    {
      ok := AddEntry(value, count);
      if ok {
        this.unit := unit;
      }
    }

    /**
     * Merges other into this distribution; other is read only (a snapshot of
     * it is taken first, so merging a distribution into itself is covered).
     */
    method AddDistribution(other: SEH1Distribution)
      requires Valid() && other.Valid()
      modifies this
      ensures Valid()
      ensures State() == Merge(old(State()), old(other.State()))
    {
      var o := other.State();
      ghost var merged := Merge(State(), o);
      MergeConsistent(State(), o);
      AddBuckets(o.buckets);
      sum := sum + o.sum;
      sampleCount := sampleCount + o.sampleCount;
      minimum := Min(minimum, o.minimum);
      maximum := Max(maximum, o.maximum);
      if unit == "" {
        unit := o.unit;
      }
      assert State() == merged;
    }

    /** Adds the weight of every bucket of m to this distribution's bucket of the same index. */
    method AddBuckets(m: map<int, real>)
      modifies this`buckets
      ensures buckets == MergeBuckets(old(buckets), m)
    {
      var rest := m;
      while exists k :: k in rest
        invariant forall i :: i in rest ==> i in m && rest[i] == m[i]
        invariant forall i :: i in buckets <==> i in old(buckets) || (i in m && i !in rest)
        invariant forall i :: Weight(buckets, i) == Weight(old(buckets), i) + (if i in rest then 0.0 else Weight(m, i))
        decreases |rest|
      {
        var k :| k in rest;
        buckets := buckets[k := (if k in buckets then buckets[k] else 0.0) + rest[k]];
        rest := rest - {k};
      }
      SameWeights(buckets, MergeBuckets(old(buckets), m));
    }

    /** The total of value * weight; 0 while no entry has been recorded. */
    function Sum(): (r: real)
      reads this
      ensures r == State().sum
      ensures Valid() && !Occupied(buckets) ==> r == 0.0
    {
      sum
    }

    /** The total weight of all buckets; 0 exactly while there are no buckets. */
    function SampleCount(): (r: real)
      reads this
      ensures Valid() ==> r == TotalWeight(buckets)
      ensures Valid() ==> (r == 0.0 <==> !Occupied(buckets)) && r >= 0.0
    {
      CountZeroIffEmpty(State());
      sampleCount
    }

    /** The smallest value recorded: its bucket is the lowest occupied one. */
    function Minimum(): (r: real)
      reads this
      ensures Valid() && Occupied(buckets) ==>
        IsSampleValue(r) && r <= maximum && BucketOf(r) in buckets && forall i :: i in buckets ==> BucketOf(r) <= i
      ensures Valid() && !Occupied(buckets) ==> r == MaxFloat64
    {
      minimum
    }

    /** The largest value recorded: its bucket is the highest occupied one. */
    function Maximum(): (r: real)
      reads this
      ensures Valid() && Occupied(buckets) ==>
        IsSampleValue(r) && minimum <= r && BucketOf(r) in buckets && forall i :: i in buckets ==> i <= BucketOf(r)
      ensures Valid() && !Occupied(buckets) ==> r == 0.0
    {
      maximum
    }

    /** The unit label, "" while unset. */
    function Unit(): (r: string)
      reads this
      ensures r == State().unit
    {
      unit
    }

    /**
     * One (representative value, weight) pair per occupied bucket, in two
     * positionally paired sequences; rep(i) is the representative reported
     * for bucket i.
     */
    method ValuesAndCounts(rep: int -> real) returns (values: seq<real>, counts: seq<real>)
      requires forall i :: IsRepresentative(i, rep(i))
      ensures |values| == |counts| == |buckets|
      ensures Pairs(values, counts) == Snapshot(buckets, rep)
      ensures forall j, k :: 0 <= j < k < |values| ==> values[j] != values[k]
    {
      var rest := buckets;
      values, counts := [], [];
      ghost var indices: seq<int> := [];
      while exists k :: k in rest
        invariant forall i :: i in rest ==> i in buckets && rest[i] == buckets[i] && i !in indices
        invariant forall i :: i in buckets ==> i in rest || i in indices
        invariant |indices| + |rest| == |buckets|
        invariant Listing(buckets, rep, indices, values, counts)
        invariant forall j, k :: 0 <= j < k < |indices| ==> indices[j] != indices[k]
        decreases |rest|
      {
        var k :| k in rest;
        ListingAppend(buckets, rep, indices, values, counts, k);
        values, counts := values + [rep(k)], counts + [rest[k]];
        indices := indices + [k];
        rest := rest - {k};
      }
      NotOccupiedIsEmpty(rest);
      ListingPairs(buckets, rep, indices, values, counts);
      ListingDistinct(buckets, rep, indices, values, counts);
    }
  }

  /**
   * values and counts list, position by position, the representative and the
   * weight of the buckets named by indices.
   */
  ghost predicate Listing(m: map<int, real>, rep: int -> real, indices: seq<int>, values: seq<real>, counts: seq<real>)
  {
    && |values| == |counts| == |indices|
    && forall k :: 0 <= k < |indices| ==>
         indices[k] in m && values[k] == rep(indices[k]) && counts[k] == m[indices[k]]
  }

  lemma ListingAppend(m: map<int, real>, rep: int -> real, indices: seq<int>, values: seq<real>, counts: seq<real>, i: int)
    requires Listing(m, rep, indices, values, counts) && i in m
    ensures Listing(m, rep, indices + [i], values + [rep(i)], counts + [m[i]])
  {
  }

  /** A listing that names every bucket yields exactly the bucket map's pairs. */
  lemma ListingPairs(m: map<int, real>, rep: int -> real, indices: seq<int>, values: seq<real>, counts: seq<real>)
    requires Listing(m, rep, indices, values, counts)
    requires forall i :: i in m ==> i in indices
    ensures Pairs(values, counts) == Snapshot(m, rep)
  {
    forall p | p in Snapshot(m, rep)
      ensures p in Pairs(values, counts)
    {
      var i :| i in m && p == (rep(i), m[i]);
      var k :| 0 <= k < |indices| && indices[k] == i;
      assert p == (values[k], counts[k]);
    }
    forall p | p in Pairs(values, counts)
      ensures p in Snapshot(m, rep)
    {
      var k :| 0 <= k < |values| && p == (values[k], counts[k]);
      var i := indices[k];
      assert i in m && p == (rep(i), m[i]);
    }
  }

  /** A listing of distinct buckets lists distinct representative values. */
  lemma ListingDistinct(m: map<int, real>, rep: int -> real, indices: seq<int>, values: seq<real>, counts: seq<real>)
    requires Listing(m, rep, indices, values, counts)
    requires forall j, k :: 0 <= j < k < |indices| ==> indices[j] != indices[k]
    requires forall i :: IsRepresentative(i, rep(i))
    ensures forall j, k :: 0 <= j < k < |values| ==> values[j] != values[k]
  {
    forall j, k | 0 <= j < k < |values|
      ensures values[j] != values[k]
    {
      RepresentativesDistinct(indices[j], indices[k], values[j], values[k]);
    }
  }

  /** The set of (representative, weight) pairs of a bucket map. */
  ghost function Snapshot(m: map<int, real>, rep: int -> real): set<(real, real)>
  {
    set i | i in m :: (rep(i), m[i])
  }

  /** The set of positional pairs of two sequences of equal length. */
  function Pairs(values: seq<real>, counts: seq<real>): set<(real, real)>
    requires |values| == |counts|
  {
    set k | 0 <= k < |values| :: (values[k], counts[k])
  }

  /**
   * cloneSEH1Distribution: a fresh distribution with the same scalar fields
   * and its own copy of the bucket map, filled one bucket at a time.
   */
  method CloneSEH1Distribution(dist: SEH1Distribution) returns (cloned: SEH1Distribution)
    ensures fresh(cloned)
    ensures cloned.State() == dist.State()
  {
    cloned := new SEH1Distribution();
    cloned.maximum, cloned.minimum := dist.maximum, dist.minimum;
    cloned.sampleCount, cloned.sum := dist.sampleCount, dist.sum;
    cloned.buckets := map[];
    cloned.unit := dist.unit;
    var rest := dist.buckets;
    while exists k :: k in rest
      invariant rest.Keys !! cloned.buckets.Keys && rest.Keys + cloned.buckets.Keys == dist.buckets.Keys
      invariant forall i :: i in rest ==> rest[i] == dist.buckets[i]
      invariant forall i :: i in cloned.buckets ==> cloned.buckets[i] == dist.buckets[i]
      invariant cloned.maximum == dist.maximum && cloned.minimum == dist.minimum
      invariant cloned.sampleCount == dist.sampleCount && cloned.sum == dist.sum
      invariant cloned.unit == dist.unit
      decreases |rest|
    {
      var k :| k in rest;
      cloned.buckets := cloned.buckets[k := rest[k]];
      rest := rest - {k};
    }
    SameWeights(cloned.buckets, dist.buckets);
  }

  // ---------------------------------------------------------------------------
  // The scenario of the distribution test

  /** The pairs the test expects from the first distribution: one per value, each of weight 1. */
  lemma FirstTestSnapshot(rep: int -> real)
    ensures Snapshot(map[31 := 1.0, 35 := 1.0, 41 := 1.0], rep) == {(rep(31), 1.0), (rep(35), 1.0), (rep(41), 1.0)}
  {
  }

  /** The pairs the test expects from the second distribution: 22 and 23 share one pair of weight 3. */
  lemma SecondTestSnapshot(rep: int -> real)
    ensures Snapshot(map[31 := 1.0, 32 := 3.0], rep) == {(rep(31), 1.0), (rep(32), 3.0)}
  {
  }

  /** The pairs the test expects after the merge: weights 2, 3, 1 and 1. */
  lemma MergedTestSnapshot(rep: int -> real)
    ensures Snapshot(map[31 := 2.0, 32 := 3.0, 35 := 1.0, 41 := 1.0], rep)
         == {(rep(31), 2.0), (rep(32), 3.0), (rep(35), 1.0), (rep(41), 1.0)}
  {
  }

  /** The first distribution of the test: AddEntry(20, 1), AddEntry(30, 1), AddEntryWithUnit(50, 1, "Count"). */
  method FirstTestScenario() returns (dist: SEH1Distribution)
    ensures fresh(dist) && dist.Valid() && dist.State() == FirstTestExpected()
  {
    dist := new SEH1Distribution();
    var ok := dist.AddEntry(20.0, 1.0);
    ok := dist.AddEntry(30.0, 1.0);
    ok := dist.AddEntryWithUnit(50.0, 1.0, "Count");
    FirstTestResult();
  }

  /** The second distribution of the test: AddEntry(21, 1), AddEntry(22, 1), AddEntry(23, 2). */
  method SecondTestScenario() returns (dist: SEH1Distribution)
    ensures fresh(dist) && dist.Valid() && dist.State() == SecondTestExpected()
  {
    dist := new SEH1Distribution();
    var ok := dist.AddEntry(21.0, 1.0);
    ok := dist.AddEntry(22.0, 1.0);
    ok := dist.AddEntry(23.0, 2.0);
    SecondTestResult();
  }

  /**
   * The distribution test, step by step: two distributions built from
   * entries, a clone of the first, the second merged into the first and the
   * clone merged into the second. Every accessor and snapshot the test reads
   * has the value it expects, and the two distributions end up equal.
   */
  method TestSEH1Distribution(rep: int -> real) returns (dist: SEH1Distribution, anotherDist: SEH1Distribution)
    requires forall i :: IsRepresentative(i, rep(i))
    ensures dist.State() == MergedTestExpected()
    ensures anotherDist.State() == dist.State()
  {
    dist := FirstTestScenario();
    assert dist.Sum() == 100.0 && dist.SampleCount() == 3.0;
    assert dist.Minimum() == 20.0 && dist.Maximum() == 50.0 && dist.Unit() == "Count";
    var values, counts := dist.ValuesAndCounts(rep);
    FirstTestSnapshot(rep);
    assert Pairs(values, counts) == {(rep(31), 1.0), (rep(35), 1.0), (rep(41), 1.0)};

    anotherDist := SecondTestScenario();
    assert anotherDist != dist;
    assert anotherDist.Sum() == 89.0 && anotherDist.SampleCount() == 4.0;
    assert anotherDist.Minimum() == 21.0 && anotherDist.Maximum() == 23.0 && anotherDist.Unit() == "";
    values, counts := anotherDist.ValuesAndCounts(rep);
    SecondTestSnapshot(rep);
    assert Pairs(values, counts) == {(rep(31), 1.0), (rep(32), 3.0)};

    var distClone := CloneSEH1Distribution(dist);
    assert distClone.Valid() && distClone != dist && distClone != anotherDist;
    MergedTestResult();
    dist.AddDistribution(anotherDist);
    assert distClone.Valid() && distClone.State() == FirstTestExpected();
    assert anotherDist.Valid() && anotherDist.State() == SecondTestExpected();
    assert dist.State() == MergedTestExpected();
    assert dist.Sum() == 189.0 && dist.SampleCount() == 7.0;
    assert dist.Minimum() == 20.0 && dist.Maximum() == 50.0 && dist.Unit() == "Count";
    values, counts := dist.ValuesAndCounts(rep);
    MergedTestSnapshot(rep);
    assert Pairs(values, counts) == {(rep(31), 2.0), (rep(32), 3.0), (rep(35), 1.0), (rep(41), 1.0)};

    anotherDist.AddDistribution(distClone);
  }
}
