/**
 * The bucket codec of the SEH1 distribution ("sparse exponential histogram",
 * base 1.1): a positive sample value v falls into bucket floor(log v / log 1.1),
 * and bucket i is reported by its representative value 1.1^i * sqrt(1.1), the
 * geometric mean of its bounds 1.1^i and 1.1^(i+1).
 *
 * The codec is stated here in exact real arithmetic: Pow(i) is 1.1^i exactly,
 * BucketOf(v) is the unique i with Pow(i) <= v < Pow(i + 1), and a
 * representative is characterised by lying strictly inside its bucket.
 */
module Seh1Codec {

  /** The growth factor between the lower bounds of consecutive buckets. */
  const Base: real := 1.1

  /** Pow(i) == 1.1^i, for negative i as well; bucket i is [Pow(i), Pow(i + 1)). */
  function Pow(i: int): (r: real)
    ensures r > 0.0
    decreases if i >= 0 then i else -i
  {
    if i == 0 then 1.0
    else if i > 0 then Base * Pow(i - 1)
    else Pow(i + 1) / Base
  }

  lemma PowStep(i: int)
    ensures Pow(i + 1) == Base * Pow(i)
  {
  }

  /** The bucket bounds grow strictly with the bucket index. */
  lemma {:induction false} PowIncreasing(i: int, j: int)
    requires i < j
    ensures Pow(i) < Pow(j)
    decreases j - i
  {
    PowStep(j - 1);
    if i < j - 1 {
      PowIncreasing(i, j - 1);
    }
  }

  /** Bucket index of a value of at least 1 (a non-negative index). */
  function BucketAbove(v: real): (i: int)
    requires v >= 1.0
    ensures i >= 0 && Pow(i) <= v < Pow(i + 1)
    decreases (10.0 * v).Floor
  {
    if v < Base then 0
    else
      var j := BucketAbove(v / Base);
      PowStep(j);
      PowStep(j + 1);
      j + 1
  }

  /** Bucket index of a value strictly between 0 and 1 (a negative index). */
  function BucketBelow(v: real): (i: int)
    requires 0.0 < v < 1.0
    ensures i < 0 && Pow(i) <= v < Pow(i + 1)
    decreases (11.0 / v).Floor
  {
    if Base * v >= 1.0 then
      PowStep(-1);
      -1
    else
      assert 11.0 / (Base * v) == 10.0 / v;
      var j := BucketBelow(Base * v);
      PowStep(j - 1);
      PowStep(j);
      j - 1
  }

  /** floor(log v / log 1.1): the bucket whose bounds enclose v. */
  function BucketOf(v: real): (i: int)
    requires v > 0.0
    ensures Pow(i) <= v < Pow(i + 1)
  {
    if v >= 1.0 then BucketAbove(v) else BucketBelow(v)
  }

  /** The enclosing bucket is unique, so BucketOf is determined by its bounds. */
  lemma BucketOfUnique(v: real, i: int)
    requires v > 0.0
    requires Pow(i) <= v < Pow(i + 1)
    ensures BucketOf(v) == i
  {
    var j := BucketOf(v);
    if j + 1 < i {
      PowIncreasing(j + 1, i);
    } else if i + 1 < j {
      PowIncreasing(i + 1, j);
    }
  }

  /** Larger values never fall into lower buckets. */
  lemma BucketOfMonotone(v: real, w: real)
    requires 0.0 < v <= w
    ensures BucketOf(v) <= BucketOf(w)
  {
    var i, j := BucketOf(v), BucketOf(w);
    if j + 1 < i {
      PowIncreasing(j + 1, i);
    }
  }

  /**
   * r can stand for bucket i: it lies strictly between the bucket's bounds.
   * The source reports 1.1^i * sqrt(1.1), the geometric mean of the bounds,
   * which is such a value; sqrt(1.1) is irrational, so the model keeps only
   * this property of it.
   */
  ghost predicate IsRepresentative(i: int, r: real)
  {
    Pow(i) < r < Pow(i + 1)
  }

  /** Distinct buckets have distinct representatives, so a snapshot's values identify its buckets. */
  lemma RepresentativesDistinct(i: int, j: int, r: real, s: real)
    requires IsRepresentative(i, r) && IsRepresentative(j, s)
    requires i != j
    ensures r != s
  {
    if i + 1 < j {
      PowIncreasing(i + 1, j);
    } else if j + 1 < i {
      PowIncreasing(j + 1, i);
    }
  }

  /**
   * The reconstruction error bound: a representative of v's bucket differs
   * from v by less than the growth factor, in either direction.
   */
  lemma RepresentativeRelativeError(v: real, r: real)
    requires v > 0.0
    requires IsRepresentative(BucketOf(v), r)
    ensures r < Base * v && v < Base * r
  {
    PowStep(BucketOf(v));
  }

  /** The square of a positive number grows with the number. */
  lemma SquareMonotone(a: real, b: real)
    requires 0.0 < a <= b
    ensures a * a <= b * b
  {
    assert a * a <= a * b;
    assert a * b <= b * b;
  }

  lemma SquareStrictlyMonotone(a: real, b: real)
    requires 0.0 < a < b
    ensures a * a < b * b
  {
    assert a * a < a * b;
    assert a * b < b * b;
  }

  /**
   * r is the value the source reports for bucket i, 1.1^i * sqrt(1.1): the
   * positive number whose square is the product of the bucket's bounds.
   */
  ghost predicate IsGeometricMean(i: int, r: real)
  {
    r > 0.0 && r * r == Pow(i) * Pow(i + 1)
  }

  /** Multiplying by a positive number keeps a strict order. */
  lemma ScaleStrictly(c: real, x: real, y: real)
    requires c > 0.0 && x < y
    ensures c * x < c * y
  {
  }

  /** The geometric mean of two bounds lies strictly between them. */
  lemma MeanBetween(lo: real, hi: real, r: real)
    requires 0.0 < lo < hi && r > 0.0 && r * r == lo * hi
    ensures lo < r < hi
  {
    ScaleStrictly(lo, lo, hi);
    ScaleStrictly(hi, lo, hi);
    assert lo * lo < r * r < hi * hi;
    if r <= lo {
      SquareMonotone(r, lo);
      assert false;
    }
    if hi <= r {
      SquareMonotone(hi, r);
      assert false;
    }
  }

  /** The geometric mean of a bucket's bounds lies strictly inside the bucket. */
  lemma GeometricMeanIsRepresentative(i: int, r: real)
    requires IsGeometricMean(i, r)
    ensures IsRepresentative(i, r)
  {
    PowIncreasing(i, i + 1);
    MeanBetween(Pow(i), Pow(i + 1), r);
  }

  /** For bounds lo and hi == 1.1 * lo, the geometric mean and a value between them differ by a factor sqrt(1.1) at most. */
  lemma MeanError(lo: real, hi: real, v: real, r: real)
    requires 0.0 < lo <= v < hi && hi == Base * lo && r > 0.0 && r * r == lo * hi
    ensures r * r <= Base * (v * v) && v * v < Base * (r * r)
  {
    SquareMonotone(lo, v);
    SquareStrictlyMonotone(v, hi);
    assert r * r == Base * (lo * lo);
    assert hi * hi == Base * (r * r);
  }

  /** The error bound for a value inside bucket i and that bucket's geometric mean. */
  lemma MeanErrorInBucket(i: int, v: real, r: real)
    requires Pow(i) <= v < Pow(i + 1)
    requires IsGeometricMean(i, r)
    ensures r * r <= Base * (v * v) && v * v < Base * (r * r)
  {
    PowStep(i);
    MeanError(Pow(i), Pow(i + 1), v, r);
  }

  /**
   * The reconstruction error bound of the geometric mean, squared: the value
   * reported for v's bucket and v differ by at most a factor sqrt(1.1) in
   * either direction, that is, their squares by at most a factor 1.1.
   */
  lemma GeometricMeanRelativeError(v: real, r: real)
    requires v > 0.0
    requires IsGeometricMean(BucketOf(v), r)
    ensures r * r <= Base * (v * v) && v * v < Base * (r * r)
  {
    MeanErrorInBucket(BucketOf(v), v, r);
  }

  /** Exact bucket bounds around the sample values used by the distribution test. */
  lemma PowTable()
    ensures Pow(31) <= 20.0 && 21.0 < Pow(32)
    ensures Pow(32) <= 22.0 && 23.0 < Pow(33)
    ensures Pow(35) <= 30.0 < Pow(36)
    ensures Pow(41) <= 50.0 < Pow(42)
  {
    assert Pow(10) == 2.5937424601;
    assert Pow(20) == 6.72749994932560009201;
    assert Pow(30) == 17.449402268886407318558803753801;
    assert Pow(40) > 45.25;
  }

  /**
   * The grouping the distribution test relies on: 20 and 21 share a bucket,
   * 22 and 23 share the next one, 30 and 50 each have a bucket of their own.
   */
  lemma TestValueBuckets()
    ensures BucketOf(20.0) == 31 && BucketOf(21.0) == 31
    ensures BucketOf(22.0) == 32 && BucketOf(23.0) == 32
    ensures BucketOf(30.0) == 35
    ensures BucketOf(50.0) == 41
  {
    PowTable();
    BucketOfUnique(20.0, 31);
    BucketOfUnique(21.0, 31);
    BucketOfUnique(22.0, 32);
    BucketOfUnique(23.0, 32);
    BucketOfUnique(30.0, 35);
    BucketOfUnique(50.0, 41);
  }
}
