/**
 The latency histogram: 64 buckets, one per power of two, with approximate percentiles.

 A sample in [2^i, 2^(i+1)) is counted in bucket i, while the value that stands for bucket i is the
 middle of the octave below it. The percentile can therefore be low by a factor of 3.5.
 */
module LatencyHistograms {
  import opened Types
  import opened Bits

  const BUCKETS: nat := 64

  // ---------------------------------------------------------------- buckets

  /** Leading zeros of a word of `width` bits. */
  function LeadingZeros(x: nat, width: nat): (n: nat)
    requires x < Pow2(width)
    ensures n <= width
    ensures x > 0 ==> n < width && Pow2(width - n - 1) <= x < Pow2(width - n)
  {
    if width == 0 || x >= Pow2(width - 1) then 0 else 1 + LeadingZeros(x, width - 1)
  }

  function BucketIndex(ns: u64): (i: nat)
    ensures i < BUCKETS
  {
    Powers();
    if ns == 0 then 0 else 63 - LeadingZeros(ns, 64)
  }

  lemma BucketBounds(ns: u64)
    ensures var j := BucketIndex(ns);
            if ns == 0 then j == 0 else Pow2(j) <= ns < Pow2(j + 1)
  {
    hide LeadingZeros, Pow2;
    Powers();
  }

  /** Bucket i holds the samples from 2^i up to 2^(i+1); bucket 0 also holds zero. */
  lemma BucketRange(ns: u64, i: nat)
    requires i < BUCKETS
    ensures BucketIndex(ns) == i <==> (Pow2(i) <= ns < Pow2(i + 1) || (i == 0 && ns == 0))
  {
    hide BucketIndex, Pow2;
    var j := BucketIndex(ns);
    BucketBounds(ns);
    if i < j {
      Pow2Grows(i + 1, j);
    } else if j < i {
      Pow2Grows(j + 1, i);
    }
  }

  lemma {:induction false} Pow2Grows(i: nat, j: nat)
    requires i <= j
    ensures Pow2(i) <= Pow2(j)
  {
    if i < j {
      Pow2Grows(i, j - 1);
    }
  }

  function Representative(i: nat): (r: u64)
    requires i < BUCKETS
  {
    if i == 0 then 1
    else
      var lo, hi := Pow2(i - 1), Pow2(i) - 1;
      FitsWord(i);
      (lo + hi) / 2
  }

  lemma FitsWord(i: nat)
    requires i < BUCKETS
    ensures Pow2(i) <= 0x8000_0000_0000_0000
  {
    Powers();
    Pow2Grows(i, 63);
    assert Pow2(64) == 2 * Pow2(63);
  }

  /** A bucket's value is at most each of its samples (or 1), and at least two sevenths of it. */
  lemma RepresentativeBounds(ns: u64)
    ensures var r := Representative(BucketIndex(ns)); (r <= ns || r == 1) && 2 * ns <= 7 * r
  {
    var i := BucketIndex(ns);
    BucketRange(ns, i);
    if i >= 2 {
      assert Pow2(i + 1) == 4 * Pow2(i - 1) && Pow2(i) == 2 * Pow2(i - 1) && Pow2(i - 1) == 2 * Pow2(i - 2);
    } else {
      assert Pow2(0) == 1 && Pow2(1) == 2 && Pow2(2) == 4;
    }
  }

  /** The factor cannot be improved: a sample of 7 is represented by 2. */
  lemma FactorIsTight()
    ensures 2 * 7 == 7 * Representative(BucketIndex(7))
  {
    BucketRange(7, 2);
    assert Pow2(1) == 2 && Pow2(2) == 4 && Pow2(3) == 8;
  }

  /** The value of bucket i, from 2 up, in closed form: three quarters of 2^i, less one. */
  lemma RepresentativeIs(i: nat)
    requires 2 <= i < BUCKETS
    ensures Representative(i) == 3 * Pow2(i - 2) - 1
    ensures Representative(0) == 1 == Representative(1)
  {
    assert Pow2(i) == 2 * Pow2(i - 1) && Pow2(i - 1) == 2 * Pow2(i - 2);
    assert Pow2(0) == 1 && Pow2(1) == 2;
  }

  lemma RepresentativeGrows(i: nat, j: nat)
    requires i <= j < BUCKETS
    ensures Representative(i) <= Representative(j)
  {
    if 0 < i {
      Pow2Grows(i, j);
      Pow2Grows(i - 1, j - 1);
    } else if 0 < j {
      Pow2Grows(0, j - 1);
      assert Pow2(j) == 2 * Pow2(j - 1) && Pow2(0) == 1;
    }
  }

  lemma BucketGrows(x: u64, y: u64)
    requires x <= y
    ensures BucketIndex(x) <= BucketIndex(y)
  {
    var i, j := BucketIndex(x), BucketIndex(y);
    BucketRange(x, i);
    BucketRange(y, j);
    if j < i {
      Pow2Grows(j + 1, i);
    }
  }

  // ---------------------------------------------------------------- samples

  /** How many samples satisfy x < bound. */
  function CountBelow(samples: seq<u64>, bound: nat): nat {
    if samples == [] then 0
    else CountBelow(samples[..|samples| - 1], bound) + if samples[|samples| - 1] < bound then 1 else 0
  }

  /** Counting is what it says: the positions whose sample is below the bound. */
  lemma {:induction false} CountBelowIs(samples: seq<u64>, bound: nat)
    ensures CountBelow(samples, bound) == |set i | 0 <= i < |samples| && samples[i] < bound|
  {
    if samples != [] {
      var n := |samples| - 1;
      CountBelowIs(samples[..n], bound);
      var before := set i | 0 <= i < |samples[..n]| && samples[..n][i] < bound;
      var now := set i | 0 <= i < |samples| && samples[i] < bound;
      assert now == if samples[n] < bound then before + {n} else before;
    }
  }

  function CountIn(samples: seq<u64>, bucket: nat): nat {
    if samples == [] then 0
    else CountIn(samples[..|samples| - 1], bucket) + if BucketIndex(samples[|samples| - 1]) == bucket then 1 else 0
  }

  function MaxOf(samples: seq<u64>): u64 {
    if samples == [] then 0
    else
      var m := MaxOf(samples[..|samples| - 1]);
      if samples[|samples| - 1] > m then samples[|samples| - 1] else m
  }

  lemma {:induction false} MaxExact(samples: seq<u64>)
    ensures forall x | x in samples :: x <= MaxOf(samples)
    ensures samples != [] ==> MaxOf(samples) in samples
  {
    if samples != [] {
      var init := samples[..|samples| - 1];
      MaxExact(init);
      assert samples == init + [samples[|samples| - 1]];
    }
  }

  /** x is the sample of rank k, counting from 0, in sorted order. */
  ghost predicate IsRank(samples: seq<u64>, k: nat, x: u64) {
    x in samples && CountBelow(samples, x) <= k < CountBelow(samples, x + 1)
  }

  lemma {:induction false} CountGrows(samples: seq<u64>, a: nat, b: nat)
    requires a <= b
    ensures CountBelow(samples, a) <= CountBelow(samples, b) <= |samples|
  {
    if samples != [] {
      CountGrows(samples[..|samples| - 1], a, b);
    }
  }

  lemma {:induction false} CountAll(samples: seq<u64>)
    ensures CountBelow(samples, MAX_U64 + 1) == |samples|
  {
    if samples != [] {
      CountAll(samples[..|samples| - 1]);
    }
  }

  lemma {:induction false} CountStep(samples: seq<u64>, x: nat)
    requires x !in samples
    ensures CountBelow(samples, x + 1) == CountBelow(samples, x)
  {
    if samples != [] {
      CountStep(samples[..|samples| - 1], x);
    }
  }

  lemma {:induction false} CountNone(samples: seq<u64>)
    ensures CountBelow(samples, 0) == 0
  {
    if samples != [] {
      CountNone(samples[..|samples| - 1]);
    }
  }

  /** Every rank below the number of samples is taken by exactly one value. */
  lemma RankExists(samples: seq<u64>, k: nat) returns (x: u64)
    requires k < |samples|
    ensures IsRank(samples, k, x)
    ensures forall y: u64 | IsRank(samples, k, y) :: y == x
  {
    CountAll(samples);
    CountNone(samples);
    x := SearchRank(samples, k, 0);
    forall y: u64 | IsRank(samples, k, y)
      ensures y == x
    {
      if y < x {
        CountGrows(samples, y + 1, x);
      } else if x < y {
        CountGrows(samples, x + 1, y);
      }
    }
  }

  lemma {:induction false} SearchRank(samples: seq<u64>, k: nat, from: nat) returns (x: u64)
    requires CountBelow(samples, from) <= k < CountBelow(samples, MAX_U64 + 1)
    requires from <= MAX_U64 + 1
    ensures IsRank(samples, k, x)
    decreases MAX_U64 + 1 - from
  {
    if k < CountBelow(samples, from + 1) {
      x := from;
      if x !in samples {
        CountStep(samples, x);
      }
    } else {
      x := SearchRank(samples, k, from + 1);
    }
  }

  lemma AppendCounts(samples: seq<u64>, ns: u64)
    ensures forall i :: CountIn(samples + [ns], i) == CountIn(samples, i) + if BucketIndex(ns) == i then 1 else 0
    ensures MaxOf(samples + [ns]) == if ns > MaxOf(samples) then ns else MaxOf(samples)
  {
    assert (samples + [ns])[..|samples + [ns]| - 1] == samples;
  }

  lemma RankTaken(samples: seq<u64>, k: nat)
    requires k < |samples|
    ensures exists x: u64 :: IsRank(samples, k, x)
  {
    var x := RankExists(samples, k);
  }

  /** The exact sample of rank k. */
  ghost function SampleAt(samples: seq<u64>, k: nat): (x: u64)
    requires k < |samples|
    ensures IsRank(samples, k, x)
  {
    RankTaken(samples, k);
    var x: u64 :| IsRank(samples, k, x);
    x
  }

  // ---------------------------------------------------------------- percentiles

  /** The rank that percentile p of n samples looks for. */
  function Target(n: nat, p: real): nat
    requires p >= 0.0
  {
    MulReal(0.0, p, n as real);
    (n as real * p / 100.0).Floor
  }

  lemma MulReal(a: real, b: real, c: real)
    requires a <= b && 0.0 <= c
    ensures c * a <= c * b && (a < b && 0.0 < c ==> c * a < c * b)
  {
  }

  lemma TargetInRange(n: nat, p: real)
    requires p >= 0.0 && n > 0
    ensures Target(n, p) < n <==> p < 100.0
  {
    if p < 100.0 {
      MulReal(p, 100.0, n as real);
    } else {
      MulReal(100.0, p, n as real);
    }
  }

  lemma TargetMonotone(n: nat, p: real, p': real)
    requires 0.0 <= p <= p'
    ensures Target(n, p) <= Target(n, p')
  {
    MulReal(p, p', n as real);
    var a, b := n as real * p / 100.0, n as real * p' / 100.0;
    assert a <= b && a.Floor as real <= a && b < (b.Floor + 1) as real;
  }

  ghost function PercentileSpec(samples: seq<u64>, p: real): u64
    requires p >= 0.0
  {
    var k := Target(|samples|, p);
    if samples == [] then 0
    else if k < |samples| then Representative(BucketIndex(SampleAt(samples, k)))
    else Representative(BUCKETS - 1)
  }

  /**
   x is the exact percentile: a sample such that at most p percent of the samples are below it, and
   more than p percent are at or below it.
   */
  ghost predicate IsPercentile(samples: seq<u64>, p: real, x: u64) {
    && x in samples
    && CountBelow(samples, x) as real * 100.0 <= |samples| as real * p
    && |samples| as real * p < CountBelow(samples, x + 1) as real * 100.0
  }

  /** The target rank is that of the exact percentile. */
  lemma TargetIsPercentile(samples: seq<u64>, p: real, x: u64)
    requires p >= 0.0
    ensures IsRank(samples, Target(|samples|, p), x) <==> IsPercentile(samples, p, x)
  {
    var y := |samples| as real * p / 100.0;
    MulReal(0.0, p, |samples| as real);
    FloorBetween(CountBelow(samples, x), y, CountBelow(samples, x + 1));
  }

  lemma FloorBetween(a: nat, y: real, b: nat)
    requires y >= 0.0
    ensures a <= y.Floor < b <==> a as real <= y < b as real
  {
    assert y.Floor as real <= y < (y.Floor + 1) as real;
  }

  /**
   What `percentile` answers, for every list of samples: the value that stands for the bucket of the
   exact percentile; at 100 percent and above that of the last bucket; and 0 without samples.
   */
  ghost predicate Answers(samples: seq<u64>, p: real, r: u64) {
    if samples == [] then r == 0
    else if p >= 100.0 then r == Representative(BUCKETS - 1)
    else exists x: u64 :: IsPercentile(samples, p, x) && r == Representative(BucketIndex(x)) && Near(r, x)
  }

  /** At most the sample (or 1), and at least two sevenths of it. */
  predicate Near(r: u64, x: u64) {
    (r <= x || r == 1) && 2 * x <= 7 * r
  }

  /** Below 100 percent there is one exact percentile, and the answer is near it. */
  lemma PercentileByCounts(samples: seq<u64>, p: real) returns (x: u64)
    requires samples != [] && 0.0 <= p < 100.0
    ensures IsPercentile(samples, p, x) && forall y: u64 | IsPercentile(samples, p, y) :: y == x
    ensures PercentileSpec(samples, p) == Representative(BucketIndex(x)) && Near(PercentileSpec(samples, p), x)
  {
    TargetInRange(|samples|, p);
    x := RankExists(samples, Target(|samples|, p));
    forall y: u64
      ensures IsRank(samples, Target(|samples|, p), y) <==> IsPercentile(samples, p, y)
    {
      TargetIsPercentile(samples, p, y);
    }
    RepresentativeBounds(x);
  }

  lemma PercentileAnswers(samples: seq<u64>, p: real)
    requires p >= 0.0
    ensures Answers(samples, p, PercentileSpec(samples, p))
  {
    if samples != [] {
      if p < 100.0 {
        var x := PercentileByCounts(samples, p);
      } else {
        TargetInRange(|samples|, p);
      }
    }
  }

  /** The smallest value of bucket i. */
  function Edge(i: nat): nat {
    if i == 0 then 0 else Pow2(i)
  }

  /** The samples below the next edge are those below this edge and those in the bucket between. */
  lemma {:induction false} EdgeStep(samples: seq<u64>, i: nat)
    requires i < BUCKETS
    ensures CountBelow(samples, Edge(i + 1)) == CountBelow(samples, Edge(i)) + CountIn(samples, i)
  {
    if samples != [] {
      EdgeStep(samples[..|samples| - 1], i);
      BucketRange(samples[|samples| - 1], i);
      Pow2Grows(i, i + 1);
    }
  }

  /** The bucket where the running count first passes k is the bucket of the sample of rank k. */
  lemma BucketOfRank(samples: seq<u64>, k: nat, i: nat)
    requires k < |samples| && i < BUCKETS
    requires CountBelow(samples, Edge(i)) <= k < CountBelow(samples, Edge(i + 1))
    ensures BucketIndex(SampleAt(samples, k)) == i
  {
    var x := SampleAt(samples, k);
    if x >= Edge(i + 1) {
      CountGrows(samples, Edge(i + 1), x);
    }
    if x < Edge(i) {
      CountGrows(samples, x + 1, Edge(i));
    }
    BucketRange(x, i);
  }

  /** Below 100 percent the result is at most the exact sample (or 1) and at least two sevenths of it. */
  lemma PercentileAccuracy(samples: seq<u64>, p: real)
    requires p >= 0.0 && samples != [] && p < 100.0
    ensures var k, r := Target(|samples|, p), PercentileSpec(samples, p);
            && k < |samples|
            && (r <= SampleAt(samples, k) || r == 1) && 2 * SampleAt(samples, k) <= 7 * r
            && (r <= MaxOf(samples) || r == 1)
  {
    TargetInRange(|samples|, p);
    var x := SampleAt(samples, Target(|samples|, p));
    RepresentativeBounds(x);
    MaxExact(samples);
  }

  /** A higher percentile never gives a smaller result. */
  lemma PercentileMonotone(samples: seq<u64>, p: real, p': real)
    requires 0.0 <= p <= p'
    ensures PercentileSpec(samples, p) <= PercentileSpec(samples, p')
  {
    var n := |samples|;
    if samples != [] {
      var k, k' := Target(n, p), Target(n, p');
      TargetMonotone(n, p, p');
      if k' < n {
        var x, x' := SampleAt(samples, k), SampleAt(samples, k');
        if x > x' {
          CountGrows(samples, x' + 1, x);
        }
        BucketGrows(x, x');
        RepresentativeGrows(BucketIndex(x), BucketIndex(x'));
      } else if k < n {
        RepresentativeGrows(BucketIndex(SampleAt(samples, k)), BUCKETS - 1);
      }
    }
  }

  /**
   No result exceeds the maximum sample (or 1), except that at 100 percent and above the result is
   the last bucket's value: then the bound holds only if some sample is that large.
   */
  lemma PercentileBoundIff(samples: seq<u64>, p: real)
    requires p >= 0.0 && samples != []
    ensures var r := PercentileSpec(samples, p);
            (r <= MaxOf(samples) || r == 1) <==>
            p < 100.0 || MaxOf(samples) >= Representative(BUCKETS - 1)
  {
    TargetInRange(|samples|, p);
    if p < 100.0 {
      PercentileAccuracy(samples, p);
    } else {
      FitsWord(63);
      Pow2Grows(2, 62);
      assert Pow2(2) == 4 && Pow2(63) == 2 * Pow2(62);
    }
  }

  // ---------------------------------------------------------------- the class

  class LatencyHistogram {
    const counts: array<nat>
    var total: nat
    var max: u64
    ghost var samples: seq<u64>

    ghost predicate Valid()
      reads this, counts
    {
      && counts.Length == BUCKETS
      && (forall i | 0 <= i < BUCKETS :: counts[i] == CountIn(samples, i))
      && total == |samples| && max == MaxOf(samples)
    }

    constructor ()
      ensures Valid() && samples == [] && fresh(counts)
    {
      counts := new nat[BUCKETS](_ => 0);
      total, max := 0, 0;
      samples := [];
    }

    /** Stores `desired` if the maximum is still `expected`; reports what it found otherwise. */
    method CompareExchange(expected: u64, desired: u64) returns (swapped: bool, seen: u64)
      modifies `max
      ensures swapped <==> old(max) == expected
      ensures max == if swapped then desired else old(max)
      ensures seen == old(max)
    {
      seen := max;
      swapped := max == expected;
      if swapped {
        max := desired;
      }
    }

    method Record(ns: u64)
      requires Valid()
      modifies this, counts
      ensures Valid() && samples == old(samples) + [ns]
    {
      AppendCounts(samples, ns);
      var b := BucketIndex(ns);
      counts[b] := counts[b] + 1;
      total := total + 1;
      var cur, swapped := max, false;
      while ns > cur && !swapped
        invariant cur == old(max) && max == (if swapped then ns else old(max)) && (swapped ==> ns > cur)
        decreases !swapped
        modifies `max
      {
        swapped, cur := CompareExchange(cur, ns);
      }
      samples := samples + [ns];
    }

    method Reset()
      requires Valid()
      modifies this, counts
      ensures Valid() && samples == []
    {
      for i := 0 to counts.Length
        invariant forall j | 0 <= j < i :: counts[j] == 0
      {
        counts[i] := 0;
      }
      total, max := 0, 0;
      samples := [];
    }

    method Percentile(p: real) returns (r: u64)
      requires Valid() && p >= 0.0
      ensures r == PercentileSpec(samples, p) && Answers(samples, p, r)
    {
      hide Answers;
      PercentileAnswers(samples, p);
      var n := total;
      if n == 0 { return 0; }
      var target := Target(n, p);
      var cumulative := 0;
      CountNone(samples);
      for i := 0 to BUCKETS
        invariant cumulative == CountBelow(samples, Edge(i)) <= target
      {
        EdgeStep(samples, i);
        cumulative := cumulative + counts[i];
        if cumulative > target {
          CountGrows(samples, Edge(i + 1), Edge(i + 1));
          if target < n {
            BucketOfRank(samples, target, i);
          }
          return Representative(i);
        }
      }
      Powers();
      CountAll(samples);
      return Representative(BUCKETS - 1);
    }
  }

  /** After one sample of 1, the 100th percentile is the last bucket's value. */
  method OneSampleAtHundred() returns (h: LatencyHistogram, r: u64)
    ensures h.Valid() && h.samples == [1]
    ensures r == 0x5FFF_FFFF_FFFF_FFFF > MaxOf(h.samples)
  {
    hide BucketIndex, LatencyHistogram.Valid, Representative;
    h := new LatencyHistogram();
    h.Record(1);
    TargetInRange(1, 100.0);
    LastBucket(BUCKETS - 1);
    r := h.Percentile(100.0);
    assert h.samples[..0] == [];
  }

  lemma LastBucket(i: nat)
    requires i == 63
    ensures Representative(i) == 0x5FFF_FFFF_FFFF_FFFF
  {
    RepresentativeIs(i);
    Powers();
    Pow2Add(i - 2, 3);
    assert Pow2(3) == 8;
  }
}
