/** The histogram, its iterator and percentile queries, over one array of counters. */
module HdrHistogram {
  import opened Options
  import opened Bits
  import opened HdrIndex
  import opened HdrRanks

  /** What the constructor's checks leave: every value below the last bucket's end fits 64 bits. */
  ghost predicate Good(c: Config) {
    c.bucketCount >= 1 && Untrackable(c) <= INT64_LIMIT
  }

  /** A value can be recorded. */
  predicate Accepts(c: Config, v: int)
    requires c.bucketCount >= 1
  {
    0 <= v < Untrackable(c)
  }

  /** What the documentation says can be recorded: up to the highest trackable value. */
  ghost predicate AsDocumented(c: Config, highest: int)
    requires c.bucketCount >= 1
  {
    forall v: int :: Accepts(c, v) <==> 0 <= v <= highest
  }

  /** The end of the last bucket is a power of two. */
  lemma UntrackableIsPow2(c: Config)
    requires c.bucketCount >= 1
    ensures Untrackable(c) == Pow2(c.halfMagnitude + 1 + (c.unitMagnitude + (c.bucketCount - 1)))
  {
    Pow2Add(c.halfMagnitude + 1, c.unitMagnitude + (c.bucketCount - 1));
  }

  /** The end of the first bucket. */
  function FirstEnd(c: Config): nat {
    Shl(Full(c), c.unitMagnitude)
  }

  /** There are as few buckets as cover the highest trackable value. */
  ghost predicate CoversLeast(c: Config, highest: int)
    requires c.bucketCount >= 1
  {
    0 <= highest < Untrackable(c) && (c.bucketCount > 1 ==> Untrackable(c) <= 2 * highest)
  }

  /**
   The documentation holds if and only if the last bucket ends right behind the highest trackable value, which is to
   say that one more than it is a power of two, and not below the end of the first bucket.
   */
  lemma DocumentedExactly(c: Config, highest: int)
    requires c.bucketCount >= 1 && CoversLeast(c, highest)
    ensures AsDocumented(c, highest) <==> PowerOfTwo(highest + 1) && highest + 1 >= FirstEnd(c)
    ensures AsDocumented(c, highest) <==> highest + 1 == Untrackable(c)
  {
    assert Accepts(c, highest + 1) <==> highest + 1 < Untrackable(c);
    hide Untrackable, FirstEnd;
    UntrackableIsPow2(c);
    FirstEndIs(c);
    if PowerOfTwo(highest + 1) && highest + 1 >= FirstEnd(c) {
      var j: nat :| highest + 1 == Pow2(j);
      var k := c.halfMagnitude + 1 + (c.unitMagnitude + (c.bucketCount - 1));
      if k < j {
        Pow2Monotone(k, j);
      } else if k > j {
        Pow2Monotone(j, k);
      }
    }
  }

  lemma FirstEndIs(c: Config)
    requires c.bucketCount >= 1
    ensures FirstEnd(c) <= Untrackable(c) && (c.bucketCount == 1 ==> FirstEnd(c) == Untrackable(c))
    ensures FirstEnd(c) == Pow2(c.halfMagnitude + 1 + c.unitMagnitude)
  {
    Pow2Add(c.halfMagnitude + 1, c.unitMagnitude);
    UntrackableIsPow2(c);
    Pow2Monotone(c.halfMagnitude + 1 + c.unitMagnitude, c.halfMagnitude + 1 + (c.unitMagnitude + (c.bucketCount - 1)));
  }

  /** How constructing a `HdrBucketConfig` goes. */
  datatype Construction =
    | Made(config: Config)
    | Thrown
      /** The search for the number of buckets goes on for ever. */
    | Endless
      /** An initialiser converts what is no 32-bit integer to one, which C++ leaves open. */
    | Undefined

  /** The logarithm of the lowest value is a number, and the sub-bucket count fits thirty-two bits. */
  predicate Initialisable(lowest: int, significantFigures: int) {
    lowest >= 1 && -323 <= significantFigures <= 8
  }

  /** `unit_magnitude + sub_bucket_half_count_magnitude` */
  function Magnitude(lowest: int, significantFigures: int): nat
    requires lowest >= 1
  {
    BitLenBounds(lowest);
    BitLen(lowest) - 1 + MagnitudeFor(significantFigures)
  }

  /**
   `HdrBucketConfig`: the initialisers come first, and only then the checks. So a magnitude that is too large does not
   get to be checked unless the highest value is negative. The unit magnitude is the floor of a base two logarithm.
   */
  method MakeConfig(lowest: int, highest: int, significantFigures: int) returns (r: Construction)
    requires INT64_MIN <= lowest < INT64_LIMIT && INT64_MIN <= highest < INT64_LIMIT
    ensures r.Undefined? <==> !Initialisable(lowest, significantFigures)
    ensures r.Endless? <==>
      Initialisable(lowest, significantFigures) && highest >= 0 && Magnitude(lowest, significantFigures) > 61
    ensures r.Made? <==>
      lowest >= 1 && 1 <= significantFigures <= 5 && lowest * 2 <= highest && Magnitude(lowest, significantFigures) <= 61
    ensures !r.Undefined? ==>
      (r.Endless? <==> !Ends(highest, Wrap64(Pow2(Magnitude(lowest, significantFigures) + 1))))
    ensures r.Made? ==>
      Good(r.config) && highest < Untrackable(r.config) && Pow10(significantFigures) <= Half(r.config)
      && Pow2(r.config.unitMagnitude) <= lowest < 2 * Pow2(r.config.unitMagnitude)
      && CoversLeast(r.config, highest)
      && Full(r.config) == Pow2(MagnitudeFor(significantFigures) + 1)
    ensures r.Made? ==>
      (AsDocumented(r.config, highest) <==>
         PowerOfTwo(highest + 1) && highest + 1 >= Pow2(Magnitude(lowest, significantFigures) + 1))
  {
    hide Wrap64, Ends, BitLen, Pow2, Pow10, Shl, AsDocumented, Untrackable, FirstEnd;
    if !Initialisable(lowest, significantFigures) {
      return Undefined;
    }
    BitLenBounds(lowest);
    var unitMagnitude, halfMagnitude := BitLen(lowest) - 1, MagnitudeFor(significantFigures);
    EndsExactly(highest, unitMagnitude + halfMagnitude + 1);
    if highest >= 0 && unitMagnitude + halfMagnitude + 1 > 62 {
      return Endless;
    }
    var n: nat := 1;
    if unitMagnitude + halfMagnitude + 1 <= 62 {
      FirstBucket(unitMagnitude, halfMagnitude);
      n := BucketsNeeded(highest, Pow2(halfMagnitude + 1), unitMagnitude);
      LastBucket(unitMagnitude, halfMagnitude, n, highest);
      if significantFigures >= 1 {
        DoubleFits(lowest, unitMagnitude);
      }
    }
    if significantFigures < 1 || significantFigures > 5 {
      return Thrown;
    }
    if Wrap64(lowest * 2) > highest {
      return Thrown;
    }
    if unitMagnitude + halfMagnitude > 61 {
      return Thrown;
    }
    TwiceHalf(unitMagnitude);
    MagnitudeIsLeast(significantFigures);
    r := Made(Config(unitMagnitude, halfMagnitude, n));
    DocumentedExactly(r.config, highest);
    FirstEndIs(r.config);
    assert halfMagnitude + 1 + unitMagnitude == Magnitude(lowest, significantFigures) + 1;
  }

  /** Twice the lowest value is a 64-bit integer unless the magnitude is too large. */
  lemma DoubleFits(lowest: nat, u: nat)
    requires lowest < Pow2(u + 1) && u <= 57
    ensures Wrap64(lowest * 2) == lowest * 2
  {
    Pow2Of63();
    Pow2Monotone(u + 1, 61);
    Pow2Monotone(61, 62);
  }

  lemma TwiceHalf(u: nat)
    ensures Pow2(u + 1) == 2 * Pow2(u)
  {
  }

  /** Arguments that pass every check but the last, for which the constructor neither returns nor throws. */
  method NeverMade() returns (lowest: int, highest: int, r: Construction)
    ensures 1 <= lowest && lowest * 2 <= highest < INT64_LIMIT && lowest == Pow2(58) && highest == Pow2(62) && r.Endless?
  {
    hide Ends;
    Pow2Of63();
    Pow2Add(4, 58);
    assert Pow2(4) == 16 && Pow2(59) == 2 * Pow2(58);
    BitLenUnique(Pow2(58), 59);
    lowest, highest := Pow2(58), Pow2(62);
    r := MakeConfig(lowest, highest, 1);
  }

  lemma FirstBucket(u: nat, m: nat)
    requires u + m <= 61
    ensures 1 <= Shl(Pow2(m + 1), u) < INT64_LIMIT
  {
    Pow2Of63();
    Pow2Add(m + 1, u);
    Pow2Monotone(m + 1 + u, 62);
  }

  lemma LastBucket(u: nat, m: nat, n: nat, highest: int)
    requires u + m <= 61 && n >= 1 && highest < INT64_LIMIT
    requires highest < Shl(Pow2(m + 1), u + (n - 1)) && (n > 1 ==> Shl(Pow2(m + 1), u + (n - 2)) <= highest)
    ensures Untrackable(Config(u, m, n)) <= INT64_LIMIT
    ensures highest >= 0 ==> CoversLeast(Config(u, m, n), highest)
  {
    Pow2Of63();
    Pow2Add(m + 1, u + (n - 1));
    if n > 1 {
      Pow2Add(m + 1, u + (n - 2));
      if m + 1 + u + (n - 2) > 62 {
        Pow2Monotone(63, m + 1 + u + (n - 2));
        assert false;
      }
    }
    Pow2Monotone(m + 1 + u + (n - 1), 63);
  }

  /**
   The end of a class is a 64-bit signed integer, unless it is the last class of a histogram whose range ends at
   2^63; computing that class's highest value goes through 2^63.
   */
  lemma NextFitsExactly(c: Config, v: nat)
    requires Good(c) && v < Untrackable(c)
    ensures NextNonEquivalent(c, v) <= INT64_LIMIT
    ensures NextNonEquivalent(c, v) == INT64_LIMIT <==> Untrackable(c) == INT64_LIMIT && IndexFor(c, v) == CountsLen(c) - 1
  {
    hide IndexFor, NextNonEquivalent, ValueAtIndex, Untrackable, CountsLen;
    ClassStaysInRange(c, v);
    HasCounterExactly(c, v);
    ClassesTile(c, v);
    IndexForValueAt(c, IndexFor(c, v) + 1);
    HasCounterExactly(c, ValueAtIndex(c, IndexFor(c, v) + 1));
  }

  lemma OneBucket(c: Config)
    requires c.bucketCount == 1 && Full(c) == Pow2(5) && Pow2(c.unitMagnitude) <= 1
    ensures Untrackable(c) <= 32
  {
    hide Full;
    assert Pow2(5) == 32;
    assert Untrackable(c) == Full(c) * Pow2(c.unitMagnitude);
  }

  lemma EndIs1024(c: Config)
    requires c.bucketCount >= 1 && Full(c) == Pow2(5) && Pow2(c.unitMagnitude) <= 1 && 1000 < Untrackable(c)
    requires c.bucketCount > 1 ==> Untrackable(c) <= 2000
    ensures Untrackable(c) == 1024
  {
    hide Full, Untrackable;
    if c.bucketCount == 1 {
      OneBucket(c);
      assert false;
    }
    UntrackableIsPow2(c);
    assert Pow2(10) == 1024;
    var k := c.halfMagnitude + 1 + (c.unitMagnitude + (c.bucketCount - 1));
    if k < 10 {
      Pow2Monotone(k, 10);
    } else if k > 10 {
      Pow2Monotone(10, k);
    }
  }

  /** Up to the greatest 64-bit integer the documentation holds, but the end of the last class is 2^63. */
  method EndsAtLimit() returns (r: Construction)
    ensures r.Made? && Good(r.config) && Untrackable(r.config) == INT64_LIMIT && AsDocumented(r.config, INT64_LIMIT - 1)
    ensures NextNonEquivalent(r.config, INT64_LIMIT - 1) == INT64_LIMIT
  {
    hide Ends, BitLen, Untrackable, NextNonEquivalent, LowestEquivalent;
    assert BitLen(1) == 1 by {
      BitLenUnique(1, 1);
    }
    r := MakeConfig(1, INT64_LIMIT - 1, 1);
    DocumentedExactly(r.config, INT64_LIMIT - 1);
    InOwnClass(r.config, INT64_LIMIT - 1);
    ClassStaysInRange(r.config, INT64_LIMIT - 1);
  }

  class Histogram {
    const config: Config
    const counts: array<int>
    var minValue: int
    var maxValue: int
    var totalCount: int
    ghost var recorded: seq<Sample>

    /** The counters are those of everything recorded, and so are the total and the extremes. */
    ghost predicate Valid()
      reads this, counts
    {
      && Good(config) && counts.Length == CountsLen(config)
      && (forall i :: 0 <= i < counts.Length ==> counts[i] == CountAt(recorded, config, i))
      && (forall j :: 0 <= j < |recorded| ==> recorded[j].value < Untrackable(config))
      && totalCount == Total(recorded)
      && minValue == SmallestNonZero(recorded) && maxValue == Largest(recorded)
    }

    constructor (config: Config)
      requires Good(config)
      ensures Valid() && recorded == [] && this.config == config && fresh(counts)
    {
      this.config := config;
      counts := new int[CountsLen(config)](_ => 0);
      minValue, maxValue, totalCount := INT64_LIMIT - 1, 0, 0;
      recorded := [];
    }

    /** Forget everything recorded. */
    method Reset()
      requires Valid()
      modifies this, counts
      ensures Valid() && recorded == []
    {
      hide IndexFor, Untrackable, CountsLen;
      minValue, maxValue, totalCount := INT64_LIMIT - 1, 0, 0;
      ClearCounts();
      recorded := [];
    }

    method ClearCounts()
      modifies counts
      ensures forall i :: 0 <= i < counts.Length ==> counts[i] == 0
    {
      for i := 0 to counts.Length
        invariant forall j :: 0 <= j < i ==> counts[j] == 0
      {
        counts[i] := 0;
      }
    }

    method CountsInc(index: nat, count: int)
      requires index < counts.Length
      modifies `totalCount, counts
      ensures counts[index] == old(counts[index]) + count && totalCount == old(totalCount) + count
      ensures forall i :: 0 <= i < counts.Length && i != index ==> counts[i] == old(counts[i])
    {
      counts[index] := counts[index] + count;
      totalCount := totalCount + count;
    }

    method UpdateMinMax(value: int)
      modifies `minValue, `maxValue
      ensures minValue == if value != 0 && value < old(minValue) then value else old(minValue)
      ensures maxValue == if value > old(maxValue) then value else old(maxValue)
    {
      if value != 0 {
        minValue := if value < minValue then value else minValue;
      }
      maxValue := if value > maxValue then value else maxValue;
    }

    /** Record `count` occurrences of `value`: accepted exactly below the end of the last bucket. */
    method RecordValues(value: int, count: int) returns (ok: bool)
      requires Valid()
      modifies this, counts
      ensures Valid() && (ok <==> Accepts(config, value))
      ensures recorded == if ok then old(recorded) + [Sample(value, count)] else old(recorded)
    {
      hide IndexFor, Untrackable, CountAt, Total, Largest, SmallestNonZero;
      if value < 0 {
        return false;
      }
      HasCounterExactly(config, value);
      var index := IndexFor(config, value);
      if index < 0 || counts.Length <= index {
        return false;
      }
      CountsInc(index, count);
      UpdateMinMax(value);
      ghost var e := Sample(value, count);
      forall i | 0 <= i < counts.Length ensures counts[i] == CountAt(recorded + [e], config, i) {
        SampleAdded(recorded, e, config, i, 0);
      }
      SampleAdded(recorded, e, config, 0, 0);
      ExtremesNext(recorded, e);
      recorded := recorded + [e];
      ok := true;
    }

    /** The total is the sum of the counters. */
    lemma TotalIsSum()
      requires Valid()
      ensures totalCount == Sum(counts[..], counts.Length)
    {
      hide IndexFor, Untrackable;
      SumIsCountBelow(counts[..], recorded, config, counts.Length);
      forall j | 0 <= j < |recorded| ensures IndexFor(config, recorded[j].value) < counts.Length {
        HasCounterExactly(config, recorded[j].value);
      }
      EverythingBelow(recorded, config, counts.Length);
    }

    /** The highest value equivalent to the greatest recorded; nought if nothing greater was. */
    method Max() returns (r: int)
      requires Valid()
      ensures (forall j :: 0 <= j < |recorded| ==> recorded[j].value == 0) ==> r == 0
      ensures (exists j :: 0 <= j < |recorded| && recorded[j].value > 0) ==>
        exists j: nat :: Greatest(recorded, j) && IsHighest(config, recorded[j].value, r)
      ensures forall j :: 0 <= j < |recorded| ==> recorded[j].value <= r
    {
      hide IndexFor, HighestEquivalent, IsLowest, IsHighest, Untrackable, CountsLen, CountAt, Total;
      LargestIs(recorded);
      ClassEnds(config, maxValue);
      if maxValue == 0 {
        return 0;
      }
      ghost var j: nat :| j < |recorded| && recorded[j].value == maxValue;
      r := HighestEquivalent(config, maxValue);
      assert Greatest(recorded, j);
    }

    /**
     With only positive counts recorded, the minimum is the lowest value equivalent to the least recorded. (A histogram
     that has seen only the greatest integer reports that.)
     */
    method Min() returns (r: int)
      requires Valid() && counts.Length > 0
      ensures recorded == [] ==> r == INT64_LIMIT - 1
      ensures Positive(recorded) ==> forall j :: 0 <= j < |recorded| ==> r <= recorded[j].value
      ensures Positive(recorded) && (exists j :: 0 <= j < |recorded| && recorded[j].value < INT64_LIMIT - 1) ==>
        exists j: nat :: Least(recorded, j) && IsLowest(config, recorded[j].value, r)
    {
      hide IndexFor, LowestEquivalent, IsLowest, IsHighest, Untrackable, CountsLen;
      if counts[0] > 0 {
        ghost var j := SampleAt(recorded, config, 0);
        LeastAtZero(j);
        return 0;
      }
      if Positive(recorded) {
        NothingAt(recorded, config, 0);
        ZeroAtIndexZero(config);
      }
      SmallestIs(recorded);
      if minValue == INT64_LIMIT - 1 {
        return minValue;
      }
      r := LowestEquivalent(config, minValue);
      ClassEnds(config, minValue);
      if Positive(recorded) {
        ghost var j: nat :| j < |recorded| && recorded[j].value == minValue;
        assert Least(recorded, j);
      }
    }

    /** If some value is counted at index nought, then so is the least. */
    lemma LeastAtZero(i: nat)
      requires i < |recorded| && IndexFor(config, recorded[i].value) == 0
      ensures exists j: nat :: Least(recorded, j) && IsLowest(config, recorded[j].value, 0)
    {
      hide IndexFor, LowestEquivalent, IsLowest, IsHighest;
      var j := SomeLeast(recorded);
      IndexMonotone(config, recorded[j].value, recorded[i].value);
      IndexNonNegative(config, recorded[j].value);
      ValueAtIndexFor(config, recorded[j].value);
      ValueAtZero(config);
      ClassEnds(config, recorded[j].value);
    }
  }

  lemma ValueAtZero(c: Config)
    ensures ValueAtIndex(c, 0) == 0
  {
    assert Times(Half(c), 0) == 0;
    ValueAtParts(c, 0, 0);
  }

  lemma ZeroAtIndexZero(c: Config)
    ensures IndexFor(c, 0) == 0
  {
    hide IndexFor;
    ValueAtZero(c);
    IndexForValueAt(c, 0);
  }

  /** With one significant figure from 1 to 1000, the last bucket ends at 1024, and 1023 is accepted. */
  method RecordsBeyondHighest() returns (h: Histogram, ok: bool)
    ensures fresh(h) && h.Valid() && ok && h.recorded == [Sample(1023, 1)]
    ensures 1000 < Untrackable(h.config) == 1024 && !AsDocumented(h.config, 1000)
  {
    hide Ends, BitLen, Untrackable;
    assert BitLen(1) == 1 by {
      BitLenUnique(1, 1);
    }
    var made := MakeConfig(1, 1000, 1);
    EndIs1024(made.config);
    DocumentedExactly(made.config, 1000);
    h := new Histogram(made.config);
    ok := h.RecordValues(1023, 1);
  }

  /** A pass over the counters, lowest index first. */
  class Iterator {
    const h: Histogram
    var countsIndex: int
    var totalCount: int
    var count: int
    var cumulativeCount: int
    var value: nat
    var highestEquivalent: int
    var lowestEquivalent: int
    var medianEquivalent: int
    var iteratedFrom: int
    var iteratedTo: int

    /** The cumulative count is the sum of the counters passed. */
    ghost predicate Valid()
      reads `countsIndex, `count, `cumulativeCount, `value, `highestEquivalent, `lowestEquivalent, `medianEquivalent
      reads h, h.counts
    {
      && h.Valid() && -1 <= countsIndex
      && (countsIndex < h.counts.Length ==> cumulativeCount == Sum(h.counts[..], countsIndex + 1))
      && (0 <= countsIndex < h.counts.Length ==> At(countsIndex))
    }

    /** The iterator shows the counter and the class of values at `i`. */
    ghost predicate At(i: nat)
      reads `count, `value, `highestEquivalent, `lowestEquivalent, `medianEquivalent, h.counts
    {
      && i < h.counts.Length && count == h.counts[i] && IndexFor(h.config, value) == i && value == lowestEquivalent
      && IsLowest(h.config, value, lowestEquivalent) && IsHighest(h.config, value, highestEquivalent)
      && medianEquivalent == (lowestEquivalent + highestEquivalent + 1) / 2
    }

    constructor (h: Histogram)
      requires h.Valid()
      ensures Valid() && this.h == h && countsIndex == -1 && cumulativeCount == 0 && totalCount == h.totalCount
    {
      this.h := h;
      countsIndex, totalCount, count, cumulativeCount, value := -1, h.totalCount, 0, 0, 0;
      highestEquivalent, lowestEquivalent, medianEquivalent, iteratedFrom, iteratedTo := 0, 0, 0, 0, 0;
    }

    /** Step to the next counter; false past the last one. */
    method MoveNext() returns (more: bool)
      requires Valid()
      modifies `countsIndex, `count, `cumulativeCount, `value, `highestEquivalent, `lowestEquivalent, `medianEquivalent
      ensures Valid() && countsIndex == old(countsIndex) + 1 && totalCount == old(totalCount)
      ensures more <==> countsIndex < h.counts.Length
      ensures more ==> At(countsIndex) && cumulativeCount == old(cumulativeCount) + count
    {
      hide IndexFor, HighestEquivalent, LowestEquivalent, MedianEquivalent, ValueAtIndex, IsLowest, IsHighest, Histogram.Valid;
      countsIndex := countsIndex + 1;
      if !(countsIndex < h.counts.Length) {
        return false;
      }
      count := h.counts[countsIndex];
      cumulativeCount := cumulativeCount + count;
      value := ValueAtIndex(h.config, countsIndex);
      highestEquivalent := HighestEquivalent(h.config, value);
      lowestEquivalent := LowestEquivalent(h.config, value);
      medianEquivalent := MedianEquivalent(h.config, value);
      IndexForValueAt(h.config, countsIndex);
      ClassEnds(h.config, value);
      MedianIs(h.config, value);
      more := true;
    }

    /** `do_next` */
    method Next() returns (more: bool)
      requires Valid()
      modifies this
      ensures Valid() && countsIndex == old(countsIndex) + 1 && totalCount == old(totalCount)
      ensures more <==> countsIndex < h.counts.Length
      ensures more ==> At(countsIndex) && cumulativeCount == old(cumulativeCount) + count
      ensures iteratedFrom == (if more then old(iteratedTo) else old(iteratedFrom))
      ensures iteratedTo == (if more then value else old(iteratedTo))
    {
      hide At, Valid;
      more := MoveNext();
      if more {
        iteratedFrom := iteratedTo;
        iteratedTo := value;
      }
    }

    /** `basic_next`: stop as soon as the cumulative count has reached the total. */
    method BasicNext() returns (more: bool)
      requires Valid()
      modifies `countsIndex, `count, `cumulativeCount, `value, `highestEquivalent, `lowestEquivalent, `medianEquivalent
      ensures Valid()
      ensures more <==> old(cumulativeCount) < totalCount && old(countsIndex) < h.counts.Length
      ensures countsIndex == old(countsIndex) + if more then 1 else 0
      ensures more && countsIndex < h.counts.Length ==> At(countsIndex) && cumulativeCount == old(cumulativeCount) + count
    {
      hide *;
      if !(cumulativeCount < totalCount) || countsIndex >= h.counts.Length {
        return false;
      }
      var moved := MoveNext();
      more := true;
    }
  }

  /**
   `value_at_percentile`, for the count the percentile stands for: the highest value equivalent to the value of
   that rank among all those recorded.
   */
  method ValueAtRank(h: Histogram, rank: int) returns (r: int)
    requires h.Valid() && rank >= 1
    ensures Counting(h.recorded) && rank <= h.totalCount ==>
      exists x: nat :: IsRank(h.recorded, rank, x) && IsHighest(h.config, x, r)
    ensures Counting(h.recorded) && rank > h.totalCount ==> r == 0
  {
    hide Histogram.Valid, HighestEquivalent, Counting, IsRank, IsLowest, IsHighest, IndexFor;
    var total := 0;
    var iter := new Iterator(h);
    ghost var a := h.counts[..];
    while true
      invariant iter.Valid() && iter.h == h && fresh(iter) && iter.countsIndex < h.counts.Length
      invariant a == h.counts[..] && total == iter.cumulativeCount == Sum(a, iter.countsIndex + 1)
      invariant forall j: nat :: j <= iter.countsIndex + 1 ==> Sum(a, j) < rank
      decreases h.counts.Length - iter.countsIndex
    {
      var more := iter.Next();
      if !more {
        break;
      }
      total := total + iter.count;
      if total >= rank {
        RankReached(h, rank, iter.countsIndex, iter.value);
        return HighestEquivalent(h.config, iter.value);
      }
    }
    RankNotReached(h, rank);
    r := 0;
  }

  lemma RankReached(h: Histogram, rank: int, i: nat, v: nat)
    requires h.Valid() && rank >= 1 && i < h.counts.Length && IndexFor(h.config, v) == i
    requires Sum(h.counts[..], i) < rank <= Sum(h.counts[..], i + 1)
    ensures Counting(h.recorded) && rank <= h.totalCount ==>
      exists x: nat :: IsRank(h.recorded, rank, x) && IsHighest(h.config, x, HighestEquivalent(h.config, v))
    ensures Counting(h.recorded) ==> rank <= h.totalCount
  {
    hide HighestEquivalent, IndexFor, Untrackable, CountsLen;
    var s, c := h.recorded, h.config;
    SumIsCountBelow(h.counts[..], s, c, i);
    SumIsCountBelow(h.counts[..], s, c, i + 1);
    if Counting(s) {
      AllIndexed(h);
      CountBelowMonotone(s, c, i + 1, h.counts.Length);
      BelowAll(s, Untrackable(c));
      var x := RankExists(s, rank, Untrackable(c));
      RankIndex(s, c, rank, x, i);
      ClassEnds(c, v);
      SameClassSameTop(c, x, v, HighestEquivalent(c, v));
    }
  }

  lemma AllIndexed(h: Histogram)
    requires h.Valid()
    ensures CountBelow(h.recorded, h.config, h.counts.Length) == h.totalCount
  {
    hide IndexFor, Untrackable;
    forall j | 0 <= j < |h.recorded| ensures IndexFor(h.config, h.recorded[j].value) < h.counts.Length {
      HasCounterExactly(h.config, h.recorded[j].value);
    }
    EverythingBelow(h.recorded, h.config, h.counts.Length);
  }

  lemma SameClassSameTop(c: Config, x: nat, v: nat, r: int)
    requires Equivalent(c, x, v) && IsHighest(c, v, r)
    ensures IsHighest(c, x, r)
  {
    hide IndexFor;
    forall y: nat | Equivalent(c, y, x) ensures y <= r {
      assert Equivalent(c, y, v);
    }
  }

  lemma RankNotReached(h: Histogram, rank: int)
    requires h.Valid() && Sum(h.counts[..], h.counts.Length) < rank
    ensures h.totalCount < rank
  {
    h.TotalIsSum();
  }
}
