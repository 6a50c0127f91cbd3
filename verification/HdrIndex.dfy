/**
 How a high dynamic range histogram maps values to counters: buckets that double in width, each cut into
 the same number of sub-buckets. Everything is done with shifts, masks and a count of leading zeros.
 */
module HdrIndex {
  import opened Bits

  const INT64_LIMIT: nat := 0x8000_0000_0000_0000
  const INT64_MIN: int := -0x8000_0000_0000_0000

  /**
   `unitMagnitude` is the power of two of the lowest trackable value, `halfMagnitude` that of half the number
   of sub-buckets, and `bucketCount` the number of buckets.
   */
  datatype Config = Config(unitMagnitude: nat, halfMagnitude: nat, bucketCount: nat)

  /** `sub_bucket_half_count` */
  function Half(c: Config): nat {
    Pow2(c.halfMagnitude)
  }

  /** `sub_bucket_count` */
  function Full(c: Config): nat {
    Pow2(c.halfMagnitude + 1)
  }

  /** `sub_bucket_mask` */
  function Mask(c: Config): nat {
    Shl(Full(c) - 1, c.unitMagnitude)
  }

  /** `counts_len` */
  function CountsLen(c: Config): nat {
    Times(Half(c), c.bucketCount + 1)
  }

  lemma {:induction false} TimesGrows(n: nat, a: nat, b: nat)
    requires a <= b
    ensures Times(n, a) <= Times(n, b)
  {
    if a < b {
      TimesGrows(n, a, b - 1);
    }
  }

  lemma MaskLen(c: Config)
    ensures BitLen(Mask(c)) == c.unitMagnitude + c.halfMagnitude + 1
  {
    hide BitLen;
    var u, m := c.unitMagnitude, c.halfMagnitude;
    Pow2Add(m + 1, u);
    Pow2Add(m, u);
    MaskBetween(Pow2(m), Full(c), Pow2(u));
    BitLenUnique(Mask(c), u + m + 1);
  }

  lemma MaskBetween(half: nat, full: nat, p: nat)
    requires full == 2 * half && half >= 1 && p >= 1
    ensures half * p <= (full - 1) * p < full * p
  {
    MulMonotone(half, full - 1, p);
    assert (full - 1) * p + p == full * p;
  }

  /** `get_bucket_index` */
  function BucketIndex(c: Config, v: nat): nat {
    MaskLen(c);
    BitOrLen(v, Mask(c));
    BitLen(BitOr(v, Mask(c))) - c.unitMagnitude - (c.halfMagnitude + 1)
  }

  /** Width of the sub-buckets of bucket `b`. */
  function Width(c: Config, b: nat): (w: nat)
    ensures w >= 1
  {
    Pow2(b + c.unitMagnitude)
  }

  /** Bucket zero takes every value below its end; each later bucket the next power of two's worth. */
  lemma BucketBounds(c: Config, v: nat)
    ensures v < Full(c) * Width(c, BucketIndex(c, v))
    ensures BucketIndex(c, v) > 0 ==> Half(c) * Width(c, BucketIndex(c, v)) <= v
  {
    hide BitOr, BitLen;
    MaskLen(c);
    BitOrLen(v, Mask(c));
    var b, top := BucketIndex(c, v), c.unitMagnitude + c.halfMagnitude + 1;
    Pow2Add(c.halfMagnitude + 1, b + c.unitMagnitude);
    Pow2Add(c.halfMagnitude, b + c.unitMagnitude);
    if v > 0 {
      BitLenBounds(v);
      Pow2Monotone(BitLen(v), top + b);
      if b > 0 {
        assert BitLen(v) == top + b;
        assert c.halfMagnitude + (b + c.unitMagnitude) == BitLen(v) - 1;
      }
    } else {
      BitLenZero(v);
    }
  }

  /** `get_sub_bucket_index` */
  function SubBucketIndex(c: Config, v: nat): nat {
    Shr(v, BucketIndex(c, v) + c.unitMagnitude)
  }

  /** So the sub-bucket index never reaches the sub-bucket count. */
  lemma SubBucketBounds(c: Config, v: nat)
    ensures SubBucketIndex(c, v) < Full(c) == 2 * Half(c)
    ensures BucketIndex(c, v) > 0 ==> Half(c) <= SubBucketIndex(c, v)
  {
    BucketBounds(c, v);
    var b := BucketIndex(c, v);
    DivBetween(v, Width(c, b), if b > 0 then Half(c) else 0, Full(c));
  }

  /** `counts_index` */
  function CountsIndex(c: Config, b: nat, s: nat): int {
    Shl(b + 1, c.halfMagnitude) + (s - Half(c))
  }

  /** `counts_index_for` */
  function IndexFor(c: Config, v: nat): int {
    CountsIndex(c, BucketIndex(c, v), SubBucketIndex(c, v))
  }

  /** The counters of bucket `b` start after `b` half buckets; later buckets use only their upper half. */
  lemma IndexIs(c: Config, v: nat)
    ensures IndexFor(c, v) == Times(Half(c), BucketIndex(c, v)) + SubBucketIndex(c, v)
  {
    var b := BucketIndex(c, v);
    TimesIsProduct(Half(c), b);
    assert (b + 1) * Half(c) == Half(c) * b + Half(c);
  }

  /** `value_from_index` */
  function ValueFromIndex(c: Config, b: nat, s: nat): nat {
    Shl(s, b + c.unitMagnitude)
  }

  function LowestEquivalent(c: Config, v: nat): nat {
    ValueFromIndex(c, BucketIndex(c, v), SubBucketIndex(c, v))
  }

  function SizeOfEquivalentRange(c: Config, v: nat): nat {
    var b := BucketIndex(c, v);
    var adjusted := if SubBucketIndex(c, v) >= Full(c) then b + 1 else b;
    Shl(1, c.unitMagnitude + adjusted)
  }

  function NextNonEquivalent(c: Config, v: nat): nat {
    LowestEquivalent(c, v) + SizeOfEquivalentRange(c, v)
  }

  function HighestEquivalent(c: Config, v: nat): int {
    NextNonEquivalent(c, v) - 1
  }

  function MedianEquivalent(c: Config, v: nat): nat {
    LowestEquivalent(c, v) + SizeOfEquivalentRange(c, v) / 2
  }

  /** `value_at_index` */
  function ValueAtIndex(c: Config, i: nat): nat {
    var q, r := Shr(i, c.halfMagnitude), BitAnd(i, Half(c) - 1);
    if q == 0 then ValueFromIndex(c, 0, r) else ValueFromIndex(c, q - 1, r + Half(c))
  }

  /** The adjustment for a full sub-bucket index never happens: a class is as wide as its sub-bucket. */
  lemma SizeIsWidth(c: Config, v: nat)
    ensures SubBucketIndex(c, v) < Full(c)
    ensures SizeOfEquivalentRange(c, v) == Width(c, BucketIndex(c, v))
  {
    SubBucketBounds(c, v);
    assert c.unitMagnitude + BucketIndex(c, v) == BucketIndex(c, v) + c.unitMagnitude;
  }

  /** Every value lies in its class. */
  lemma InOwnClass(c: Config, v: nat)
    ensures LowestEquivalent(c, v) <= v < NextNonEquivalent(c, v)
    ensures NextNonEquivalent(c, v) == LowestEquivalent(c, v) + Width(c, BucketIndex(c, v))
  {
    hide BucketIndex;
    SizeIsWidth(c, v);
    Quotient(v, Width(c, BucketIndex(c, v)));
  }

  // ---------------------------------------------------------------- order

  lemma {:induction false} BitLenMonotone(a: nat, b: nat)
    requires a <= b
    ensures BitLen(a) <= BitLen(b)
  {
    if a > 0 {
      BitLenMonotone(a / 2, b / 2);
    }
  }

  lemma BucketMonotone(c: Config, v: nat, v': nat)
    requires v <= v'
    ensures BucketIndex(c, v) <= BucketIndex(c, v')
  {
    hide BitOr, BitLen;
    MaskLen(c);
    BitOrLen(v, Mask(c));
    BitOrLen(v', Mask(c));
    BitLenMonotone(v, v');
  }

  lemma DivMonotone(v: nat, v': nat, w: nat)
    requires v <= v' && w > 0
    ensures v / w <= v' / w
  {
    Quotient(v, w);
    Quotient(v', w);
    if v / w > v' / w {
      MulMonotone(v' / w + 1, v / w, w);
    }
  }

  /** Greater values never get smaller indices. */
  lemma IndexMonotone(c: Config, v: nat, v': nat)
    requires v <= v'
    ensures IndexFor(c, v) <= IndexFor(c, v')
  {
    var b, b' := BucketIndex(c, v), BucketIndex(c, v');
    hide BucketIndex;
    BucketMonotone(c, v, v');
    IndexIs(c, v);
    IndexIs(c, v');
    SubBucketBounds(c, v);
    SubBucketBounds(c, v');
    if b == b' {
      DivMonotone(v, v', Width(c, b));
    } else {
      TimesGrows(Half(c), b + 1, b');
    }
  }

  // ---------------------------------------------------------------- indices and values

  /** The quotient and remainder of an index by half the sub-bucket count. */
  lemma IndexParts(c: Config, i: nat, q: nat, r: nat)
    requires i == Times(Half(c), q) + r && r < Half(c)
    ensures Shr(i, c.halfMagnitude) == q && BitAnd(i, Half(c) - 1) == r
  {
    hide BitAnd, Times;
    TimesIsProduct(Half(c), q);
    AndMask(i, c.halfMagnitude);
    ModUnique(i, Half(c), q, r);
  }

  /** The value at a value's index is the lowest value of its class. */
  lemma ValueAtIndexFor(c: Config, v: nat)
    ensures IndexFor(c, v) >= 0
    ensures ValueAtIndex(c, IndexFor(c, v)) == LowestEquivalent(c, v)
  {
    var b, s := BucketIndex(c, v), SubBucketIndex(c, v);
    hide BucketIndex, SubBucketIndex, BitAnd;
    IndexIs(c, v);
    SubBucketBounds(c, v);
    if s < Half(c) {
      IndexParts(c, IndexFor(c, v), 0, s);
    } else {
      IndexParts(c, IndexFor(c, v), b + 1, s - Half(c));
    }
  }

  /** A value built of a sub-bucket index gets that bucket and sub-bucket. */
  lemma OwnBucket(c: Config, b: nat, s: nat)
    requires s < Full(c) && (b > 0 ==> Half(c) <= s)
    ensures BucketIndex(c, ValueFromIndex(c, b, s)) == b && SubBucketIndex(c, ValueFromIndex(c, b, s)) == s
  {
    hide BitOr, BitLen, Pow2;
    var v, w, top := ValueFromIndex(c, b, s), Width(c, b), c.unitMagnitude + c.halfMagnitude + 1;
    MaskLen(c);
    BitOrLen(v, Mask(c));
    Pow2Add(c.halfMagnitude + 1, b + c.unitMagnitude);
    Pow2Add(c.halfMagnitude, b + c.unitMagnitude);
    BelowProduct(s, Full(c), w);
    if b > 0 {
      MulMonotone(Half(c), s, w);
      BitLenUnique(v, top + b);
    } else {
      BitLenAtMost(v, top);
    }
    ModUnique(v, w, s, 0);
  }

  lemma BelowProduct(s: nat, n: nat, w: nat)
    requires s < n && w >= 1
    ensures s * w < n * w
  {
    MulMonotone(s + 1, n, w);
  }

  lemma BitLenAtMost(v: nat, k: nat)
    requires v < Pow2(k)
    ensures BitLen(v) <= k
  {
    if v > 0 {
      BitLenBounds(v);
      if BitLen(v) > k {
        Pow2Monotone(k, BitLen(v) - 1);
      }
    }
  }

  /** Every index is the index of the value at it. */
  lemma IndexForValueAt(c: Config, i: nat)
    ensures IndexFor(c, ValueAtIndex(c, i)) == i
    ensures LowestEquivalent(c, ValueAtIndex(c, i)) == ValueAtIndex(c, i)
  {
    var q, r := i / Half(c), i % Half(c);
    hide BucketIndex, SubBucketIndex, BitAnd;
    Quotient(i, Half(c));
    TimesIsProduct(Half(c), q);
    IndexParts(c, i, q, r);
    var v := ValueAtIndex(c, i);
    IndexIs(c, v);
    if q == 0 {
      OwnBucket(c, 0, r);
    } else {
      OwnBucket(c, q - 1, r + Half(c));
      assert Times(Half(c), q) == Half(c) + Times(Half(c), q - 1);
    }
  }

  /** Lower index, lower value. */
  lemma ValueAtIndexMonotone(c: Config, i: nat, j: nat)
    requires i < j
    ensures ValueAtIndex(c, i) < ValueAtIndex(c, j)
  {
    hide IndexFor, ValueAtIndex;
    IndexForValueAt(c, i);
    IndexForValueAt(c, j);
    if ValueAtIndex(c, j) <= ValueAtIndex(c, i) {
      IndexMonotone(c, ValueAtIndex(c, j), ValueAtIndex(c, i));
    }
  }

  /** The classes leave no gap: a class ends where the next index's begins. */
  lemma ClassesTile(c: Config, v: nat)
    ensures IndexFor(c, v) >= 0
    ensures NextNonEquivalent(c, v) == ValueAtIndex(c, IndexFor(c, v) + 1)
  {
    var b, s := BucketIndex(c, v), SubBucketIndex(c, v);
    hide BucketIndex, SubBucketIndex, Width, ValueAtIndex, NextNonEquivalent;
    IndexIs(c, v);
    SubBucketBounds(c, v);
    NextIs(c, v);
    if s + 1 < Half(c) {
      ValueAtParts(c, 0, s + 1);
    } else if s + 1 < Full(c) {
      ValueAtParts(c, b + 1, s + 1 - Half(c));
    } else {
      ValueAtParts(c, b + 2, 0);
      WidthIs(c, b);
      assert Half(c) * (2 * Width(c, b)) == (2 * Half(c)) * Width(c, b);
    }
  }

  lemma NextIs(c: Config, v: nat)
    ensures NextNonEquivalent(c, v) == (SubBucketIndex(c, v) + 1) * Width(c, BucketIndex(c, v))
  {
    hide BucketIndex, SubBucketIndex;
    SizeIsWidth(c, v);
    var w, s := Width(c, BucketIndex(c, v)), SubBucketIndex(c, v);
    assert s * w + w == (s + 1) * w;
  }

  lemma ValueAtParts(c: Config, q: nat, r: nat)
    requires r < Half(c)
    ensures ValueAtIndex(c, Times(Half(c), q) + r) ==
            if q == 0 then r * Width(c, 0) else (r + Half(c)) * Width(c, q - 1)
  {
    hide BitAnd;
    IndexParts(c, Times(Half(c), q) + r, q, r);
  }

  lemma WidthIs(c: Config, b: nat)
    ensures Width(c, b) == Pow2(b + c.unitMagnitude)
    ensures Width(c, b + 1) == 2 * Width(c, b)
  {
    assert b + 1 + c.unitMagnitude - 1 == b + c.unitMagnitude;
  }

  /**
   Two values are equivalent when their lowest equivalent values agree, which is when they share a counter, and
   when one lies in the class of the other.
   */
  lemma EquivalentExactly(c: Config, a: nat, v: nat)
    ensures LowestEquivalent(c, a) == LowestEquivalent(c, v) <==> IndexFor(c, a) == IndexFor(c, v)
    ensures LowestEquivalent(c, v) <= a < NextNonEquivalent(c, v) <==> IndexFor(c, a) == IndexFor(c, v)
  {
    hide IndexFor, ValueAtIndex, LowestEquivalent, NextNonEquivalent;
    ValueAtIndexFor(c, a);
    ValueAtIndexFor(c, v);
    IndexForValueAt(c, IndexFor(c, a));
    IndexForValueAt(c, IndexFor(c, v));
    InOwnClass(c, a);
    InOwnClass(c, v);
    ClassesTile(c, a);
    ClassesTile(c, v);
    if IndexFor(c, a) > IndexFor(c, v) {
      ValueAtOrder(c, IndexFor(c, v) + 1, IndexFor(c, a));
    } else if IndexFor(c, a) < IndexFor(c, v) {
      ValueAtOrder(c, IndexFor(c, a) + 1, IndexFor(c, v));
    }
  }

  /** Two values share a counter. */
  predicate Equivalent(c: Config, a: nat, b: nat) {
    IndexFor(c, a) == IndexFor(c, b)
  }

  /** `r` is the least value that shares the counter of `v`. */
  ghost predicate IsLowest(c: Config, v: nat, r: int) {
    r >= 0 && Equivalent(c, r, v) && forall x: nat :: Equivalent(c, x, v) ==> r <= x
  }

  /** `r` is the greatest value that shares the counter of `v`; one more does not. */
  ghost predicate IsHighest(c: Config, v: nat, r: int) {
    && r >= 0 && Equivalent(c, r, v) && !Equivalent(c, r + 1, v)
    && forall x: nat :: Equivalent(c, x, v) ==> x <= r
  }

  /** The ends of a class are the least and the greatest value that share its counter. */
  lemma ClassEnds(c: Config, v: nat)
    ensures IsLowest(c, v, LowestEquivalent(c, v)) && IsHighest(c, v, HighestEquivalent(c, v))
    ensures LowestEquivalent(c, v) <= v <= HighestEquivalent(c, v)
  {
    hide IndexFor, LowestEquivalent, NextNonEquivalent;
    InOwnClass(c, v);
    EquivalentExactly(c, LowestEquivalent(c, v), v);
    EquivalentExactly(c, HighestEquivalent(c, v), v);
    EquivalentExactly(c, HighestEquivalent(c, v) + 1, v);
    forall x: nat | Equivalent(c, x, v) ensures LowestEquivalent(c, v) <= x <= HighestEquivalent(c, v) {
      EquivalentExactly(c, x, v);
    }
  }

  /** Half way from the least value of a class to the one behind its greatest. */
  lemma MedianIs(c: Config, v: nat)
    ensures MedianEquivalent(c, v) == (LowestEquivalent(c, v) + HighestEquivalent(c, v) + 1) / 2
    ensures LowestEquivalent(c, v) <= MedianEquivalent(c, v) <= HighestEquivalent(c, v)
  {
    hide LowestEquivalent, BucketIndex, SubBucketIndex;
    SizeIsWidth(c, v);
  }

  lemma ValueAtOrder(c: Config, i: nat, j: nat)
    requires i <= j
    ensures ValueAtIndex(c, i) <= ValueAtIndex(c, j)
  {
    if i < j {
      ValueAtIndexMonotone(c, i, j);
    }
  }

  // ---------------------------------------------------------------- the range covered

  /** The first value beyond all buckets. */
  function Untrackable(c: Config): nat
    requires c.bucketCount >= 1
  {
    Shl(Full(c), c.unitMagnitude + (c.bucketCount - 1))
  }

  /** A value has a counter exactly when it is below the end of the last bucket. */
  lemma HasCounterExactly(c: Config, v: nat)
    requires c.bucketCount >= 1
    ensures 0 <= IndexFor(c, v)
    ensures IndexFor(c, v) < CountsLen(c) <==> v < Untrackable(c)
  {
    var b, s, n := BucketIndex(c, v), SubBucketIndex(c, v), c.bucketCount;
    hide BucketIndex, SubBucketIndex, Width, IndexFor, Untrackable;
    IndexIs(c, v);
    SubBucketBounds(c, v);
    BucketBounds(c, v);
    UntrackableIs(c);
    if b < n {
      TimesGrows(Half(c), b + 1, n);
      WidthGrows(c, b, n - 1);
      MulMonotone(Width(c, b), Width(c, n - 1), Full(c));
    } else {
      TimesGrows(Half(c), n, b);
      WidthGrows(c, n, b);
      MulMonotone(Width(c, n), Width(c, b), Half(c));
    }
  }

  lemma UntrackableIs(c: Config)
    requires c.bucketCount >= 1
    ensures Untrackable(c) == Full(c) * Width(c, c.bucketCount - 1) == Half(c) * Width(c, c.bucketCount)
  {
    WidthIs(c, c.bucketCount - 1);
    var w := Width(c, c.bucketCount - 1);
    assert c.unitMagnitude + (c.bucketCount - 1) == c.bucketCount - 1 + c.unitMagnitude;
    assert Half(c) * (2 * w) == (2 * Half(c)) * w;
  }

  lemma WidthGrows(c: Config, a: nat, b: nat)
    requires a <= b
    ensures Width(c, a) <= Width(c, b)
  {
    Pow2Monotone(a + c.unitMagnitude, b + c.unitMagnitude);
  }

  /** The class of a value in range does not reach beyond the range. */
  lemma ClassStaysInRange(c: Config, v: nat)
    requires c.bucketCount >= 1 && v < Untrackable(c)
    ensures NextNonEquivalent(c, v) <= Untrackable(c)
  {
    hide IndexFor, NextNonEquivalent, LowestEquivalent;
    HasCounterExactly(c, v);
    InOwnClass(c, v);
    if NextNonEquivalent(c, v) > Untrackable(c) {
      EquivalentExactly(c, Untrackable(c), v);
      HasCounterExactly(c, Untrackable(c));
    }
  }

  // ---------------------------------------------------------------- precision

  function Pow10(n: nat): nat {
    if n == 0 then 1 else 10 * Pow10(n - 1)
  }

  /**
   From twice the wanted resolution on, classes are so narrow that their width is within the given number of
   significant figures; below, they are one unit wide.
   */
  lemma Precision(c: Config, significantFigures: nat, v: nat)
    requires Pow10(significantFigures) <= Half(c)
    ensures v >= Shl(Full(c), c.unitMagnitude) ==> SizeOfEquivalentRange(c, v) * Pow10(significantFigures) <= v
    ensures v < Shl(Full(c), c.unitMagnitude) ==> SizeOfEquivalentRange(c, v) == Pow2(c.unitMagnitude)
  {
    var b := BucketIndex(c, v);
    hide BucketIndex, SubBucketIndex, Pow10;
    SizeIsWidth(c, v);
    BucketBounds(c, v);
    WidthIs(c, 0);
    if b > 0 {
      MulMonotone(Pow10(significantFigures), Half(c), Width(c, b));
      FirstBucketEnds(c, b, v);
    }
  }

  lemma FirstBucketEnds(c: Config, b: nat, v: nat)
    requires b >= 1 && Half(c) * Width(c, b) <= v
    ensures v >= Shl(Full(c), c.unitMagnitude)
  {
    WidthGrows(c, 1, b);
    WidthIs(c, 0);
    MulMonotone(Width(c, 1), Width(c, b), Half(c));
    assert Half(c) * (2 * Width(c, 0)) == Full(c) * Width(c, 0);
  }

  /** The half-count magnitudes for up to eight significant figures. */
  function MagnitudeFor(significantFigures: int): nat {
    if significantFigures < 1 then 0
    else match significantFigures
      case 1 => 4
      case 2 => 7
      case 3 => 10
      case 4 => 14
      case 5 => 17
      case 6 => 20
      case 7 => 24
      case _ => 27
  }

  /** They are the least that give the wanted resolution. */
  lemma MagnitudeIsLeast(significantFigures: nat)
    requires 1 <= significantFigures <= 8
    ensures Pow2(MagnitudeFor(significantFigures) - 1) < Pow10(significantFigures) <= Pow2(MagnitudeFor(significantFigures))
  {
    assert Pow2(4) == 16 && Pow2(7) == 128 && Pow2(10) == 1024;
    assert Pow2(14) == 16 * Pow2(10);
    assert Pow2(17) == 8 * Pow2(14);
    assert Pow2(20) == 8 * Pow2(17);
    assert Pow2(24) == 16 * Pow2(20);
    assert Pow2(27) == 8 * Pow2(24);
  }

  // ---------------------------------------------------------------- how many buckets

  /**
   The least number of buckets that cover `value`. The running bound is doubled only while that cannot exceed a
   64-bit signed integer.
   */
  method BucketsNeeded(value: int, subBucketCount: nat, unitMagnitude: nat) returns (n: nat)
    requires value < INT64_LIMIT && 1 <= Shl(subBucketCount, unitMagnitude) < INT64_LIMIT
    ensures n >= 1 && value < Shl(subBucketCount, unitMagnitude + (n - 1))
    ensures n > 1 ==> Shl(subBucketCount, unitMagnitude + (n - 2)) <= value
  {
    var smallestUntrackable := Shl(subBucketCount, unitMagnitude);
    n := 1;
    while smallestUntrackable <= value
      invariant n >= 1 && smallestUntrackable == Shl(subBucketCount, unitMagnitude + (n - 1)) < INT64_LIMIT
      invariant smallestUntrackable >= 1
      invariant n > 1 ==> Shl(subBucketCount, unitMagnitude + (n - 2)) <= value
      decreases value + 1 - smallestUntrackable
    {
      ShlDoubles(subBucketCount, unitMagnitude + (n - 1));
      if smallestUntrackable > (INT64_LIMIT - 1) / 2 {
        return n + 1;
      }
      smallestUntrackable := Shl(smallestUntrackable, 1);
      n := n + 1;
    }
  }

  lemma ShlDoubles(s: nat, k: nat)
    ensures Shl(s, k + 1) == 2 * Shl(s, k) == Shl(Shl(s, k), 1)
  {
    assert Pow2(1) == 2;
    assert s * (2 * Pow2(k)) == 2 * (s * Pow2(k));
  }

  /** A 64-bit signed integer, in two's complement. */
  function Wrap64(x: int): int {
    (x + INT64_LIMIT) % (2 * INT64_LIMIT) - INT64_LIMIT
  }

  /** The same search one iteration at a time, with sixty-four bits. */
  datatype Search = Searching(smallestUntrackable: int, n: nat) | Found(n: nat)

  function SearchStep(value: int, s: Search): Search {
    match s
    case Found(_) => s
    case Searching(smallest, n) =>
      if smallest > value then Found(n)
      else if smallest > (INT64_LIMIT - 1) / 2 then Found(n + 1)
      else Searching(Wrap64(smallest * 2), n + 1)
  }

  function Searched(value: int, first: int, k: nat): Search {
    if k == 0 then Searching(first, 1) else SearchStep(value, Searched(value, first, k - 1))
  }

  /** The search ends. */
  ghost predicate Ends(value: int, first: int) {
    exists k: nat :: Searched(value, first, k).Found?
  }

  lemma Pow2Of63()
    ensures Pow2(62) == INT64_LIMIT / 2 && Pow2(63) == INT64_LIMIT && Pow2(64) == 2 * INT64_LIMIT
  {
    assert Pow2(15) == 32768;
    Pow2Add(15, 16);
    assert Pow2(16) == 2 * Pow2(15);
    Pow2Add(31, 31);
  }

  /** Where the bound starts out: beyond 62 bits it wraps to the least integer, or to nought. */
  lemma FirstBound(magnitude: nat)
    ensures Wrap64(Pow2(magnitude)) ==
            if magnitude <= 62 then Pow2(magnitude) else if magnitude == 63 then INT64_MIN else 0
  {
    hide Pow2;
    Pow2Of63();
    if magnitude <= 62 {
      Pow2Monotone(magnitude, 62);
    } else if magnitude > 63 {
      Pow2Add(64, magnitude - 64);
      WrapsToZero(Pow2(magnitude - 64));
    }
  }

  lemma WrapsToZero(n: nat)
    ensures Wrap64(2 * INT64_LIMIT * n) == 0
  {
    ModUnique(2 * INT64_LIMIT * n + INT64_LIMIT, 2 * INT64_LIMIT, n, INT64_LIMIT);
  }

  /** Doubling nought gets nowhere. */
  lemma {:induction false} StuckAtZero(value: int, first: int, k: nat)
    requires value >= 0 && (first == 0 || first == INT64_MIN)
    ensures Searched(value, first, k).Searching?
    ensures k > 0 || first == 0 ==> Searched(value, first, k).smallestUntrackable == 0
  {
    if k > 0 {
      StuckAtZero(value, first, k - 1);
    }
  }

  lemma {:induction false} EndsFrom(value: int, first: int, k: nat)
    requires value < INT64_LIMIT && Searched(value, first, k).Searching?
    requires 0 < Searched(value, first, k).smallestUntrackable < INT64_LIMIT
    ensures Ends(value, first)
    decreases INT64_LIMIT - Searched(value, first, k).smallestUntrackable
  {
    var s := Searched(value, first, k);
    var next := Searched(value, first, k + 1);
    assert next == SearchStep(value, s);
    if next.Searching? {
      EndsFrom(value, first, k + 1);
    }
  }

  /** For a value that is not negative, the search ends if and only if the first bound fits sixty-four bits. */
  lemma EndsExactly(value: int, magnitude: nat)
    requires value < INT64_LIMIT
    ensures Ends(value, Wrap64(Pow2(magnitude))) <==> magnitude <= 62 || value < 0
  {
    hide Wrap64;
    var first := Wrap64(Pow2(magnitude));
    FirstBound(magnitude);
    if magnitude <= 62 {
      Pow2Of63();
      Pow2Monotone(magnitude, 62);
      assert Searched(value, first, 0) == Searching(first, 1);
      EndsFrom(value, first, 0);
    } else if value >= 0 {
      forall k: nat ensures Searched(value, first, k).Searching? {
        StuckAtZero(value, first, k);
      }
    } else {
      EndsBelowZero(value, first);
    }
  }

  lemma EndsBelowZero(value: int, first: int)
    requires value < 0 && (first == 0 || first == INT64_MIN)
    ensures Ends(value, first)
  {
    assert Searched(value, first, 0) == Searching(first, 1);
    assert Searched(value, first, 1) == SearchStep(value, Searching(first, 1));
    assert Searched(value, first, 2) == SearchStep(value, Searched(value, first, 1));
    assert Searched(value, first, 2).Found?;
  }
}
