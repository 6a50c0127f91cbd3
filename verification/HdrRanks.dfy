/** What was recorded, as a list of samples: how many lie at an index, below one, and below a value. */
module HdrRanks {
  import opened HdrIndex

  /** `count` recordings of `value`. */
  datatype Sample = Sample(value: nat, count: int)

  ghost function CountAt(s: seq<Sample>, c: Config, i: int): int {
    if s == [] then 0
    else CountAt(s[..|s| - 1], c, i) + if IndexFor(c, s[|s| - 1].value) == i then s[|s| - 1].count else 0
  }

  ghost function CountBelow(s: seq<Sample>, c: Config, i: int): int {
    if s == [] then 0
    else CountBelow(s[..|s| - 1], c, i) + if IndexFor(c, s[|s| - 1].value) < i then s[|s| - 1].count else 0
  }

  /** How many recordings are of values less than `x`. */
  ghost function Below(s: seq<Sample>, x: int): int {
    if s == [] then 0 else Below(s[..|s| - 1], x) + if s[|s| - 1].value < x then s[|s| - 1].count else 0
  }

  ghost function Total(s: seq<Sample>): int {
    if s == [] then 0 else Total(s[..|s| - 1]) + s[|s| - 1].count
  }

  ghost predicate Counting(s: seq<Sample>) {
    forall j :: 0 <= j < |s| ==> s[j].count >= 0
  }

  /** `x` is the `k`th smallest of the values recorded. */
  ghost predicate IsRank(s: seq<Sample>, k: int, x: nat) {
    Below(s, x) < k <= Below(s, x + 1)
  }

  function Sum(a: seq<int>, n: nat): int
    requires n <= |a|
  {
    if n == 0 then 0 else Sum(a, n - 1) + a[n - 1]
  }

  lemma SampleAdded(s: seq<Sample>, e: Sample, c: Config, i: int, x: int)
    ensures CountAt(s + [e], c, i) == CountAt(s, c, i) + if IndexFor(c, e.value) == i then e.count else 0
    ensures Total(s + [e]) == Total(s) + e.count
  {
    assert (s + [e])[..|s|] == s;
  }

  lemma {:induction false} NothingBelowZero(s: seq<Sample>, c: Config)
    ensures CountBelow(s, c, 0) == 0 && Below(s, 0) == 0
  {
    if s != [] {
      NothingBelowZero(s[..|s| - 1], c);
      IndexNonNegative(c, s[|s| - 1].value);
    }
  }

  lemma IndexNonNegative(c: Config, v: nat)
    ensures IndexFor(c, v) >= 0
  {
    hide IndexFor;
    ValueAtIndexFor(c, v);
  }

  lemma {:induction false} CountBelowNext(s: seq<Sample>, c: Config, i: int)
    ensures CountBelow(s, c, i + 1) == CountBelow(s, c, i) + CountAt(s, c, i)
  {
    hide IndexFor;
    if s != [] {
      CountBelowNext(s[..|s| - 1], c, i);
    }
  }

  /** The running sum of the counters is the number of recordings at the indices passed. */
  lemma {:induction false} SumIsCountBelow(a: seq<int>, s: seq<Sample>, c: Config, n: nat)
    requires n <= |a| && forall i :: 0 <= i < |a| ==> a[i] == CountAt(s, c, i)
    ensures Sum(a, n) == CountBelow(s, c, n)
  {
    if n == 0 {
      NothingBelowZero(s, c);
    } else {
      SumIsCountBelow(a, s, c, n - 1);
      CountBelowNext(s, c, n - 1);
    }
  }

  lemma {:induction false} EverythingBelow(s: seq<Sample>, c: Config, n: int)
    requires forall j :: 0 <= j < |s| ==> IndexFor(c, s[j].value) < n
    ensures CountBelow(s, c, n) == Total(s)
  {
    hide IndexFor;
    if s != [] {
      EverythingBelow(s[..|s| - 1], c, n);
    }
  }

  /** Recordings at lower indices are of lower values, and values up to `x` are at indices up to its own. */
  lemma {:induction false} IndicesRank(s: seq<Sample>, c: Config, x: nat)
    requires Counting(s)
    ensures CountBelow(s, c, IndexFor(c, x)) <= Below(s, x)
    ensures Below(s, x + 1) <= CountBelow(s, c, IndexFor(c, x) + 1)
  {
    hide IndexFor;
    if s != [] {
      var v := s[|s| - 1].value;
      IndicesRank(s[..|s| - 1], c, x);
      if v <= x {
        IndexMonotone(c, v, x);
      }
      if x <= v {
        IndexMonotone(c, x, v);
      }
    }
  }

  lemma {:induction false} CountBelowMonotone(s: seq<Sample>, c: Config, i: int, j: int)
    requires Counting(s) && i <= j
    ensures CountBelow(s, c, i) <= CountBelow(s, c, j)
  {
    hide IndexFor;
    if s != [] {
      CountBelowMonotone(s[..|s| - 1], c, i, j);
    }
  }

  lemma {:induction false} BelowMonotone(s: seq<Sample>, x: int, y: int)
    requires Counting(s) && x <= y
    ensures Below(s, x) <= Below(s, y)
  {
    if s != [] {
      BelowMonotone(s[..|s| - 1], x, y);
    }
  }

  lemma {:induction false} BelowAll(s: seq<Sample>, x: int)
    requires forall j :: 0 <= j < |s| ==> s[j].value < x
    ensures Below(s, x) == Total(s)
  {
    if s != [] {
      BelowAll(s[..|s| - 1], x);
    }
  }

  /** The index of the `k`th smallest value is where the counts reach `k`. */
  lemma RankIndex(s: seq<Sample>, c: Config, k: int, x: nat, i: nat)
    requires Counting(s) && IsRank(s, k, x)
    requires CountBelow(s, c, i) < k <= CountBelow(s, c, i + 1)
    ensures IndexFor(c, x) == i
  {
    hide IndexFor;
    IndicesRank(s, c, x);
    if IndexFor(c, x) < i {
      CountBelowMonotone(s, c, IndexFor(c, x) + 1, i);
    } else if IndexFor(c, x) > i {
      CountBelowMonotone(s, c, i + 1, IndexFor(c, x));
    }
  }

  /** Each rank up to the total has a value. */
  lemma {:induction false} RankExists(s: seq<Sample>, k: int, hi: nat) returns (x: nat)
    requires 1 <= k <= Below(s, hi)
    ensures IsRank(s, k, x)
    decreases hi
  {
    if hi == 0 {
      NothingBelowZero(s, Config(0, 0, 0));
      assert false;
    } else if Below(s, hi - 1) < k {
      x := hi - 1;
    } else {
      x := RankExists(s, k, hi - 1);
    }
  }

  /** And only one. */
  lemma RankUnique(s: seq<Sample>, k: int, x: nat, y: nat)
    requires Counting(s) && IsRank(s, k, x) && IsRank(s, k, y)
    ensures x == y
  {
    if x < y {
      BelowMonotone(s, x + 1, y);
    } else if y < x {
      BelowMonotone(s, y + 1, x);
    }
  }

  // ---------------------------------------------------------------- extremes

  ghost function Largest(s: seq<Sample>): nat {
    if s == [] then 0
    else var m := Largest(s[..|s| - 1]); if s[|s| - 1].value > m then s[|s| - 1].value else m
  }

  /** The least value recorded but zero; the greatest integer if there is none. */
  ghost function SmallestNonZero(s: seq<Sample>): nat {
    if s == [] then INT64_LIMIT - 1
    else
      var m, v := SmallestNonZero(s[..|s| - 1]), s[|s| - 1].value;
      if v != 0 && v < m then v else m
  }

  lemma ExtremesNext(s: seq<Sample>, e: Sample)
    ensures Largest(s + [e]) == if e.value > Largest(s) then e.value else Largest(s)
    ensures SmallestNonZero(s + [e]) == if e.value != 0 && e.value < SmallestNonZero(s) then e.value else SmallestNonZero(s)
  {
    assert (s + [e])[..|s|] == s;
  }

  lemma {:induction false} LargestIs(s: seq<Sample>)
    ensures forall j :: 0 <= j < |s| ==> s[j].value <= Largest(s)
    ensures Largest(s) > 0 ==> exists j :: 0 <= j < |s| && s[j].value == Largest(s)
  {
    if s != [] {
      var init := s[..|s| - 1];
      LargestIs(init);
      forall j | 0 <= j < |s| ensures s[j].value <= Largest(s) {
        assert j < |init| ==> s[j] == init[j];
      }
      if Largest(s) == Largest(init) && Largest(s) > 0 {
        var j :| 0 <= j < |init| && init[j].value == Largest(init);
        assert s[j].value == Largest(s);
      }
    }
  }

  lemma {:induction false} SmallestIs(s: seq<Sample>)
    requires forall j :: 0 <= j < |s| ==> s[j].value < INT64_LIMIT
    ensures forall j :: 0 <= j < |s| && s[j].value != 0 ==> SmallestNonZero(s) <= s[j].value
    ensures SmallestNonZero(s) < INT64_LIMIT - 1 ==> exists j :: 0 <= j < |s| && s[j].value == SmallestNonZero(s) != 0
  {
    if s != [] {
      var init := s[..|s| - 1];
      SmallestIs(init);
      forall j | 0 <= j < |s| && s[j].value != 0 ensures SmallestNonZero(s) <= s[j].value {
        assert j < |init| ==> s[j] == init[j];
      }
      if SmallestNonZero(s) == SmallestNonZero(init) && SmallestNonZero(s) < INT64_LIMIT - 1 {
        var j :| 0 <= j < |init| && init[j].value == SmallestNonZero(init) != 0;
        assert s[j].value == SmallestNonZero(s);
      }
    }
  }

  /** Of all values recorded, the `j`th sample's is the greatest. */
  ghost predicate Greatest(s: seq<Sample>, j: nat) {
    j < |s| && forall k :: 0 <= k < |s| ==> s[k].value <= s[j].value
  }

  /** Of all values recorded, the `j`th sample's is the least. */
  ghost predicate Least(s: seq<Sample>, j: nat) {
    j < |s| && forall k :: 0 <= k < |s| ==> s[j].value <= s[k].value
  }

  lemma {:induction false} SomeLeast(s: seq<Sample>) returns (j: nat)
    requires s != []
    ensures Least(s, j)
  {
    j := |s| - 1;
    if |s| > 1 {
      var i := SomeLeast(s[..j]);
      j := if s[i].value <= s[j].value then i else j;
    }
  }

  ghost predicate Positive(s: seq<Sample>) {
    forall j :: 0 <= j < |s| ==> s[j].count > 0
  }

  /** Some sample is at an index with a count. */
  lemma {:induction false} SampleAt(s: seq<Sample>, c: Config, i: int) returns (j: nat)
    requires CountAt(s, c, i) > 0
    ensures j < |s| && IndexFor(c, s[j].value) == i
  {
    hide IndexFor;
    j := |s| - 1;
    if IndexFor(c, s[j].value) != i {
      j := SampleAt(s[..|s| - 1], c, i);
    }
  }

  /** No sample is at an index whose positive counts add up to nothing. */
  lemma {:induction false} NothingAt(s: seq<Sample>, c: Config, i: int)
    requires Positive(s)
    ensures CountAt(s, c, i) >= 0
    ensures CountAt(s, c, i) == 0 ==> forall j :: 0 <= j < |s| ==> IndexFor(c, s[j].value) != i
  {
    hide IndexFor;
    if s != [] {
      var init := s[..|s| - 1];
      NothingAt(init, c, i);
      forall j | 0 <= j < |s| && CountAt(s, c, i) == 0 ensures IndexFor(c, s[j].value) != i {
        assert j < |init| ==> s[j] == init[j];
      }
    }
  }
}
