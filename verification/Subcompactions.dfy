/** Splitting one compaction into key ranges that run independently. */
module Subcompactions {
  import opened Wrappers
  import opened LevelFiles

  // ---- choosing the boundaries ----

  datatype RangeWithSize = RangeWithSize(start: int, limit: int, size: nat)

  ghost predicate Increasing(keys: seq<int>) {
    forall i, j :: 0 <= i < j < |keys| ==> keys[i] < keys[j]
  }

  function Sum(sizes: seq<nat>): nat {
    if sizes == [] then 0 else Sum(sizes[..|sizes| - 1]) + sizes[|sizes| - 1]
  }

  /** The data between two cut points. */
  function RangeSum(ranges: seq<RangeWithSize>, from: nat, to: nat): nat
    requires from <= to <= |ranges|
  {
    if from == to then 0 else RangeSum(ranges, from, to - 1) + ranges[to - 1].size
  }

  lemma {:induction false} RangeSumSplits(ranges: seq<RangeWithSize>, a: nat, b: nat, c: nat)
    requires a <= b <= c <= |ranges|
    ensures RangeSum(ranges, a, c) == RangeSum(ranges, a, b) + RangeSum(ranges, b, c)
  {
    if b < c { RangeSumSplits(ranges, a, b, c - 1); }
  }

  ghost predicate InRange(inputs: seq<InputFiles>, n: nat, startLevel: nat, outLevel: nat)
    requires n < |inputs|
  {
    inputs[n].files != [] && startLevel <= inputs[n].level <= outLevel
  }

  /** Level 0 gives both ends of every file; a deeper level its two ends, the output level also every start. */
  ghost predicate Offers(files: seq<File>, level: nat, outLevel: nat, i: nat, k: int)
    requires i < |files|
  {
    || (k == files[i].smallest && (level == 0 || level == outLevel || i == 0))
    || (k == files[i].largest && (level == 0 || i == |files| - 1))
  }

  /** `k` is offered by an input level between the start and the output level. */
  ghost predicate IsCandidate(inputs: seq<InputFiles>, n: nat, startLevel: nat, outLevel: nat, k: int)
    requires n < |inputs|
  {
    InRange(inputs, n, startLevel, outLevel) &&
    exists i :: 0 <= i < |inputs[n].files| && Offers(inputs[n].files, inputs[n].level, outLevel, i, k)
  }

  /** Every candidate is an end of some file of the levels in question. */
  lemma CandidatesAreFileEnds(inputs: seq<InputFiles>, n: nat, startLevel: nat, outLevel: nat, k: int)
    requires n < |inputs| && IsCandidate(inputs, n, startLevel, outLevel, k)
    ensures startLevel <= inputs[n].level <= outLevel && exists f :: f in inputs[n].files && (k == f.smallest || k == f.largest)
  {
    var i :| 0 <= i < |inputs[n].files| && Offers(inputs[n].files, inputs[n].level, outLevel, i, k);
    assert inputs[n].files[i] in inputs[n].files;
  }

  /** The candidates span every file of these levels. Both ends of level-0 files and the starts of those of the output
      level are among them. */
  lemma CandidatesSpanFiles(inputs: seq<InputFiles>, n: nat, startLevel: nat, outLevel: nat, f: File)
    requires n < |inputs| && startLevel <= inputs[n].level <= outLevel && f in inputs[n].files
    requires WellFormed(inputs[n].files) && (inputs[n].level > 0 ==> InKeyOrder(inputs[n].files))
    ensures exists k :: IsCandidate(inputs, n, startLevel, outLevel, k) && k <= f.smallest
    ensures exists k :: IsCandidate(inputs, n, startLevel, outLevel, k) && f.largest <= k
    ensures inputs[n].level == 0 || inputs[n].level == outLevel ==> IsCandidate(inputs, n, startLevel, outLevel, f.smallest)
    ensures inputs[n].level == 0 ==> IsCandidate(inputs, n, startLevel, outLevel, f.largest)
  {
    var level, files := inputs[n].level, inputs[n].files;
    var i :| 0 <= i < |files| && files[i] == f;
    assert Offers(files, level, outLevel, 0, files[0].smallest);
    assert Offers(files, level, outLevel, |files| - 1, files[|files| - 1].largest);
    assert IsCandidate(inputs, n, startLevel, outLevel, files[0].smallest);
    assert IsCandidate(inputs, n, startLevel, outLevel, files[|files| - 1].largest);
    if level == 0 {
      assert Offers(files, level, outLevel, i, f.smallest) && Offers(files, level, outLevel, i, f.largest);
      assert IsCandidate(inputs, n, startLevel, outLevel, f.smallest) && IsCandidate(inputs, n, startLevel, outLevel, f.largest);
    } else {
      assert files[0] in files && files[|files| - 1] in files;
      if level == outLevel { assert Offers(files, level, outLevel, i, f.smallest); }
    }
  }

  /** The user keys at which input files start or end, level by level. */
  method CandidateBounds(inputs: seq<InputFiles>, startLevel: nat, outLevel: nat) returns (bounds: seq<int>)
    ensures forall k :: k in bounds <==> exists n :: 0 <= n < |inputs| && IsCandidate(inputs, n, startLevel, outLevel, k)
  {
    bounds := [];
    for n := 0 to |inputs|
      invariant forall k :: k in bounds <==> exists m :: 0 <= m < n && IsCandidate(inputs, m, startLevel, outLevel, k)
    {
      var level, files := inputs[n].level, inputs[n].files;
      var added := [];
      if startLevel <= level <= outLevel && files != [] {
        added := BoundsOfLevel(level, files, outLevel);
      }
      assert forall k :: k in added <==> IsCandidate(inputs, n, startLevel, outLevel, k);
      bounds := bounds + added;
    }
  }

  method BoundsOfLevel(level: nat, files: seq<File>, outLevel: nat) returns (bounds: seq<int>)
    requires files != []
    ensures forall k :: k in bounds <==> exists i :: 0 <= i < |files| && Offers(files, level, outLevel, i, k)
  {
    if level == 0 {
      bounds := [];
      for i := 0 to |files|
        invariant forall k :: k in bounds <==> exists j :: 0 <= j < i && Offers(files, level, outLevel, j, k)
      {
        assert Offers(files, level, outLevel, i, files[i].smallest) && Offers(files, level, outLevel, i, files[i].largest);
        bounds := bounds + [files[i].smallest, files[i].largest];
      }
    } else {
      bounds := [files[0].smallest, files[|files| - 1].largest];
      assert Offers(files, level, outLevel, 0, files[0].smallest);
      assert Offers(files, level, outLevel, |files| - 1, files[|files| - 1].largest);
      if level == outLevel {
        for i := 1 to |files|
          invariant forall k :: k in bounds ==> exists j :: 0 <= j < |files| && Offers(files, level, outLevel, j, k)
          invariant files[|files| - 1].largest in bounds && forall j :: 0 <= j < i ==> files[j].smallest in bounds
        {
          assert Offers(files, level, outLevel, i, files[i].smallest);
          bounds := bounds + [files[i].smallest];
        }
      }
    }
  }

  /** `std::sort` followed by `std::unique`. */
  method SortUnique(keys: seq<int>) returns (sorted: seq<int>)
    ensures Increasing(sorted)
    ensures forall k :: k in sorted <==> k in keys
  {
    sorted := [];
    for n := 0 to |keys|
      invariant Increasing(sorted)
      invariant forall k :: k in sorted <==> k in keys[..n]
    {
      var at := 0;
      while at < |sorted| && sorted[at] < keys[n]
        invariant at <= |sorted| && forall i :: 0 <= i < at ==> sorted[i] < keys[n]
      {
        at := at + 1;
      }
      assert keys[..n + 1] == keys[..n] + [keys[n]];
      if at == |sorted| || sorted[at] != keys[n] {
        var before := sorted;
        sorted := sorted[..at] + [keys[n]] + sorted[at..];
        assert forall k :: k in sorted <==> k in before || k == keys[n] by {
          assert before == before[..at] + before[at..];
        }
      }
    }
    assert keys[..|keys|] == keys;
  }

  /** The ranges are the gaps between consecutive bounds. */
  ghost predicate Adjacent(ranges: seq<RangeWithSize>, bounds: seq<int>) {
    |ranges| == |bounds| - 1 &&
    forall i :: 0 <= i < |ranges| ==> ranges[i].start == bounds[i] && ranges[i].limit == bounds[i + 1]
  }

  ghost predicate Sized(ranges: seq<RangeWithSize>, approximateSize: (int, int) -> nat) {
    forall i :: 0 <= i < |ranges| ==> ranges[i].size == approximateSize(ranges[i].start, ranges[i].limit)
  }

  /** Consecutive boundaries with the approximate amount of data between them. */
  method MakeRanges(bounds: seq<int>, approximateSize: (int, int) -> nat) returns (ranges: seq<RangeWithSize>, sum: nat)
    requires Increasing(bounds) && bounds != []
    ensures Adjacent(ranges, bounds) && Sized(ranges, approximateSize)
    ensures sum == RangeSum(ranges, 0, |ranges|)
  {
    ranges, sum := [], 0;
    for i := 1 to |bounds|
      invariant Adjacent(ranges, bounds[..i]) && Sized(ranges, approximateSize)
      invariant sum == RangeSum(ranges, 0, |ranges|)
    {
      var size := approximateSize(bounds[i - 1], bounds[i]);
      ghost var before := ranges;
      ranges := ranges + [RangeWithSize(bounds[i - 1], bounds[i], size)];
      RangeSumPrefix(before, ranges, 0, |before|);
      sum := sum + size;
    }
    assert bounds[..|bounds|] == bounds;
  }

  lemma {:induction false} RangeSumPrefix(a: seq<RangeWithSize>, b: seq<RangeWithSize>, from: nat, to: nat)
    requires from <= to <= |a| <= |b| && a == b[..|a|]
    ensures RangeSum(a, from, to) == RangeSum(b, from, to)
  {
    if from < to { RangeSumPrefix(a, b, from, to - 1); }
  }

  /** `ceil(sum / (4/5) / maxFileSize)`: output files if each is filled to four fifths. */
  function MaxOutputFiles(sum: nat, maxFileSize: nat): (n: nat)
    requires maxFileSize > 0
    // The least number of files, each four fifths full, that hold the data.
    ensures 5 * sum <= n * (4 * maxFileSize)
    ensures n > 0 ==> (n - 1) * (4 * maxFileSize) < 5 * sum
  {
    var unit := 4 * maxFileSize;
    var n := (5 * sum + unit - 1) / unit;
    assert n * unit + (5 * sum + unit - 1) % unit == 5 * sum + unit - 1;
    assert (n - 1) * unit == n * unit - unit;
    n
  }

  /** Group `k` takes the ranges from cut `k` to the next, and ends at that cut's key. */
  ghost predicate GroupAt(ranges: seq<RangeWithSize>, boundaries: seq<int>, sizes: seq<nat>, cuts: seq<nat>, k: nat)
    requires k < |boundaries| <= |sizes| && |cuts| == |boundaries| + 1
  {
    && cuts[k] < cuts[k + 1] < |ranges|
    && boundaries[k] == ranges[cuts[k + 1] - 1].limit
    && sizes[k] == RangeSum(ranges, cuts[k], cuts[k + 1])
  }

  ghost predicate Grouping(ranges: seq<RangeWithSize>, boundaries: seq<int>, sizes: seq<nat>, cuts: seq<nat>) {
    && |cuts| == |boundaries| + 1 && cuts[0] == 0 && cuts[|boundaries|] <= |ranges|
    && |sizes| >= |boundaries|
    && (forall k :: 0 <= k < |boundaries| ==> GroupAt(ranges, boundaries, sizes, cuts, k))
  }

  /** No group could have been closed earlier: from `from` on, whatever ends before `to` is below the mean. */
  ghost predicate BelowMean(ranges: seq<RangeWithSize>, from: nat, to: nat, total: nat, n: nat) {
    forall j :: from < j < to && j <= |ranges| ==> RangeSum(ranges, from, j) * n < total
  }

  /** Group `k` ends with the first range that takes it to the mean. */
  ghost predicate GreedyAt(ranges: seq<RangeWithSize>, cuts: seq<nat>, k: nat, total: nat, n: nat)
    requires k + 1 < |cuts|
  {
    && cuts[k] <= cuts[k + 1] <= |ranges|
    && RangeSum(ranges, cuts[k], cuts[k + 1]) * n >= total
    && BelowMean(ranges, cuts[k], cuts[k + 1], total, n)
  }

  /** So does every group but the last. */
  ghost predicate Greedy(ranges: seq<RangeWithSize>, boundaries: seq<int>, cuts: seq<nat>, total: nat, n: nat) {
    && |cuts| == |boundaries| + 1
    && forall k :: 0 <= k < |boundaries| ==> GreedyAt(ranges, cuts, k, total, n)
  }

  lemma BelowMeanGrows(ranges: seq<RangeWithSize>, from: nat, to: nat, total: nat, n: nat)
    requires BelowMean(ranges, from, to, total, n) && from <= to <= |ranges|
    requires from < to ==> RangeSum(ranges, from, to) * n < total
    ensures BelowMean(ranges, from, to + 1, total, n)
  {
  }

  lemma GreedyGrows(ranges: seq<RangeWithSize>, boundaries: seq<int>, cuts: seq<nat>, total: nat, n: nat, i: nat, key: int)
    requires Greedy(ranges, boundaries, cuts, total, n) && cuts[|boundaries|] <= i < |ranges|
    requires RangeSum(ranges, cuts[|boundaries|], i + 1) * n >= total
    requires BelowMean(ranges, cuts[|boundaries|], i + 1, total, n)
    ensures Greedy(ranges, boundaries + [key], cuts + [i + 1], total, n)
  {
    var ends := cuts + [i + 1];
    forall k | 0 <= k < |boundaries| + 1
      ensures GreedyAt(ranges, ends, k, total, n)
    {
      if k < |boundaries| { assert GreedyAt(ranges, cuts, k, total, n); }
    }
  }

  /** Groups so far, their total, and the lower bound every closed group has reached. */
  ghost predicate Grouped(ranges: seq<RangeWithSize>, boundaries: seq<int>, sizes: seq<nat>, cuts: seq<nat>, total: nat, n: nat) {
    && Grouping(ranges, boundaries, sizes, cuts) && |sizes| == |boundaries|
    && Sum(sizes) == RangeSum(ranges, 0, cuts[|boundaries|])
    && (forall k :: 0 <= k < |sizes| ==> sizes[k] * n >= total)
  }

  /** Closing the open group after range `i`. */
  lemma CloseGroup(ranges: seq<RangeWithSize>, boundaries: seq<int>, sizes: seq<nat>, cuts: seq<nat>, total: nat, n: nat, i: nat)
    requires Grouped(ranges, boundaries, sizes, cuts, total, n)
    requires cuts[|boundaries|] <= i < |ranges| - 1
    requires RangeSum(ranges, cuts[|boundaries|], i + 1) * n >= total
    ensures Grouped(ranges, boundaries + [ranges[i].limit], sizes + [RangeSum(ranges, cuts[|boundaries|], i + 1)],
                    cuts + [i + 1], total, n)
  {
    var size := RangeSum(ranges, cuts[|boundaries|], i + 1);
    RangeSumSplits(ranges, 0, cuts[|boundaries|], i + 1);
    assert (sizes + [size])[..|sizes|] == sizes;
    var keys, counts, ends := boundaries + [ranges[i].limit], sizes + [size], cuts + [i + 1];
    forall k | 0 <= k < |boundaries|
      ensures GroupAt(ranges, keys, counts, ends, k)
    {
      assert GroupAt(ranges, boundaries, sizes, cuts, k);
    }
  }

  /** The last group takes everything that is left. */
  lemma CloseLastGroup(ranges: seq<RangeWithSize>, boundaries: seq<int>, sizes: seq<nat>, cuts: seq<nat>, total: nat, n: nat)
    requires Grouped(ranges, boundaries, sizes, cuts, total, n) && total == RangeSum(ranges, 0, |ranges|)
    ensures var last := RangeSum(ranges, cuts[|boundaries|], |ranges|);
            && Grouping(ranges, boundaries, sizes + [last], cuts)
            && Sum(sizes + [last]) == total
            && (forall k :: 0 <= k < |sizes| ==> (sizes + [last])[k] * n >= total)
            && cuts[|boundaries|] <= |ranges|
  {
    var last := RangeSum(ranges, cuts[|boundaries|], |ranges|);
    RangeSumSplits(ranges, 0, cuts[|boundaries|], |ranges|);
    assert (sizes + [last])[..|sizes|] == sizes;
    var counts := sizes + [last];
    forall k | 0 <= k < |boundaries|
      ensures GroupAt(ranges, boundaries, counts, cuts, k)
    {
      assert GroupAt(ranges, boundaries, sizes, cuts, k);
    }
  }

  /** Boundaries for subcompactions of similar size, and the size of each. */
  method GroupRanges(ranges: seq<RangeWithSize>, total: nat, maxSubcompactions: nat, maxFileSize: nat)
    returns (boundaries: seq<int>, sizes: seq<nat>, ghost cuts: seq<nat>)
    requires total == RangeSum(ranges, 0, |ranges|) && maxFileSize > 0
    ensures Grouping(ranges, boundaries, sizes, cuts)
    ensures |sizes| == |boundaries| + 1
    ensures sizes[|boundaries|] == RangeSum(ranges, cuts[|boundaries|], |ranges|)
    ensures Sum(sizes) == total
    ensures var n := Min(Min(|ranges|, maxSubcompactions), MaxOutputFiles(total, maxFileSize));
            |boundaries| > 0 ==> |sizes| <= n && forall k :: 0 <= k < |boundaries| ==> sizes[k] * n >= total
    // Groups are closed as soon as they reach the mean, until only one more may be opened.
    ensures var n := Min(Min(|ranges|, maxSubcompactions), MaxOutputFiles(total, maxFileSize));
            && Greedy(ranges, boundaries, cuts, total, n)
            && (|sizes| < n ==> BelowMean(ranges, cuts[|boundaries|], |ranges|, total, n))
  {
    var subcompactions := Min(Min(|ranges|, maxSubcompactions), MaxOutputFiles(total, maxFileSize));
    boundaries, sizes, cuts := [], [], [0];
    if subcompactions > 1 {
      var mean := total as real / subcompactions as real;
      ghost var n := subcompactions;
      var sum := 0;
      NothingYet(ranges, total, n);
      hide Grouped, Grouping, Sum, Greedy, BelowMean, MaxOutputFiles, RangeSum;
      RangeSumStep(ranges, 0, 0);
      for i := 0 to |ranges| - 1
        invariant Grouped(ranges, boundaries, sizes, cuts, total, n)
        invariant |cuts| == |boundaries| + 1 && |sizes| == |boundaries|
        invariant cuts[|boundaries|] <= i && sum == RangeSum(ranges, cuts[|boundaries|], i)
        invariant 1 <= subcompactions == n - |boundaries|
        invariant Greedy(ranges, boundaries, cuts, total, n)
        invariant subcompactions > 1 ==> BelowMean(ranges, cuts[|boundaries|], i + 1, total, n)
      {
        RangeSumStep(ranges, cuts[|boundaries|], i);
        sum := sum + ranges[i].size;
        if subcompactions == 1 {
          continue;
        }
        if sum as real >= mean {
          MeanReached(sum, total, n);
          CloseGroup(ranges, boundaries, sizes, cuts, total, n, i);
          GreedyGrows(ranges, boundaries, cuts, total, n, i, ranges[i].limit);
          EmptyGroup(ranges, i + 1, total, n);
          RangeSumStep(ranges, i + 1, i + 1);
          boundaries := boundaries + [ranges[i].limit];
          sizes := sizes + [sum];
          cuts := cuts + [i + 1];
          subcompactions := subcompactions - 1;
          sum := 0;
        } else {
          MeanMissed(sum, total, n);
          BelowMeanGrows(ranges, cuts[|boundaries|], i + 1, total, n);
        }
      }
      CloseLastGroup(ranges, boundaries, sizes, cuts, total, n);
      RangeSumStep(ranges, cuts[|boundaries|], |ranges| - 1);
      sizes := sizes + [sum + ranges[|ranges| - 1].size];
    } else {
      sizes := [total];
      assert sizes[..0] == [];
    }
  }

  lemma RangeSumStep(ranges: seq<RangeWithSize>, from: nat, to: nat)
    requires from <= to <= |ranges|
    ensures from == to ==> RangeSum(ranges, from, to) == 0
    ensures to < |ranges| ==> RangeSum(ranges, from, to + 1) == RangeSum(ranges, from, to) + ranges[to].size
  {
  }

  lemma MeanReached(size: nat, total: nat, n: nat)
    requires n > 0 && size as real >= total as real / n as real
    ensures size * n >= total
  {
    assert size as real * n as real >= (total as real / n as real) * n as real == total as real;
    assert (size * n) as real == size as real * n as real;
  }

  lemma MeanMissed(size: nat, total: nat, n: nat)
    requires n > 0 && (size as real) < total as real / n as real
    ensures size * n < total
  {
    assert size as real * n as real < (total as real / n as real) * n as real == total as real;
    assert (size * n) as real == size as real * n as real;
  }

  lemma NothingYet(ranges: seq<RangeWithSize>, total: nat, n: nat)
    ensures Greedy(ranges, [], [0], total, n) && BelowMean(ranges, 0, 1, total, n)
    ensures Grouped(ranges, [], [], [0], total, n)
  {
  }

  lemma EmptyGroup(ranges: seq<RangeWithSize>, from: nat, total: nat, n: nat)
    ensures BelowMean(ranges, from, from + 1, total, n)
  {
  }

  lemma CutsIncrease(ranges: seq<RangeWithSize>, boundaries: seq<int>, sizes: seq<nat>, cuts: seq<nat>, i: nat, j: nat)
    requires Grouping(ranges, boundaries, sizes, cuts) && i < j <= |boundaries|
    ensures cuts[i] < cuts[j]
    decreases j
  {
    assert GroupAt(ranges, boundaries, sizes, cuts, j - 1);
    if i < j - 1 { CutsIncrease(ranges, boundaries, sizes, cuts, i, j - 1); }
  }

  lemma BoundariesIncrease(bounds: seq<int>, ranges: seq<RangeWithSize>, boundaries: seq<int>, sizes: seq<nat>, cuts: seq<nat>)
    requires Increasing(bounds) && Adjacent(ranges, bounds) && Grouping(ranges, boundaries, sizes, cuts)
    ensures Increasing(boundaries)
    ensures forall k :: k in boundaries ==> k in bounds && bounds[0] < k < bounds[|bounds| - 1]
  {
    forall k | 0 <= k < |boundaries|
      ensures 0 < cuts[k + 1] < |bounds| - 1 && boundaries[k] == bounds[cuts[k + 1]]
    {
      assert GroupAt(ranges, boundaries, sizes, cuts, k);
    }
    forall i, j | 0 <= i < j < |boundaries|
      ensures boundaries[i] < boundaries[j]
    {
      CutsIncrease(ranges, boundaries, sizes, cuts, i + 1, j + 1);
    }
  }

  /** Boundaries are strictly increasing file bounds inside the compaction; the sizes add up. */
  method GenSubcompactionBoundaries(inputs: seq<InputFiles>, startLevel: nat, outLevel: nat,
                                    approximateSize: (int, int) -> nat, maxSubcompactions: nat, maxFileSize: nat)
    returns (boundaries: seq<int>, sizes: seq<nat>, ghost bounds: seq<int>, ghost ranges: seq<RangeWithSize>, ghost cuts: seq<nat>)
    requires maxFileSize > 0
    requires exists n :: 0 <= n < |inputs| && InRange(inputs, n, startLevel, outLevel)
    ensures Increasing(boundaries)
    ensures forall k :: k in bounds <==> exists n :: 0 <= n < |inputs| && IsCandidate(inputs, n, startLevel, outLevel, k)
    ensures Increasing(bounds) && Adjacent(ranges, bounds) && Sized(ranges, approximateSize)
    ensures forall k :: k in boundaries ==> k in bounds && bounds[0] < k < bounds[|bounds| - 1]
    ensures |sizes| == |boundaries| + 1
    ensures Sum(sizes) == RangeSum(ranges, 0, |ranges|)
    ensures |boundaries| > 0 ==> |sizes| <= maxSubcompactions
    // The groups: where they end, what they hold, and that each is closed as soon as it reaches the mean.
    ensures Grouping(ranges, boundaries, sizes, cuts)
    ensures var total := RangeSum(ranges, 0, |ranges|);
            var n := Min(Min(|ranges|, maxSubcompactions), MaxOutputFiles(total, maxFileSize));
            && Greedy(ranges, boundaries, cuts, total, n)
            && (|sizes| < n ==> BelowMean(ranges, cuts[|boundaries|], |ranges|, total, n))
  {
    var candidates := CandidateBounds(inputs, startLevel, outLevel);
    var theBounds := SortUnique(candidates);
    bounds := theBounds;
    ghost var n :| 0 <= n < |inputs| && InRange(inputs, n, startLevel, outLevel);
    assert Offers(inputs[n].files, inputs[n].level, outLevel, 0, inputs[n].files[0].smallest);
    assert IsCandidate(inputs, n, startLevel, outLevel, inputs[n].files[0].smallest);
    assert inputs[n].files[0].smallest in bounds;
    hide *;
    var theRanges, sum := MakeRanges(theBounds, approximateSize);
    ranges := theRanges;
    boundaries, sizes, cuts := GroupRanges(theRanges, sum, maxSubcompactions, maxFileSize);
    BoundariesIncrease(bounds, ranges, boundaries, sizes, cuts);
    MinBelow(|ranges|, maxSubcompactions, MaxOutputFiles(sum, maxFileSize));
  }

  lemma MinBelow(a: nat, b: nat, c: nat)
    ensures Min(Min(a, b), c) <= b
  {
  }
}
