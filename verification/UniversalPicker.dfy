/** Universal compaction: sorted runs, and the pick that reduces their number. */
module UniversalPicker {
  import opened Wrappers
  import opened LevelFiles

  /** A file of level 0, or all files of a deeper level. */
  datatype SortedRun = SortedRun(level: nat, file: Option<File>, size: nat, compensatedSize: nat, beingCompacted: bool)

  predicate AnyBusy(files: seq<File>, marks: set<File>) {
    exists i :: 0 <= i < |files| && files[i] in marks
  }

  /** What holds of the files of a level unless trivial moves are allowed: all or none are being compacted. */
  ghost predicate SharedFlag(files: seq<File>, marks: set<File>) {
    forall i, j :: 0 <= i < |files| && 0 <= j < |files| ==> (files[i] in marks <==> files[j] in marks)
  }

  function FileRun(f: File, marks: set<File>): SortedRun {
    SortedRun(0, Some(f), f.size, f.compensatedSize, f in marks)
  }

  function LevelRun(level: nat, files: seq<File>, marks: set<File>): SortedRun {
    SortedRun(level, None, TotalSize(files), TotalCompensated(files), AnyBusy(files, marks))
  }

  /** The runs of levels 1 to `n` - 1; a level without any size is no run. */
  function DeepRuns(levels: Levels, n: nat, marks: set<File>): seq<SortedRun>
    requires n <= |levels|
  {
    if n <= 1 then []
    else DeepRuns(levels, n - 1, marks) + if TotalCompensated(levels[n - 1]) > 0 then [LevelRun(n - 1, levels[n - 1], marks)] else []
  }

  function FileRuns(files: seq<File>, marks: set<File>): seq<SortedRun> {
    seq(|files|, i requires 0 <= i < |files| => FileRun(files[i], marks))
  }

  function SortedRuns(levels: Levels, marks: set<File>): seq<SortedRun>
    requires levels != []
  {
    FileRuns(levels[0], marks) + DeepRuns(levels, |levels|, marks)
  }

  /** One pass over the files of a level. */
  method SumLevel(level: nat, files: seq<File>, marks: set<File>, allowTrivialMove: bool) returns (run: SortedRun)
    requires allowTrivialMove || SharedFlag(files, marks)
    ensures run == LevelRun(level, files, marks)
  {
    var totalCompensatedSize, totalSize := 0, 0;
    var beingCompacted, isFirst := false, true;
    for i := 0 to |files|
      invariant totalSize == TotalSize(files[..i]) && totalCompensatedSize == TotalCompensated(files[..i])
      invariant isFirst == (i == 0)
      invariant beingCompacted == AnyBusy(files[..i], marks)
    {
      var f := files[i];
      assert files[..i + 1][..i] == files[..i] && files[..i + 1][i] == f;
      totalCompensatedSize := totalCompensatedSize + f.compensatedSize;
      totalSize := totalSize + f.size;
      if allowTrivialMove {
        if f in marks {
          beingCompacted := true;
        }
      } else {
        assert i > 0 ==> (files[..i][0] in marks <==> f in marks);
        assert isFirst || (f in marks <==> beingCompacted);
      }
      if isFirst {
        beingCompacted, isFirst := f in marks, false;
      }
      assert AnyBusy(files[..i + 1], marks) <==> AnyBusy(files[..i], marks) || f in marks by {
        assert forall k :: 0 <= k < i ==> files[..i + 1][k] == files[..i][k];
      }
    }
    assert files[..|files|] == files;
    run := SortedRun(level, None, totalSize, totalCompensatedSize, beingCompacted);
  }

  method CalculateSortedRuns(levels: Levels, marks: set<File>, allowTrivialMove: bool) returns (runs: seq<SortedRun>)
    requires levels != []
    requires allowTrivialMove || forall l :: 0 < l < |levels| ==> SharedFlag(levels[l], marks)
    ensures runs == SortedRuns(levels, marks) && |runs| >= |levels[0]|
    ensures forall i :: 0 <= i < |levels[0]| ==>
              var f := levels[0][i]; runs[i] == SortedRun(0, Some(f), f.size, f.compensatedSize, f in marks)
  {
    runs := [];
    for i := 0 to |levels[0]|
      invariant runs == FileRuns(levels[0], marks)[..i]
    {
      runs := runs + [FileRun(levels[0][i], marks)];
    }
    for level := 1 to |levels|
      invariant runs == FileRuns(levels[0], marks) + DeepRuns(levels, level, marks)
    {
      var run := SumLevel(level, levels[level], marks, allowTrivialMove);
      if run.compensatedSize > 0 {
        runs := runs + [run];
      }
    }
  }

  /** Newer runs first: level 0, then each deeper level at most once, in order. */
  ghost predicate InAgeOrder(runs: seq<SortedRun>) {
    forall i, j :: 0 <= i < j < |runs| ==> runs[i].level < runs[j].level || (runs[i].level == 0 && runs[j].level == 0)
  }

  lemma {:induction false} DeepRunsAreOrdered(levels: Levels, marks: set<File>, n: nat)
    requires n <= |levels|
    ensures forall i :: 0 <= i < |DeepRuns(levels, n, marks)| ==>
      var r := DeepRuns(levels, n, marks)[i]; 0 < r.level < n && r == LevelRun(r.level, levels[r.level], marks) && r.compensatedSize > 0
    ensures forall i, j :: 0 <= i < j < |DeepRuns(levels, n, marks)| ==> DeepRuns(levels, n, marks)[i].level < DeepRuns(levels, n, marks)[j].level
    ensures forall l :: 0 < l < n && TotalCompensated(levels[l]) > 0 ==> LevelRun(l, levels[l], marks) in DeepRuns(levels, n, marks)
  {
    if n > 1 {
      DeepRunsAreOrdered(levels, marks, n - 1);
      forall l | 0 < l < n && TotalCompensated(levels[l]) > 0 ensures LevelRun(l, levels[l], marks) in DeepRuns(levels, n, marks) {
        if l < n - 1 {
          assert LevelRun(l, levels[l], marks) in DeepRuns(levels, n - 1, marks);
        } else {
          assert DeepRuns(levels, n, marks)[|DeepRuns(levels, n, marks)| - 1] == LevelRun(l, levels[l], marks);
        }
      }
    }
  }

  lemma SortedRunsAreInAgeOrder(levels: Levels, marks: set<File>)
    requires levels != []
    ensures InAgeOrder(SortedRuns(levels, marks))
    ensures forall i :: 0 <= i < |SortedRuns(levels, marks)| ==> SortedRuns(levels, marks)[i].level < |levels|
  {
    DeepRunsAreOrdered(levels, marks, |levels|);
  }

  // ---- picking ----

  datatype Options = Options(minMergeWidth: nat, maxMergeWidth: nat, maxFiles: nat, ratio: nat, similarSize: bool) {
    function MinWidth(): nat {
      if minMergeWidth < 2 then 2 else minMergeWidth
    }

    function MaxWidth(): nat {
      if maxMergeWidth < maxFiles then maxMergeWidth else maxFiles
    }
  }

  /** What the next run is measured against: all runs of the block so far, or its last one. */
  function CandidateSize(runs: seq<SortedRun>, start: nat, end: nat, o: Options): nat
    requires start < end <= |runs|
  {
    if o.similarSize || end == start + 1 then runs[end - 1].compensatedSize
    else CandidateSize(runs, start, end - 1, o) + runs[end - 1].compensatedSize
  }

  /** `a`, increased by the allowed percentage, is smaller than `b`. */
  predicate Outgrown(a: nat, b: nat, ratio: nat) {
    a * (100 + ratio) < b * 100
  }

  /** Run `j` may extend the block that begins at `start` and ends just before it. */
  predicate Joins(runs: seq<SortedRun>, start: nat, j: nat, o: Options)
    requires start < j < |runs|
  {
    var size := CandidateSize(runs, start, j, o);
    && !runs[j].beingCompacted
    && !Outgrown(size, runs[j].size, o.ratio)
    && (o.similarSize ==> !Outgrown(runs[j].size, size, o.ratio))
  }

  /** The source's comparison, over the reals. */
  lemma OutgrownMeans(a: nat, b: nat, ratio: nat)
    ensures Outgrown(a, b, ratio) <==> a as real * (100.0 + ratio as real) / 100.0 < b as real
  {
    assert (a * (100 + ratio)) as real == a as real * (100.0 + ratio as real);
  }

  /** What runs `from` to `end` - 1 weigh together. */
  ghost function Weight(runs: seq<SortedRun>, from: nat, end: nat): nat
    requires from <= end <= |runs|
    decreases end - from
  {
    if from == end then 0 else runs[from].compensatedSize + Weight(runs, from + 1, end)
  }

  lemma {:induction false} WeightStep(runs: seq<SortedRun>, from: nat, end: nat)
    requires from <= end < |runs|
    ensures Weight(runs, from, end + 1) == Weight(runs, from, end) + runs[end].compensatedSize
    decreases end - from
  {
    if from < end { WeightStep(runs, from + 1, end); }
  }

  lemma {:induction false} CandidateSizeIsWeight(runs: seq<SortedRun>, start: nat, end: nat, o: Options)
    requires start < end <= |runs| && !o.similarSize
    ensures CandidateSize(runs, start, end, o) == Weight(runs, start, end)
  {
    if end > start + 1 {
      CandidateSizeIsWeight(runs, start, end - 1, o);
      WeightStep(runs, start, end - 1);
    } else {
      WeightStep(runs, start, start);
    }
  }

  /** A block is balanced: no run in it is larger, by more than the ratio, than what goes before it: all of it
      together, or with similar sizes asked for the run just before, and then not much smaller either. */
  lemma BlockIsBalanced(runs: seq<SortedRun>, start: nat, n: nat, o: Options, j: nat)
    requires Block(runs, start, n, o) && start < j < start + n
    ensures !o.similarSize ==> runs[j].size * 100 <= Weight(runs, start, j) * (100 + o.ratio)
    ensures o.similarSize ==> runs[j].size * 100 <= runs[j - 1].compensatedSize * (100 + o.ratio)
    ensures o.similarSize ==> runs[j - 1].compensatedSize * 100 <= runs[j].size * (100 + o.ratio)
  {
    assert Joins(runs, start, j, o);
    if !o.similarSize { CandidateSizeIsWeight(runs, start, j, o); }
  }

  /** Of two idle neighbours the older is larger by more than the ratio, or, with similar sizes asked for, smaller. */
  ghost predicate FarApart(newer: SortedRun, older: SortedRun, o: Options) {
    || newer.compensatedSize * (100 + o.ratio) < older.size * 100
    || (o.similarSize && older.size * (100 + o.ratio) < newer.compensatedSize * 100)
  }

  /** If pairs may be merged and none is found, all idle neighbours are far apart. */
  lemma NothingToPick(runs: seq<SortedRun>, o: Options, i: nat)
    requires NoneBefore(runs, |runs|, o) && o.minMergeWidth <= 2 <= o.maxMergeWidth && 2 <= o.maxFiles
    requires i + 1 < |runs| && !runs[i].beingCompacted && !runs[i + 1].beingCompacted
    ensures FarApart(runs[i], runs[i + 1], o)
  {
    if !FarApart(runs[i], runs[i + 1], o) {
      assert CandidateSize(runs, i, i + 1, o) == runs[i].compensatedSize;
      assert Joins(runs, i, i + 1, o);
      var n := Widest(runs, i, 2, o);
      assert false;
    }
  }

  /** A block extends to a full one. */
  lemma {:induction false} Widest(runs: seq<SortedRun>, start: nat, n: nat, o: Options) returns (m: nat)
    requires Block(runs, start, n, o) && n <= o.MaxWidth()
    ensures FullBlock(runs, start, m, o) && n <= m
    decreases |runs| - n
  {
    if n >= o.MaxWidth() || start + n == |runs| || !Joins(runs, start, start + n, o) {
      m := n;
    } else {
      m := Widest(runs, start, n + 1, o);
    }
  }

  /** A block of idle runs, each joining those before it. */
  ghost predicate Block(runs: seq<SortedRun>, start: nat, n: nat, o: Options) {
    && n > 0 && start + n <= |runs| && !runs[start].beingCompacted
    && forall j :: start < j < start + n ==> Joins(runs, start, j, o)
  }

  /** A block that could not be extended, or must not be. */
  ghost predicate FullBlock(runs: seq<SortedRun>, start: nat, n: nat, o: Options) {
    && Block(runs, start, n, o) && (n == 1 || n <= o.MaxWidth())
    && (n >= o.MaxWidth() || start + n == |runs| || !Joins(runs, start, start + n, o))
  }

  lemma BlockIsIdle(runs: seq<SortedRun>, start: nat, n: nat, o: Options)
    requires Block(runs, start, n, o)
    ensures forall i :: start <= i < start + n ==> !runs[i].beingCompacted
  {
    forall i | start < i < start + n ensures !runs[i].beingCompacted {
      assert Joins(runs, start, i, o);
    }
  }

  lemma FullBlockIsUnique(runs: seq<SortedRun>, start: nat, n: nat, m: nat, o: Options)
    requires FullBlock(runs, start, n, o) && FullBlock(runs, start, m, o)
    ensures n == m
  {
  }

  /** No block that begins before `end` is wide enough. */
  ghost predicate NoneBefore(runs: seq<SortedRun>, end: nat, o: Options) {
    forall s: nat, n: nat :: s < end && FullBlock(runs, s, n, o) ==> n < o.MinWidth()
  }

  method GrowBlock(runs: seq<SortedRun>, start: nat, o: Options) returns (candidateCount: nat)
    requires start < |runs| && !runs[start].beingCompacted
    ensures FullBlock(runs, start, candidateCount, o)
  {
    candidateCount := 1;
    var candidateSize := runs[start].compensatedSize;
    var i := start + 1;
    while candidateCount < o.MaxWidth() && i < |runs|
      invariant i == start + candidateCount <= |runs|
      invariant Block(runs, start, candidateCount, o) && (candidateCount == 1 || candidateCount <= o.MaxWidth())
      invariant candidateSize == CandidateSize(runs, start, i, o)
    {
      var succeeding := runs[i];
      if succeeding.beingCompacted {
        break;
      }
      if Outgrown(candidateSize, succeeding.size, o.ratio) {
        break;
      }
      if o.similarSize {
        if Outgrown(succeeding.size, candidateSize, o.ratio) {
          break;
        }
        candidateSize := succeeding.compensatedSize;
      } else {
        candidateSize := candidateSize + succeeding.compensatedSize;
      }
      candidateCount := candidateCount + 1;
      i := i + 1;
    }
  }

  /** The widest block of the first start where it is wide enough. */
  method FindBlock(runs: seq<SortedRun>, o: Options) returns (done: bool, startIndex: nat, candidateCount: nat)
    ensures done ==> FullBlock(runs, startIndex, candidateCount, o) && o.MinWidth() <= candidateCount <= o.MaxWidth()
    ensures NoneBefore(runs, if done then startIndex else |runs|, o)
  {
    done, startIndex, candidateCount := false, 0, 0;
    var loop := 0;
    while loop < |runs|
      invariant NoneBefore(runs, loop, o)
      decreases |runs| - loop
    {
      candidateCount := 0;
      while loop < |runs|
        invariant NoneBefore(runs, loop, o)
      {
        if !runs[loop].beingCompacted {
          candidateCount := 1;
          break;
        }
        loop := loop + 1;
      }
      if candidateCount == 1 {
        candidateCount := GrowBlock(runs, loop, o);
        if candidateCount >= o.MinWidth() {
          startIndex, done := loop, true;
          break;
        }
        forall n: nat | FullBlock(runs, loop, n, o) ensures n < o.MinWidth() {
          FullBlockIsUnique(runs, loop, n, candidateCount, o);
        }
      }
      loop := loop + 1;
    }
  }

  // ---- where the result goes ----

  /** The level just above the first older run, level 0 above a level-0 run, the last level if none is older. */
  function OutputLevel(runs: seq<SortedRun>, firstIndexAfter: nat, numLevels: nat): int
    requires firstIndexAfter <= |runs|
  {
    if firstIndexAfter == |runs| then numLevels - 1
    else if runs[firstIndexAfter].level == 0 then 0
    else runs[firstIndexAfter].level - 1
  }

  /** Every newer run stays above the result and every older one below it, or in level 0 beside it. */
  ghost predicate Between(runs: seq<SortedRun>, start: nat, end: nat, out: int) {
    && (forall i :: 0 <= i < start && i < |runs| ==> runs[i].level < out || runs[i].level == 0)
    && (forall i :: start <= i < end && i < |runs| ==> runs[i].level <= out)
    && (forall i :: end <= i < |runs| ==> out < runs[i].level || (runs[i].level == 0 && out == 0))
  }

  lemma OutputIsBetween(runs: seq<SortedRun>, start: nat, end: nat, numLevels: nat)
    requires InAgeOrder(runs) && start < end <= |runs| && forall i :: 0 <= i < |runs| ==> runs[i].level < numLevels
    ensures 0 <= OutputLevel(runs, end, numLevels) < numLevels
    ensures Between(runs, start, end, OutputLevel(runs, end, numLevels))
  {
    assert runs[start].level < numLevels;
    assert forall i :: 0 <= i < start ==> runs[i].level < runs[start].level || runs[i].level == 0;
    if end < |runs| {
      assert forall i :: 0 <= i < end ==> runs[i].level < runs[end].level || runs[end].level == 0;
      assert forall i :: end < i < |runs| ==> runs[end].level < runs[i].level || runs[i].level == 0;
    }
  }

  /** No deeper level would do. */
  lemma OutputIsDeepest(runs: seq<SortedRun>, start: nat, end: nat, numLevels: nat, out: int)
    requires InAgeOrder(runs) && start < end <= |runs|
    requires out < numLevels && Between(runs, start, end, out)
    ensures out <= OutputLevel(runs, end, numLevels)
  {
  }

  lemma OutputKeepsAgeOrder(levels: Levels, marks: set<File>, start: nat, end: nat)
    requires levels != [] && start < end <= |SortedRuns(levels, marks)|
    ensures 0 <= OutputLevel(SortedRuns(levels, marks), end, |levels|) < |levels|
    ensures Between(SortedRuns(levels, marks), start, end, OutputLevel(SortedRuns(levels, marks), end, |levels|))
  {
    SortedRunsAreInAgeOrder(levels, marks);
    hide SortedRuns;
    OutputIsBetween(SortedRuns(levels, marks), start, end, |levels|);
  }

  lemma SizedLevelIsInOrder(levels: Levels, marks: set<File>, start: nat, end: nat, l: nat)
    requires levels != [] && start < end <= |SortedRuns(levels, marks)|
    requires 0 < l < |levels| && TotalCompensated(levels[l]) > 0 && l <= OutputLevel(SortedRuns(levels, marks), end, |levels|)
    ensures LevelRun(l, levels[l], marks) in SortedRuns(levels, marks)[..end]
  {
    var runs := SortedRuns(levels, marks);
    OutputKeepsAgeOrder(levels, marks, start, end);
    DeepRunsAreOrdered(levels, marks, |levels|);
    assert LevelRun(l, levels[l], marks) in DeepRuns(levels, |levels|, marks);
    var k :| 0 <= k < |DeepRuns(levels, |levels|, marks)| && DeepRuns(levels, |levels|, marks)[k] == LevelRun(l, levels[l], marks);
    var i := |levels[0]| + k;
    assert runs[i] == LevelRun(l, levels[l], marks);
    hide SortedRuns;
    assert i < end;
    assert runs[..end][i] == runs[i];
  }

  lemma RunHasSize(levels: Levels, marks: set<File>, l: nat, i: nat)
    requires levels != [] && i < |SortedRuns(levels, marks)| && l < |levels|
    requires SortedRuns(levels, marks)[i] == LevelRun(l, levels[l], marks)
    ensures TotalCompensated(levels[l]) > 0
  {
    DeepRunsAreOrdered(levels, marks, |levels|);
  }

  /** A level down to the output level was picked or is newer exactly when its files have some size. */
  lemma LevelIsInOrderIff(levels: Levels, marks: set<File>, start: nat, end: nat, l: nat)
    requires levels != [] && start < end <= |SortedRuns(levels, marks)|
    requires 0 < l < |levels| && l <= OutputLevel(SortedRuns(levels, marks), end, |levels|)
    ensures LevelRun(l, levels[l], marks) in SortedRuns(levels, marks)[..end] <==> TotalCompensated(levels[l]) > 0
  {
    hide SortedRuns, OutputLevel, LevelRun;
    if TotalCompensated(levels[l]) > 0 { SizedLevelIsInOrder(levels, marks, start, end, l); }
    forall i | 0 <= i < end && SortedRuns(levels, marks)[i] == LevelRun(l, levels[l], marks)
      ensures TotalCompensated(levels[l]) > 0
    {
      RunHasSize(levels, marks, l, i);
    }
  }

  /**
   * Age order holds for the files, that is, outside the picked runs no file of levels 1 to the output level is
   * older than what was picked, exactly when each of those levels that has files also has some size.
   */
  lemma FilesStayInAgeOrder(levels: Levels, marks: set<File>, start: nat, end: nat)
    requires levels != [] && start < end <= |SortedRuns(levels, marks)|
    ensures var out := OutputLevel(SortedRuns(levels, marks), end, |levels|);
            (forall l :: 0 < l < |levels| && l <= out && levels[l] != [] ==> LevelRun(l, levels[l], marks) in SortedRuns(levels, marks)[..end]) <==>
            (forall l :: 0 < l < |levels| && l <= out && levels[l] != [] ==> TotalCompensated(levels[l]) > 0)
  {
    hide SortedRuns, OutputLevel;
    forall l | 0 < l < |levels| && l <= OutputLevel(SortedRuns(levels, marks), end, |levels|)
      ensures LevelRun(l, levels[l], marks) in SortedRuns(levels, marks)[..end] <==> TotalCompensated(levels[l]) > 0
    {
      LevelIsInOrderIff(levels, marks, start, end, l);
    }
  }

  /** `ComputeCompensatedSizes`: a new file counts for its size, and more when deletions prevail in it. */
  function CompensatedSize(size: nat, entries: nat, deletions: nat, averageValueSize: nat): (compensated: nat)
    ensures compensated >= size
    ensures compensated == size <==> deletions * 2 <= entries || averageValueSize == 0
  {
    if deletions * 2 >= entries then size + (deletions * 2 - entries) * averageValueSize * DELETION_WEIGHT else size
  }

  // kDeletionWeightOnCompaction
  const DELETION_WEIGHT := 2

  /** No table file is empty, and none counts for less than its size. */
  ghost predicate Sized(levels: Levels) {
    forall l, f :: 0 <= l < |levels| && f in levels[l] ==> 0 < f.size <= f.compensatedSize
  }

  lemma {:induction false} SizedTotal(files: seq<File>)
    requires forall f :: f in files ==> 0 < f.size <= f.compensatedSize
    ensures TotalSize(files) <= TotalCompensated(files) && (files != [] ==> TotalSize(files) > 0)
  {
    if files != [] {
      var n := |files| - 1;
      assert forall f :: f in files[..n] ==> f in files;
      assert files[n] in files;
      SizedTotal(files[..n]);
    }
  }

  /**
   * With the sizes files have, every run has some size, as its constructor asserts, and no file of levels 1 to the
   * output level outside the picked runs is older than what was picked.
   */
  lemma SizedFilesStayInAgeOrder(levels: Levels, marks: set<File>, start: nat, end: nat)
    requires levels != [] && Sized(levels) && start < end <= |SortedRuns(levels, marks)|
    ensures forall i :: 0 <= i < |SortedRuns(levels, marks)| ==> SortedRuns(levels, marks)[i].compensatedSize > 0
    ensures forall l :: 0 < l < |levels| && l <= OutputLevel(SortedRuns(levels, marks), end, |levels|) && levels[l] != [] ==>
              LevelRun(l, levels[l], marks) in SortedRuns(levels, marks)[..end]
  {
    DeepRunsAreOrdered(levels, marks, |levels|);
    forall i | 0 <= i < |levels[0]|
      ensures SortedRuns(levels, marks)[i].compensatedSize > 0
    {
      assert levels[0][i] in levels[0];
    }
    FilesStayInAgeOrder(levels, marks, start, end);
    hide SortedRuns, OutputLevel, LevelRun;
    forall l | 0 < l < |levels| && levels[l] != []
      ensures TotalCompensated(levels[l]) > 0
    {
      SizedTotal(levels[l]);
    }
  }

  /** Sizes matter: a level whose files had no size would be no run, and the result could go below it. */
  lemma ZeroSizedLevelIsOvertaken(a: File, b: File, z: File, marks: set<File>)
    requires z.compensatedSize == 0
    ensures SortedRuns([[a, b], [z], []], marks) == [FileRun(a, marks), FileRun(b, marks)]
    ensures OutputLevel(SortedRuns([[a, b], [z], []], marks), 2, 3) == 2
  {
    var levels := [[a, b], [z], []];
    assert TotalCompensated([z]) == 0 && TotalCompensated([]) == 0;
    assert TotalCompensated(levels[1]) == 0 && TotalCompensated(levels[2]) == 0;
    assert DeepRuns(levels, 2, marks) == DeepRuns(levels, 1, marks) + [];
    assert DeepRuns(levels, 3, marks) == DeepRuns(levels, 2, marks) + [];
    assert FileRuns([a, b], marks) == [FileRun(a, marks), FileRun(b, marks)];
  }

  // ---- the input files ----

  /** The files that runs `from` to `end` - 1 contribute to a level. */
  function Contribution(runs: seq<SortedRun>, levels: Levels, from: nat, end: nat, level: nat): seq<File>
    requires from <= end <= |runs|
  {
    if from == end then []
    else
      var r := runs[end - 1];
      Contribution(runs, levels, from, end - 1, level) +
      if r.level != level then [] else if r.file.Some? then [r.file.value] else if level < |levels| then levels[level] else []
  }

  /** Level 0 contributes the files of its picked runs, each once and in order. */
  lemma {:induction false} Level0Contributes(levels: Levels, marks: set<File>, from: nat, end: nat)
    requires levels != [] && from <= end <= |SortedRuns(levels, marks)| && from <= |levels[0]|
    ensures Contribution(SortedRuns(levels, marks), levels, from, end, 0) ==
            levels[0][from..if end < |levels[0]| then end else |levels[0]|]
    decreases end - from
  {
    if from < end {
      Level0Contributes(levels, marks, from, end - 1);
      RunsKnowTheirFiles(levels, marks);
      DeepRunsAreOrdered(levels, marks, |levels|);
      if end <= |levels[0]| {
        assert levels[0][from..end] == levels[0][from..end - 1] + [levels[0][end - 1]];
      }
    }
  }

  /** A deeper level contributes all its files, if it is picked, and otherwise none. */
  lemma {:induction false} LevelContributes(levels: Levels, marks: set<File>, from: nat, end: nat, level: nat)
    requires levels != [] && from <= end <= |SortedRuns(levels, marks)| && 0 < level < |levels|
    ensures Contribution(SortedRuns(levels, marks), levels, from, end, level) ==
            if exists i :: from <= i < end && SortedRuns(levels, marks)[i].level == level then levels[level] else []
    decreases end - from
  {
    if from < end {
      var runs := SortedRuns(levels, marks);
      LevelContributes(levels, marks, from, end - 1, level);
      RunsKnowTheirFiles(levels, marks);
      SortedRunsAreInAgeOrder(levels, marks);
      hide SortedRuns;
      if runs[end - 1].level == level {
        assert forall i :: from <= i < end - 1 ==> runs[i].level != level;
      }
    }
  }

  ghost predicate Filled(inputs: seq<InputFiles>, runs: seq<SortedRun>, levels: Levels, start: nat, end: nat)
    requires start <= end <= |runs| && start < |runs|
  {
    var first := runs[start].level;
    && (forall l :: 0 <= l < |inputs| ==> inputs[l].level == first + l)
    && (forall l :: 0 <= l < |inputs| ==> inputs[l].files == Contribution(runs, levels, start, end, first + l))
  }

  /** The picked runs' files, level by level from the first picked level on. */
  method FillInputs(levels: Levels, marks: set<File>, start: nat, firstIndexAfter: nat) returns (inputs: seq<InputFiles>)
    requires levels != [] && start < firstIndexAfter <= |SortedRuns(levels, marks)|
    ensures var runs := SortedRuns(levels, marks);
      && |inputs| == |levels|
      && Filled(inputs, runs, levels, start, firstIndexAfter)
  {
    var runs := SortedRuns(levels, marks);
    SortedRunsAreInAgeOrder(levels, marks);
    RunsKnowTheirFiles(levels, marks);
    hide SortedRuns, InAgeOrder, LevelRun, FileRun;
    var startLevel := runs[start].level;
    inputs := seq(|levels|, (l: nat) => InputFiles(startLevel + l, []));
    for i := start to firstIndexAfter
      invariant |inputs| == |levels|
      invariant Filled(inputs, runs, levels, start, i)
    {
      var picking := runs[i];
      if picking.level == 0 {
        inputs := inputs[0 := InputFiles(inputs[0].level, inputs[0].files + [picking.file.value])];
      } else {
        var k := picking.level - startLevel;
        inputs := inputs[k := InputFiles(inputs[k].level, inputs[k].files + levels[picking.level])];
      }
    }
  }

  lemma RunsKnowTheirFiles(levels: Levels, marks: set<File>)
    requires levels != []
    ensures forall i :: 0 <= i < |SortedRuns(levels, marks)| ==>
      var r := SortedRuns(levels, marks)[i];
      && (r.level == 0 <==> r.file.Some?)
      && (r.level == 0 ==> r == FileRun(r.file.value, marks))
      && (r.level > 0 ==> r.level < |levels| && r == LevelRun(r.level, levels[r.level], marks))
  {
    DeepRunsAreOrdered(levels, marks, |levels|);
  }

  /** Files of idle runs are idle. */
  lemma {:induction false} InputsAreIdle(levels: Levels, marks: set<File>, from: nat, end: nat, level: nat)
    requires levels != [] && from <= end <= |SortedRuns(levels, marks)|
    requires forall i :: from <= i < end ==> !SortedRuns(levels, marks)[i].beingCompacted
    ensures forall f :: f in Contribution(SortedRuns(levels, marks), levels, from, end, level) ==> f !in marks
    decreases end - from
  {
    if from < end {
      InputsAreIdle(levels, marks, from, end - 1, level);
      RunsKnowTheirFiles(levels, marks);
      hide SortedRuns;
      assert !SortedRuns(levels, marks)[end - 1].beingCompacted;
    }
  }

  datatype Pick = Pick(start: nat, count: nat, outputLevel: int, inputs: seq<InputFiles>)

  /** Picks a contiguous block of idle runs whose width is within bounds, or finds that there is none. */
  method PickCompactionToReduceSortedRuns(levels: Levels, marks: set<File>, allowTrivialMove: bool, o: Options) returns (pick: Option<Pick>)
    requires levels != [] && SortedRuns(levels, marks) != []
    requires allowTrivialMove || forall l :: 0 < l < |levels| ==> SharedFlag(levels[l], marks)
    ensures pick.None? ==> NoneBefore(SortedRuns(levels, marks), |SortedRuns(levels, marks)|, o)
    ensures pick.Some? ==>
      var runs := SortedRuns(levels, marks); var p := pick.value;
      && FullBlock(runs, p.start, p.count, o) && NoneBefore(runs, p.start, o)
      && o.MinWidth() <= p.count <= o.MaxWidth()
      && 2 <= p.count && o.minMergeWidth <= p.count <= o.maxMergeWidth && p.count <= o.maxFiles
      && p.outputLevel == OutputLevel(runs, p.start + p.count, |levels|)
      && 0 <= p.outputLevel < |levels| && Between(runs, p.start, p.start + p.count, p.outputLevel)
      && |p.inputs| == |levels| && Filled(p.inputs, runs, levels, p.start, p.start + p.count)
    ensures pick.Some? ==> forall l, f :: 0 <= l < |pick.value.inputs| && f in pick.value.inputs[l].files ==> f !in marks
  {
    var runs := CalculateSortedRuns(levels, marks, allowTrivialMove);
    hide SortedRuns, FullBlock, Contribution, NoneBefore, Between;
    var done, startIndex, candidateCount := FindBlock(runs, o);
    if !done || candidateCount <= 1 {
      return None;
    }
    var firstIndexAfter := startIndex + candidateCount;
    assert forall i :: startIndex <= i < firstIndexAfter ==> !runs[i].beingCompacted by {
      BlockIsIdle(runs, startIndex, candidateCount, o);
    }
    var outputLevel;
    if firstIndexAfter == |runs| {
      outputLevel := |levels| - 1;
    } else if runs[firstIndexAfter].level == 0 {
      outputLevel := 0;
    } else {
      outputLevel := runs[firstIndexAfter].level - 1;
    }
    var inputs := FillInputs(levels, marks, startIndex, firstIndexAfter);
    forall l | 0 <= l < |inputs| ensures forall f :: f in inputs[l].files ==> f !in marks {
      InputsAreIdle(levels, marks, startIndex, firstIndexAfter, runs[startIndex].level + l);
    }
    OutputKeepsAgeOrder(levels, marks, startIndex, firstIndexAfter);
    pick := Some(Pick(startIndex, candidateCount, outputLevel, inputs));
  }
}
