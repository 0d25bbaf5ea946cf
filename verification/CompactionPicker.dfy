/** Leveled compaction picking: which files a compaction takes, and what running compactions promise each other. */
module CompactionPickers {
  import opened Wrappers
  import opened LevelFiles

  datatype Compaction = Compaction(inputs: seq<InputFiles>, outputLevel: nat, range: Range) {
    function StartLevel(): nat
      requires inputs != []
    {
      inputs[0].level
    }
  }

  // ---- files of a level ----

  /** The levels strictly between two levels hold no files. */
  ghost predicate EmptyBetween(levels: Levels, from: nat, end: nat) {
    forall l :: from < l < end && l < |levels| ==> levels[l] == []
  }

  lemma {:induction false} DistinctCount(files: seq<File>)
    requires Distinct(files)
    ensures |AsSet(files)| == |files|
  {
    if files != [] {
      var n := |files| - 1;
      DistinctCount(files[..n]);
      assert files == files[..n] + [files[n]];
      assert AsSet(files) == AsSet(files[..n]) + {files[n]};
    }
  }

  lemma SubsetCount(a: set<File>, b: set<File>)
    requires a <= b
    ensures |a| <= |b|
    ensures |a| == |b| ==> a == b
  {
    assert b == a + (b - a);
  }

  /** A list that did not grow holds the same files. */
  lemma SameFiles(a: seq<File>, b: seq<File>)
    requires Distinct(a) && Distinct(b) && AsSet(a) <= AsSet(b) && |b| <= |a|
    ensures AsSet(a) == AsSet(b)
  {
    DistinctCount(a);
    DistinctCount(b);
    SubsetCount(AsSet(a), AsSet(b));
  }

  // ---- ranges ----

  method GetLevel0Range(files: seq<File>) returns (r: Range)
    requires files != []
    ensures Hull(AsSet(files), r)
  {
    hide Hull, AsSet;
    HullOfFirst(files);
    r := Range(files[0].smallest, files[0].largest);
    for i := 1 to |files|
      invariant Hull(AsSet(files[..i]), r)
    {
      HullOfOneMore(files, i, r);
      if files[i].smallest < r.smallest {
        r := Range(files[i].smallest, r.largest);
      }
      if files[i].largest > r.largest {
        r := Range(r.smallest, files[i].largest);
      }
    }
    assert files[..|files|] == files;
  }

  /** The range of one level's input files. */
  method GetRange(inputs: InputFiles) returns (r: Range)
    requires inputs.files != [] && ValidLevel(inputs.files, inputs.level)
    ensures Hull(AsSet(inputs.files), r)
  {
    if inputs.level == 0 {
      r := GetLevel0Range(inputs.files);
    } else {
      SortedHull(inputs.files);
      r := Range(inputs.files[0].smallest, inputs.files[|inputs.files| - 1].largest);
    }
  }

  ghost predicate ValidInputs(inputs: seq<InputFiles>) {
    forall k :: 0 <= k < |inputs| ==> ValidLevel(inputs[k].files, inputs[k].level)
  }

  /** The range of all input files, if there are any. */
  method GetRangeOfAll(inputs: seq<InputFiles>) returns (r: Option<Range>)
    requires ValidInputs(inputs)
    ensures r.None? <==> FilesOf(inputs) == {}
    ensures r.Some? ==> Hull(FilesOf(inputs), r.value)
  {
    r := None;
    for i := 0 to |inputs|
      invariant r.None? <==> FilesOf(inputs[..i]) == {}
      invariant r.Some? ==> Hull(FilesOf(inputs[..i]), r.value)
    {
      assert inputs[..i + 1][..i] == inputs[..i];
      assert FilesOf(inputs[..i + 1]) == FilesOf(inputs[..i]) + AsSet(inputs[i].files);
      if inputs[i].files == [] {
        continue;
      }
      assert inputs[i].files[0] in AsSet(inputs[i].files);
      var current := GetRange(inputs[i]);
      if r.None? {
        r := Some(current);
      } else {
        HullOfUnion(FilesOf(inputs[..i]), AsSet(inputs[i].files), r.value, current);
        r := Some(Join(r.value, current));
      }
    }
    assert inputs[..|inputs|] == inputs;
  }

  // ---- running compactions ----

  predicate Touch(a: Range, b: Range) {
    a.smallest <= b.largest && a.largest >= b.smallest
  }

  ghost predicate Ascending(inputs: seq<InputFiles>) {
    forall i, j :: 0 <= i < j < |inputs| ==> inputs[i].level < inputs[j].level
  }

  /** No file occurs twice among the inputs. */
  lemma NotYetMarked(inputs: seq<InputFiles>, i: nat, j: nat)
    requires ValidInputs(inputs) && Ascending(inputs) && i < |inputs| && j < |inputs[i].files|
    ensures inputs[i].files[j] in FilesOf(inputs)
    ensures inputs[i].files[j] !in FilesOf(inputs[..i])
    ensures inputs[i].files[j] !in AsSet(inputs[i].files[..j])
  {
    var f := inputs[i].files[j];
    FileHasLevel(inputs, f);
    FileHasLevel(inputs[..i], f);
    assert ValidLevel(inputs[i].files, inputs[i].level) && f in inputs[i].files;
  }

  /** The inputs are files of the version, none deeper than the output level. */
  ghost predicate FromLevels(levels: Levels, inputs: seq<InputFiles>, outputLevel: nat) {
    forall k :: 0 <= k < |inputs| ==> inputs[k].level <= outputLevel && PartOf(inputs[k].files, levels, inputs[k].level)
  }

  /** Inputs by ascending level, and the range of all their files. */
  ghost predicate ValidCompaction(c: Compaction) {
    && c.inputs != [] && ValidInputs(c.inputs)
    && (forall i, j :: 0 <= i < j < |c.inputs| ==> c.inputs[i].level < c.inputs[j].level)
    && Hull(FilesOf(c.inputs), c.range)
  }

  /** No running compaction that writes to `level` overlaps the range. */
  ghost predicate Free(running: set<Compaction>, r: Range, level: nat) {
    forall c :: c in running && c.outputLevel == level ==> !Touch(r, c.range)
  }

  /** The marked files are exactly the inputs of the running compactions. */
  ghost predicate Exact(marks: set<File>, running: set<Compaction>) {
    && (forall c :: c in running ==> ValidCompaction(c) && FilesOf(c.inputs) <= marks)
    && (forall f :: f in marks ==> exists c :: c in running && f in FilesOf(c.inputs))
  }

  /** No file is an input of two running compactions. */
  ghost predicate Separate(running: set<Compaction>) {
    forall c, d :: c in running && d in running && c != d ==> FilesOf(c.inputs) !! FilesOf(d.inputs)
  }

  /** Running compactions with the same output level, other than level 0, have disjoint ranges. */
  ghost predicate Apart(running: set<Compaction>) {
    forall c, d :: c in running && d in running && c != d && c.outputLevel == d.outputLevel != 0 ==> !Touch(c.range, d.range)
  }

  ghost predicate Compatible(marks: set<File>, running: set<Compaction>) {
    Exact(marks, running) && Separate(running) && Apart(running)
  }

  lemma HullIsInhabited(files: set<File>, r: Range)
    requires Hull(files, r)
    ensures files != {}
  {
  }

  lemma StartIsCompatible(marks: set<File>, running: set<Compaction>, c: Compaction)
    requires Compatible(marks, running) && ValidCompaction(c) && FilesOf(c.inputs) !! marks
    requires c.outputLevel != 0 ==> Free(running, c.range, c.outputLevel)
    ensures c !in running && Compatible(marks + FilesOf(c.inputs), running + {c})
  {
    assert Exact(marks, running) && Separate(running) && Apart(running);
    hide Exact, Separate, Apart, ValidCompaction, FilesOf, Free;
    StartIsExact(marks, running, c);
    StartIsSeparate(marks, running, c);
    StartIsApart(running, c);
  }

  lemma StartIsSeparate(marks: set<File>, running: set<Compaction>, c: Compaction)
    requires Exact(marks, running) && Separate(running) && FilesOf(c.inputs) !! marks
    ensures Separate(running + {c})
  {
    hide FilesOf, ValidCompaction;
    forall d, e | d in running + {c} && e in running + {c} && d != e ensures FilesOf(d.inputs) !! FilesOf(e.inputs) {
      assert d != c ==> FilesOf(d.inputs) <= marks;
      assert e != c ==> FilesOf(e.inputs) <= marks;
    }
  }

  lemma StartIsApart(running: set<Compaction>, c: Compaction)
    requires Apart(running) && (c.outputLevel != 0 ==> Free(running, c.range, c.outputLevel))
    ensures Apart(running + {c})
  {
  }

  lemma StartIsExact(marks: set<File>, running: set<Compaction>, c: Compaction)
    requires Exact(marks, running) && ValidCompaction(c) && FilesOf(c.inputs) !! marks
    ensures c !in running && Exact(marks + FilesOf(c.inputs), running + {c})
  {
    HullIsInhabited(FilesOf(c.inputs), c.range);
    hide ValidCompaction, FilesOf;
    var now := running + {c};
    forall f | f in marks + FilesOf(c.inputs) ensures exists d :: d in now && f in FilesOf(d.inputs) {
      if f in marks {
        var d :| d in running && f in FilesOf(d.inputs);
        assert d in now;
      } else {
        assert c in now;
      }
    }
  }

  lemma EndIsCompatible(marks: set<File>, running: set<Compaction>, c: Compaction)
    requires Compatible(marks, running) && c in running
    ensures Compatible(marks - FilesOf(c.inputs), running - {c})
  {
    hide ValidCompaction, FilesOf;
    forall f | f in marks - FilesOf(c.inputs) ensures exists d :: d in running - {c} && f in FilesOf(d.inputs) {
      var d :| d in running && f in FilesOf(d.inputs);
      assert d in running - {c};
    }
  }

  lemma {:induction false} FileHasLevel(inputs: seq<InputFiles>, f: File)
    requires ValidInputs(inputs)
    ensures f in FilesOf(inputs) <==> exists k :: 0 <= k < |inputs| && f in inputs[k].files
    ensures f in FilesOf(inputs) ==> exists k :: 0 <= k < |inputs| && inputs[k].level == f.level
  {
    if inputs != [] {
      var n := |inputs| - 1;
      FileHasLevel(inputs[..n], f);
      assert forall k :: 0 <= k < n ==> inputs[..n][k] == inputs[k];
      if f in inputs[n].files {
        assert inputs[n].level == f.level;
      }
    }
  }

  /** Only compactions that start at level 0 take level-0 files. */
  lemma Level0Starts(c: Compaction, f: File)
    requires ValidCompaction(c) && f in FilesOf(c.inputs) && f.level == 0
    ensures c.StartLevel() == 0
  {
    FileHasLevel(c.inputs, f);
    var k :| 0 <= k < |c.inputs| && c.inputs[k].level == f.level;
    assert 0 <= c.StartLevel() <= c.inputs[k].level;
  }

  // ---- clean cuts ----

  /** No file of the level that is left out overlaps the range. */
  ghost predicate ClosedOver(levels: Levels, level: nat, files: set<File>, r: Range)
    requires level < |levels|
  {
    forall f :: f in levels[level] && Meets(f, r) ==> f in files
  }

  lemma CleanCutIsClosed(levels: Levels, level: nat, files: set<File>, r: Range)
    requires level < |levels| && Hull(files, r)
    ensures CleanCut(levels, level, files) <==> ClosedOver(levels, level, files, r)
  {
    var x :| x in files && x.smallest == r.smallest;
    var y :| y in files && y.largest == r.largest;
  }

  /** Every clean cut that holds `from` holds `files`. */
  ghost predicate LeastCut(levels: Levels, level: nat, from: set<File>, files: set<File>)
    requires level < |levels|
  {
    forall e: set<File> :: CleanCut(levels, level, e) && from <= e ==> files <= e
  }

  /** The least clean cut that holds whatever of the level meets the range. */
  ghost predicate LeastAround(levels: Levels, level: nat, r: Range, files: set<File>)
    requires level < |levels|
  {
    Encloses(levels, level, r, files) && forall e: set<File> :: Encloses(levels, level, r, e) ==> files <= e
  }

  /** What meets the range, grown to a clean cut, is the least clean cut around the range. */
  lemma MeetingCut(levels: Levels, level: nat, r: Range, meeting: seq<File>, cut: set<File>)
    requires level < |levels| && forall f :: f in meeting <==> f in levels[level] && Meets(f, r)
    requires AsSet(meeting) <= cut && CleanCut(levels, level, cut) && LeastCut(levels, level, AsSet(meeting), cut)
    ensures LeastAround(levels, level, r, cut)
  {
    assert forall f :: f in meeting <==> f in AsSet(meeting);
    forall e: set<File> | Encloses(levels, level, r, e)
      ensures cut <= e
    {
      assert AsSet(meeting) <= e;
    }
  }

  lemma NothingAround(levels: Levels, level: nat, r: Range)
    requires level < |levels| && forall f :: f in levels[level] ==> !Meets(f, r)
    ensures LeastAround(levels, level, r, {})
  {
  }

  lemma LeastIsUnique(levels: Levels, level: nat, r: Range, a: set<File>, b: set<File>)
    requires level < |levels| && LeastAround(levels, level, r, a) && LeastAround(levels, level, r, b)
    ensures a == b
  {
  }

  /** One round of growing by the range of what is there. */
  lemma GrowthStep(levels: Levels, level: nat, from: set<File>, files: seq<File>, found: seq<File>, r: Range)
    requires ValidLevels(levels) && 0 < level < |levels| && files != []
    requires PartOf(files, levels, level) && PartOf(found, levels, level) && Hull(AsSet(files), r)
    requires forall f :: f in levels[level] && Meets(f, r) ==> f in found
    requires forall f :: f in found ==> Meets(f, r)
    requires LeastCut(levels, level, from, AsSet(files))
    ensures AsSet(files) <= AsSet(found) && |files| <= |found| <= |levels[level]| && found != []
    ensures |found| <= |files| ==> CleanCut(levels, level, AsSet(found))
    ensures LeastCut(levels, level, from, AsSet(found))
  {
    assert ValidLevel(levels[level], level);
    assert forall f :: f in files ==> Meets(f, r) && f in AsSet(files);
    assert files[0] in found;
    DistinctCount(files);
    DistinctCount(found);
    DistinctCount(levels[level]);
    SubsetCount(AsSet(files), AsSet(found));
    SubsetCount(AsSet(found), AsSet(levels[level]));
    if |found| <= |files| {
      SameFiles(files, found);
      CleanCutIsClosed(levels, level, AsSet(found), r);
    }
    forall e: set<File> | CleanCut(levels, level, e) && from <= e ensures AsSet(found) <= e {
      FoundInCut(levels, level, AsSet(files), r, e, AsSet(found));
    }
  }

  lemma FoundInCut(levels: Levels, level: nat, files: set<File>, r: Range, e: set<File>, found: set<File>)
    requires level < |levels| && CleanCut(levels, level, e) && files <= e && Hull(files, r)
    requires forall f :: f in found ==> f in levels[level] && Meets(f, r)
    ensures found <= e
  {
    var x :| x in files && x.smallest == r.smallest;
    var y :| y in files && y.largest == r.largest;
  }

  /** Two closed overlapping ranges are closed together. */
  lemma ClosedOverBoth(levels: Levels, level: nat, files: set<File>, r: Range, t: Range)
    requires level < |levels| && ClosedOver(levels, level, files, r) && ClosedOver(levels, level, files, t) && Touch(r, t)
    requires r.smallest <= r.largest && t.smallest <= t.largest
    requires WellFormed(levels[level])
    ensures ClosedOver(levels, level, files, Join(r, t))
  {
  }

  /** Bytes rewritten per file that disappears when the first `n` + 1 files become one. */
  function Work(files: seq<File>, n: nat): nat
    requires 0 < n < |files|
  {
    TotalSize(files[..n + 1]) / n
  }

  /** The longest run of newest files that are idle and for which the work per deleted file does not grow. */
  ghost predicate LongestSpan(files: seq<File>, marks: set<File>, n: nat) {
    && 0 < n <= |files|
    && (forall k :: 0 <= k < n ==> files[k] !in marks)
    && (forall k :: 2 <= k < n ==> Work(files, k) <= Work(files, k - 1))
    && (n == |files| || files[n] in marks || (n > 1 && Work(files, n) > Work(files, n - 1)))
  }

  lemma LongestSpanIsUnique(files: seq<File>, marks: set<File>, n: nat, m: nat)
    requires LongestSpan(files, marks, n) && LongestSpan(files, marks, m)
    ensures n == m
  {
    hide Work;
  }

  /** A total over `n`, and the one with `s` more over `n` + 1: rounded down, one does not exceed the other. */
  lemma RatioFalls(t: nat, s: nat, n: nat, p: nat, q: nat)
    requires p * n <= t && t + s <= q * n + q + n && q <= p
    ensures s * n <= t + n * n
  {
    Scale(q, p, n);
    assert s <= p + n;
    Scale(s, p + n, n);
    assert (p + n) * n == p * n + n * n;
  }

  lemma RatioGrows(t: nat, s: nat, n: nat, p: nat, q: nat)
    requires t < p * n + n && q * n + q <= t + s && q > p && n > 0
    ensures s * n > t
  {
    Scale(p + 1, q, n);
    assert (p + 1) * n == p * n + n && s >= q + 1;
    Scale(q + 1, s, n);
    assert (q + 1) * n == q * n + n;
  }

  lemma Quotient(a: nat, n: nat)
    requires n > 0
    ensures a / n * n <= a < a / n * n + n
  {
  }

  lemma Ratios(t: nat, s: nat, n: nat)
    requires n > 0
    ensures (t + s) / (n + 1) <= t / n ==> s * n <= t + n * n
    ensures (t + s) / (n + 1) > t / n ==> s * n > t
  {
    Quotient(t, n);
    Quotient(t + s, n + 1);
    RatioEnds(t, s, n, t / n, (t + s) / (n + 1));
  }

  lemma RatioEnds(t: nat, s: nat, n: nat, p: nat, q: nat)
    requires n > 0 && p * n <= t < p * n + n && q * (n + 1) <= t + s < q * (n + 1) + (n + 1)
    ensures q <= p ==> s * n <= t + n * n
    ensures q > p ==> s * n > t
  {
    assert q * (n + 1) == q * n + q;
    if q <= p { RatioFalls(t, s, n, p, q); } else { RatioGrows(t, s, n, p, q); }
  }

  lemma Scale(a: nat, b: nat, k: nat)
    requires a <= b
    ensures a * k <= b * k
  {
  }

  /** What the span is about: past the second, a file of the span is no larger than what one file that disappears has cost so
      far, but for rounding, and an idle file that ends the span is larger than that. */
  lemma SpanIsCheap(files: seq<File>, marks: set<File>, n: nat, k: nat)
    requires LongestSpan(files, marks, n)
    ensures 2 <= k < n ==> files[k].size * (k - 1) <= TotalSize(files[..k]) + (k - 1) * (k - 1)
    ensures n < |files| && files[n] !in marks ==> n > 1 && files[n].size * (n - 1) > TotalSize(files[..n])
  {
    if 2 <= k < n {
      TotalSizeStep(files, k - 1);
      TotalSizeStep(files, k);
      Ratios(TotalSize(files[..k]), files[k].size, k - 1);
    }
    if 1 < n < |files| {
      TotalSizeStep(files, n - 1);
      TotalSizeStep(files, n);
      Ratios(TotalSize(files[..n]), files[n].size, n - 1);
    }
  }

  method FindSpan(files: seq<File>, marks: set<File>) returns (spanLen: nat)
    requires files != [] && files[0] !in marks
    ensures LongestSpan(files, marks, spanLen) && forall k :: 0 <= k < spanLen ==> files[k] !in marks
  {
    TotalSizeStep(files, 0);
    hide TotalSize, Work;
    spanLen := 1;
    var perFile: Option<nat> := None;
    var bytes := files[0].size;
    while spanLen < |files|
      invariant 1 <= spanLen <= |files| && bytes == TotalSize(files[..spanLen])
      invariant forall k :: 0 <= k < spanLen ==> files[k] !in marks
      invariant perFile == if spanLen == 1 then None else Some(Work(files, spanLen - 1))
      invariant forall k :: 2 <= k < spanLen ==> Work(files, k) <= Work(files, k - 1)
    {
      TotalSizeStep(files, spanLen);
      var more := bytes + files[spanLen].size;
      var newPerFile := more / spanLen;
      if files[spanLen] in marks || (perFile.Some? && newPerFile > perFile.value) {
        break;
      }
      bytes, perFile := more, Some(newPerFile);
      spanLen := spanLen + 1;
    }
  }

  lemma TotalSizeStep(files: seq<File>, n: nat)
    requires n < |files|
    ensures TotalSize(files[..n + 1]) == TotalSize(files[..n]) + files[n].size
    ensures n == 0 ==> TotalSize(files[..n]) == 0
    ensures n > 0 ==> Work(files, n) == (TotalSize(files[..n]) + files[n].size) / n
  {
    assert files[..n + 1][..n] == files[..n];
  }

  lemma PrefixIsValid(files: seq<File>, n: nat, level: nat)
    requires n <= |files| && ValidLevel(files, level)
    ensures ValidLevel(files[..n], level)
  {
    assert forall f :: f in files[..n] ==> f in files;
  }

  lemma PrefixIsPart(levels: Levels, n: nat, marks: set<File>)
    requires levels != [] && ValidLevels(levels) && n <= |levels[0]| && forall k :: 0 <= k < n ==> levels[0][k] !in marks
    ensures PartOf(levels[0][..n], levels, 0) && AsSet(levels[0][..n]) !! marks
  {
    assert ValidLevel(levels[0], 0);
    assert forall f :: f in levels[0][..n] ==> f in levels[0];
  }

  lemma OneFileIsPart(levels: Levels, level: nat)
    requires ValidLevels(levels) && level < |levels|
    ensures forall i :: 0 <= i < |levels[level]| ==> PartOf([levels[level][i]], levels, level) && AsSet([levels[level][i]]) == {levels[level][i]}
  {
    assert ValidLevel(levels[level], level);
  }

  lemma NothingIsPart(levels: Levels, level: nat)
    requires level < |levels|
    ensures PartOf([], levels, level) && AsSet([]) == {}
  {
  }

  // ---- input sets ----

  /** Whatever the inputs' range meets in the output level is among the inputs. */
  ghost predicate Settled(levels: Levels, level: nat, start: set<File>, output: set<File>)
    requires level < |levels|
  {
    forall r :: Hull(start + output, r) ==> ClosedOver(levels, level, output, r)
  }

  lemma NothingMeets(levels: Levels, level: nat, start: set<File>, r: Range)
    requires level < |levels| && Hull(start, r) && forall f :: f in levels[level] ==> !Meets(f, r)
    ensures Settled(levels, level, start, AsSet([]))
  {
    assert start + AsSet([]) == start;
    forall t | Hull(start, t) ensures t == r {
      HullIsUnique(start, t, r);
    }
  }

  /** The output files hold what the input range meets, and form a clean cut: they are closed over both ranges. */
  lemma OutputIsClosed(levels: Levels, level: nat, meeting: seq<File>, output: set<File>, r: Range, t: Range)
    requires ValidLevels(levels) && 0 < level < |levels| && PartOf(meeting, levels, level) && meeting != []
    requires forall f :: f in levels[level] && Meets(f, r) ==> f in meeting
    requires forall f :: f in meeting ==> Meets(f, r)
    requires AsSet(meeting) <= output && CleanCut(levels, level, output) && Hull(output, t) && r.smallest <= r.largest
    ensures ClosedOver(levels, level, output, Join(r, t))
  {
    CleanCutIsClosed(levels, level, output, t);
    assert ValidLevel(levels[level], level);
    assert forall f :: f in meeting ==> f in AsSet(meeting);
    assert meeting[0] in meeting && meeting[0] in output;
    assert Touch(r, t);
    ClosedOverBoth(levels, level, output, r, t);
  }

  lemma SettledByUnion(levels: Levels, level: nat, start: set<File>, output: set<File>, r: Range, t: Range)
    requires level < |levels| && Hull(start, r) && Hull(output, t) && ClosedOver(levels, level, output, Join(r, t))
    ensures Settled(levels, level, start, output)
  {
    HullOfUnion(start, output, r, t);
    forall u | Hull(start + output, u) ensures u == Join(r, t) {
      HullIsUnique(start + output, u, Join(r, t));
    }
  }

  /** Other input files whose range stays within the old one need no other output files. */
  lemma SettledInside(levels: Levels, level: nat, start: seq<File>, output: set<File>, r: Range, t: Range, all: Range)
    requires level < |levels| && Hull(AsSet(start), r) && Hull(output, t) && ClosedOver(levels, level, output, all)
    requires forall f :: f in start ==> Inside(f, all)
    requires all.smallest <= t.smallest && t.largest <= all.largest
    ensures Settled(levels, level, AsSet(start), output)
  {
    var x :| x in AsSet(start) && x.smallest == r.smallest;
    var y :| y in AsSet(start) && y.largest == r.largest;
    assert all.smallest <= Join(r, t).smallest && Join(r, t).largest <= all.largest;
    SettledByUnion(levels, level, AsSet(start), output, r, t);
  }

  /** What the level-0 search finds around the range of some files is the least clean cut around those files. */
  lemma AroundPicked(levels: Levels, picked: seq<File>, found: seq<File>, r: Range)
    requires ValidLevels(levels) && levels != [] && PartOf(picked, levels, 0) && Hull(AsSet(picked), r)
    requires Encloses(levels, 0, r, AsSet(found)) && forall e: set<File> :: Encloses(levels, 0, r, e) ==> AsSet(found) <= e
    ensures forall f, t :: f in levels[0] && Hull(AsSet(picked), t) && Meets(f, t) ==> f in found
    ensures forall e: set<File> :: CleanCut(levels, 0, e) && AsSet(picked) <= e ==> AsSet(found) <= e
  {
    forall f, t | f in levels[0] && Hull(AsSet(picked), t) && Meets(f, t)
      ensures f in found
    {
      HullIsUnique(AsSet(picked), r, t);
      assert f in AsSet(found);
    }
    forall e: set<File> | CleanCut(levels, 0, e) && AsSet(picked) <= e
      ensures AsSet(found) <= e
    {
      CutAround(levels, AsSet(picked), r, e);
    }
  }

  lemma CutAround(levels: Levels, picked: set<File>, r: Range, e: set<File>)
    requires levels != [] && CleanCut(levels, 0, e) && picked <= e && Hull(picked, r)
    ensures Encloses(levels, 0, r, e)
  {
    var a :| a in picked && a.smallest == r.smallest;
    var b :| b in picked && b.largest == r.largest;
    assert a in e && b in e;
  }

  /** The largest clean cut inside a range holds every clean cut inside it. */
  lemma InputsAreKept(levels: Levels, inputs: InputFiles, clean: seq<File>, r: Range, all: Range)
    requires PartOf(inputs.files, levels, inputs.level) && CleanCut(levels, inputs.level, AsSet(inputs.files))
    requires Hull(AsSet(inputs.files), r) && all.smallest <= r.smallest && r.largest <= all.largest
    requires forall e: set<File>, f ::
               (CleanCut(levels, inputs.level, e) && (forall g :: g in e ==> Inside(g, all)) && f in e && f in levels[inputs.level]) ==> f in clean
    ensures AsSet(inputs.files) <= AsSet(clean)
  {
    assert forall f :: f in AsSet(inputs.files) ==> f in inputs.files && f in levels[inputs.level];
    assert forall g :: g in AsSet(inputs.files) ==> Inside(g, all);
  }

  lemma RangeIsProper(files: seq<File>, r: Range)
    requires Hull(AsSet(files), r) && WellFormed(files)
    ensures r.smallest <= r.largest
  {
    var x :| x in AsSet(files) && x.smallest == r.smallest;
    assert x in files;
  }

  lemma InputsMeetRange(files: seq<File>, found: seq<File>, level: seq<File>, r: Range, all: Range)
    requires Hull(AsSet(files), r) && files != [] && WellFormed(files) && all.smallest <= r.smallest && r.largest <= all.largest
    requires (forall f :: f in files ==> f in level) && forall f :: f in level && Meets(f, all) ==> f in found
    ensures AsSet(files) <= AsSet(found) && found != []
  {
    forall f | f in files ensures f in found {
      assert f in AsSet(files);
    }
    assert files[0] in files;
  }

  lemma RangeGrows(a: set<File>, b: set<File>, r: Range, t: Range)
    requires a <= b && Hull(a, r) && Hull(b, t)
    ensures t.smallest <= r.smallest && r.largest <= t.largest
  {
    var x :| x in a && x.smallest == r.smallest;
    var y :| y in a && y.largest == r.largest;
  }

  lemma MeetingGrows(meeting: seq<File>, found: seq<File>, level: seq<File>, r: Range, n: Range)
    requires n.smallest <= r.smallest && r.largest <= n.largest && meeting != []
    requires (forall f :: f in meeting ==> f in level && Meets(f, r)) && forall f :: f in level && Meets(f, n) ==> f in found
    ensures AsSet(meeting) <= AsSet(found) && found != []
  {
    assert meeting[0] in meeting;
  }

  /** The running compactions that start at level 0. */
  ghost function Level0Of(running: set<Compaction>): set<Compaction> {
    set c | c in running && c.inputs != [] && c.inputs[0].level == 0
  }

  lemma Level0OfMore(running: set<Compaction>, c: Compaction)
    requires c.inputs != []
    ensures Level0Of(running + {c}) == if c.StartLevel() == 0 then Level0Of(running) + {c} else Level0Of(running)
    ensures Level0Of(running - {c}) == if c.StartLevel() == 0 then Level0Of(running) - {c} else Level0Of(running)
  {
  }

  datatype Scored = Scored(level: nat, score: real)

  /** Compaction scores, files by priority and where to resume among them, files marked for compaction. */
  datatype Hints = Hints(scores: seq<Scored>, priority: seq<seq<nat>>, next: seq<int>, marked: seq<File>, randomIndex: nat, trigger: nat)

  /** A new file of the output level, inside the compaction's range, meets no file that stays there. */
  lemma OutputsMeetNothingKept(levels: Levels, c: Compaction, made: File, kept: File)
    requires c.outputLevel < |levels| && ClosedOver(levels, c.outputLevel, FilesOf(c.inputs), c.range)
    requires Inside(made, c.range) && made.smallest <= made.largest
    requires kept in levels[c.outputLevel] && kept !in FilesOf(c.inputs)
    ensures !Meets(kept, Range(made.smallest, made.largest))
  {
    assert !Meets(kept, c.range);
  }

  /** New files of two compactions that run at the same time and write to the same deeper level never meet. */
  lemma OutputsStayApart(marks: set<File>, running: set<Compaction>, c: Compaction, d: Compaction, f: File, g: File)
    requires Compatible(marks, running) && c in running && d in running && c != d && c.outputLevel == d.outputLevel != 0
    requires Inside(f, c.range) && Inside(g, d.range) && f.smallest <= f.largest && g.smallest <= g.largest
    ensures !Meets(f, Range(g.smallest, g.largest))
    ensures FilesOf(c.inputs) !! FilesOf(d.inputs)
  {
    hide Exact;
    assert !Touch(c.range, d.range);
  }

  /** The files of a list that are in a set, in order. */
  ghost function Kept(files: seq<File>, s: set<File>): seq<File> {
    if files == [] then [] else Kept(files[..|files| - 1], s) + if files[|files| - 1] in s then [files[|files| - 1]] else []
  }

  lemma {:induction false} KeptIsValid(files: seq<File>, s: set<File>, level: nat)
    requires ValidLevel(files, level)
    ensures ValidLevel(Kept(files, s), level)
    ensures forall f :: f in Kept(files, s) <==> f in files && f in s
  {
    if files != [] {
      var n := |files| - 1;
      PrefixIsValid(files, n, level);
      KeptIsValid(files[..n], s, level);
      assert files == files[..n] + [files[n]];
      forall f | f in files[..n]
        ensures f != files[n] && (level > 0 ==> f.largest <= files[n].smallest)
      {
        var i :| 0 <= i < n && files[i] == f;
      }
      AppendIsValid(Kept(files[..n], s), files[n], level);
    }
  }

  lemma AppendIsValid(files: seq<File>, f: File, level: nat)
    requires ValidLevel(files, level) && f.smallest <= f.largest && f.level == level
    requires forall g :: g in files ==> g != f && (level > 0 ==> g.largest <= f.smallest)
    ensures ValidLevel(files + [f], level)
  {
    assert forall i :: 0 <= i < |files| ==> files[i] in files;
  }

  lemma {:induction false} HullExists(files: seq<File>) returns (r: Range)
    requires files != []
    ensures Hull(AsSet(files), r)
  {
    var n := |files| - 1;
    var last := Range(files[n].smallest, files[n].largest);
    assert Hull({files[n]}, last);
    if n == 0 {
      assert AsSet(files) == {files[n]};
      r := last;
    } else {
      var t := HullExists(files[..n]);
      HullOfUnion(AsSet(files[..n]), {files[n]}, t, last);
      assert AsSet(files) == AsSet(files[..n]) + {files[n]} by { assert files == files[..n] + [files[n]]; }
      r := Join(t, last);
    }
  }

  /** Leveled compaction: what runs, which files are marked, and the current version's levels. */
  // kMinFilesForIntraL0Compaction
  const MIN_FILES_WITHIN_LEVEL0 := 4

  class CompactionPicker {
    var levels: Levels
    var baseLevel: nat
    var beingCompacted: set<File>
    var compactionsInProgress: set<Compaction>
    var level0CompactionsInProgress: set<Compaction>

    ghost predicate Valid()
      reads this
    {
      && ValidLevels(levels) && 0 < baseLevel < |levels| && EmptyBetween(levels, 0, baseLevel)
      && Compatible(beingCompacted, compactionsInProgress)
      && level0CompactionsInProgress == Level0Of(compactionsInProgress)
    }

    constructor (levels: Levels, baseLevel: nat)
      requires ValidLevels(levels) && 0 < baseLevel < |levels| && EmptyBetween(levels, 0, baseLevel)
      ensures Valid() && beingCompacted == {} && compactionsInProgress == {}
      ensures this.levels == levels && this.baseLevel == baseLevel
    {
      this.levels, this.baseLevel := levels, baseLevel;
      beingCompacted, compactionsInProgress, level0CompactionsInProgress := {}, {}, {};
    }

    /** A marked level-0 file belongs to a compaction that starts at level 0. */
    lemma Level0MarkHasCompaction(f: File)
      requires Valid() && f in beingCompacted
      ensures f.level == 0 ==> level0CompactionsInProgress != {}
    {
      var c :| c in compactionsInProgress && f in FilesOf(c.inputs);
      if f.level == 0 {
        Level0Starts(c, f);
        assert c in Level0Of(compactionsInProgress);
      }
    }

    lemma Level0IsIdle(files: seq<File>)
      requires Valid() && level0CompactionsInProgress == {} && PartOf(files, levels, 0)
      ensures AsSet(files) !! beingCompacted
    {
      forall f | f in beingCompacted ensures f.level > 0 {
        Level0MarkHasCompaction(f);
      }
    }

    // ---- queries ----

    method AreFilesInCompaction(files: seq<File>) returns (busy: bool)
      ensures !busy <==> AsSet(files) !! beingCompacted
    {
      for i := 0 to |files|
        invariant forall k :: 0 <= k < i ==> files[k] !in beingCompacted
      {
        if files[i] in beingCompacted {
          assert files[i] in AsSet(files);
          return true;
        }
      }
      return false;
    }

    method RangeOverlapWithCompaction(r: Range, level: nat) returns (overlap: bool)
      ensures !overlap <==> Free(compactionsInProgress, r, level)
    {
      var rest := compactionsInProgress;
      while rest != {}
        invariant rest <= compactionsInProgress && Free(compactionsInProgress - rest, r, level)
        decreases |rest|
      {
        var c :| c in rest;
        if c.outputLevel == level && r.smallest <= c.range.largest && r.largest >= c.range.smallest {
          return true;
        }
        rest := rest - {c};
      }
      return false;
    }

    /** A running compaction that writes to the level overlaps the range of these files. */
    ghost predicate Conflicts(files: set<File>, outputLevel: nat)
      reads this
    {
      exists r :: Hull(files, r) && !Free(compactionsInProgress, r, outputLevel)
    }

    method FilesRangeOverlapWithCompaction(inputs: seq<InputFiles>, level: nat) returns (overlap: bool)
      requires ValidInputs(inputs)
      ensures FilesOf(inputs) == {} ==> !overlap
      ensures forall r :: Hull(FilesOf(inputs), r) ==> (!overlap <==> Free(compactionsInProgress, r, level))
      ensures overlap <==> Conflicts(FilesOf(inputs), level)
    {
      var range := GetRangeOfAll(inputs);
      if range.None? {
        return false;
      }
      overlap := RangeOverlapWithCompaction(range.value, level);
      forall r | Hull(FilesOf(inputs), r) ensures r == range.value {
        HullIsUnique(FilesOf(inputs), r, range.value);
      }
    }

    method IsRangeInCompaction(r: Range, level: nat) returns (busy: bool)
      requires Valid() && level < |levels|
      ensures !busy ==> forall f :: f in levels[level] && Meets(f, r) ==> f !in beingCompacted
      ensures busy && level > 0 ==> exists f :: f in levels[level] && Meets(f, r) && f in beingCompacted
      ensures level == 0 ==> (!busy <==> exists e: set<File> :: Encloses(levels, 0, r, e) && e !! beingCompacted)
    {
      var inputs := GetOverlappingInputs(levels, level, r);
      busy := AreFilesInCompaction(inputs);
      assert forall f :: f in inputs ==> f in AsSet(inputs);
    }

    // ---- growing inputs ----

    /** Grows the inputs of a deeper level until no file left out shares a key with them. */
    method ExpandInputsToCleanCut(inputs: InputFiles) returns (ok: bool, grown: InputFiles)
      requires Valid() && inputs.files != [] && PartOf(inputs.files, levels, inputs.level)
      ensures grown.level == inputs.level && PartOf(grown.files, levels, inputs.level)
      ensures AsSet(inputs.files) <= AsSet(grown.files) && grown.files != []
      ensures inputs.level == 0 ==> ok && grown == inputs
      ensures inputs.level > 0 ==> CleanCut(levels, inputs.level, AsSet(grown.files))
      ensures inputs.level > 0 ==> LeastCut(levels, inputs.level, AsSet(inputs.files), AsSet(grown.files))
      ensures inputs.level > 0 ==> (ok <==> AsSet(grown.files) !! beingCompacted)
    {
      if inputs.level == 0 {
        return true, inputs;
      }
      grown := inputs;
      assert ValidLevel(levels[inputs.level], inputs.level);
      var oldSize := 0;
      while |grown.files| > oldSize
        invariant grown.level == inputs.level && PartOf(grown.files, levels, inputs.level)
        invariant AsSet(inputs.files) <= AsSet(grown.files) && grown.files != []
        invariant |grown.files| <= oldSize ==> CleanCut(levels, inputs.level, AsSet(grown.files))
        invariant LeastCut(levels, inputs.level, AsSet(inputs.files), AsSet(grown.files))
        invariant oldSize <= |levels[inputs.level]|
        decreases |levels[inputs.level]| - oldSize
      {
        oldSize := |grown.files|;
        var r := GetRange(grown);
        var found := GetOverlappingInputs(levels, inputs.level, r);
        GrowthStep(levels, inputs.level, AsSet(inputs.files), grown.files, found, r);
        grown := InputFiles(inputs.level, found);
      }
      var busy := AreFilesInCompaction(grown.files);
      ok := !busy;
    }

    /** Every clean cut of the output level around the range of these files holds a file that is being compacted. */
    ghost predicate OutputIsBusy(files: seq<File>, outputLevel: nat)
      requires outputLevel < |levels|
      reads this
    {
      forall r, e: set<File> :: Hull(AsSet(files), r) && Encloses(levels, outputLevel, r, e) ==> !(e !! beingCompacted)
    }

    /** What the version storage finds for a range: the files that meet it; in level 0 their least clean cut. */
    ghost predicate Overlapping(level: nat, r: Range, files: seq<File>)
      requires level < |levels|
      reads this
    {
      && PartOf(files, levels, level)
      && if level > 0 then forall f :: f in files <==> f in levels[level] && Meets(f, r)
         else LeastAround(levels, 0, r, AsSet(files))
    }

    /** The largest clean cut of a deeper level inside the range; in level 0 none is looked for. */
    ghost predicate Largest(level: nat, all: Range, files: seq<File>)
      requires level < |levels|
      reads this
    {
      && PartOf(files, levels, level) && (forall f :: f in files ==> Inside(f, all))
      && if level == 0 then files == []
         else
           && CleanCut(levels, level, AsSet(files))
           && forall e: set<File>, f ::
                (CleanCut(levels, level, e) && (forall g :: g in e ==> Inside(g, all)) && f in e && f in levels[level]) ==> f in files
    }

    /** More files than the inputs, all idle, that with the output files stay below the limit; `counted` are those it counts. */
    ghost predicate WorthTaking(inputs: InputFiles, files: seq<File>, counted: seq<File>, output: InputFiles, maxCompactionBytes: nat)
      reads this
    {
      && |files| > |inputs.files| && AsSet(files) !! beingCompacted
      && TotalCompensated(output.files) + TotalCompensated(counted) < maxCompactionBytes
    }

    /** The range of these files asks for just the output files. */
    ghost predicate AsksForSame(files: seq<File>, output: InputFiles)
      requires output.level < |levels|
      reads this
    {
      forall r :: Hull(AsSet(files), r) ==> LeastAround(levels, output.level, r, AsSet(output.files))
    }

    /**
     * How far the inputs are grown over the range `all` of both sides: to the least clean cut around all of it if that
     * asks for no other output files, else to the largest clean cut inside it, else not at all. The limit is applied
     * to what meets the range, before that is grown to a clean cut.
     */
    ghost predicate Grown(inputs: InputFiles, output: InputFiles, all: Range, maxCompactionBytes: nat, start: InputFiles,
                          found: seq<File>, whole: seq<File>, within: seq<File>)
      requires inputs.level < |levels| && output.level < |levels|
      reads this
    {
      && Overlapping(inputs.level, all, found) && LeastAround(levels, inputs.level, all, AsSet(whole))
      && if WorthTaking(inputs, whole, found, output, maxCompactionBytes) && AsksForSame(whole, output)
         then start.files == whole
         else
           && Largest(inputs.level, all, within)
           && start.files == if WorthTaking(inputs, within, within, output, maxCompactionBytes) then within else inputs.files
    }

    /** What completing the inputs comes to: the least output files, and inputs grown as far as they may. */
    ghost predicate Completed(inputs: InputFiles, outputLevel: nat, maxCompactionBytes: nat, start: InputFiles, output: InputFiles)
      requires inputs.level < |levels| && outputLevel < |levels|
      reads this
    {
      && start.level == inputs.level && output.level == outputLevel
      && (forall r :: Hull(AsSet(inputs.files), r) ==> LeastAround(levels, outputLevel, r, AsSet(output.files)))
      && (output.files == [] ==> start == inputs)
      && (output.files != [] ==>
            exists r, t, found, whole, within :: Hull(AsSet(inputs.files), r) && Hull(AsSet(output.files), t) &&
              Grown(inputs, output, Join(r, t), maxCompactionBytes, start, found, whole, within))
    }

    /** Adds the files of the output level, and more files of the input level where that costs no more output files. */
    method SetupOtherInputs(inputs: InputFiles, outputLevel: nat, maxCompactionBytes: nat)
      returns (ok: bool, start: InputFiles, output: InputFiles)
      requires Valid() && inputs.files != [] && PartOf(inputs.files, levels, inputs.level)
      requires AsSet(inputs.files) !! beingCompacted && inputs.level != outputLevel && 0 < outputLevel < |levels|
      requires CleanCut(levels, inputs.level, AsSet(inputs.files))
      requires EmptyBetween(levels, inputs.level, outputLevel)
      ensures start.level == inputs.level && output.level == outputLevel
      ensures ok ==> AsSet(inputs.files) <= AsSet(start.files)
      ensures ok ==> start.files != [] && PartOf(start.files, levels, inputs.level) && AsSet(start.files) !! beingCompacted
      ensures ok ==> PartOf(output.files, levels, outputLevel) && AsSet(output.files) !! beingCompacted
      ensures ok ==> CleanCut(levels, inputs.level, AsSet(start.files))
      ensures ok ==> Settled(levels, outputLevel, AsSet(start.files), AsSet(output.files))
      ensures ok <==> !OutputIsBusy(inputs.files, outputLevel)
      ensures ok ==> Completed(inputs, outputLevel, maxCompactionBytes, start, output)
    {
      assert WellFormed(inputs.files);
      hide ValidLevels, Compatible, CleanCut, Hull, ClosedOver, AsSet, Settled, LeastCut, ValidLevel, WellFormed, LeastAround,
           Encloses, CompactionPicker.OutputIsBusy, CompactionPicker.Completed, CompactionPicker.Grown,
           CompactionPicker.Overlapping, CompactionPicker.Largest, CompactionPicker.WorthTaking, CompactionPicker.AsksForSame;
      start := inputs;
      var r := GetRange(inputs);
      RangeIsProper(inputs.files, r);
      var meeting := GetOverlappingInputs(levels, outputLevel, r);
      output := InputFiles(outputLevel, meeting);
      var busy := AreFilesInCompaction(meeting);
      if busy {
        MeetingIsBusy(inputs.files, outputLevel, r, meeting);
        return false, start, output;
      }
      if meeting == [] {
        NothingMeets(levels, outputLevel, AsSet(inputs.files), r);
        NothingToTake(inputs, outputLevel, maxCompactionBytes, r);
        return true, start, output;
      }
      ok, output := ExpandInputsToCleanCut(output);
      MeetingCut(levels, outputLevel, r, meeting, AsSet(output.files));
      CutDecides(inputs.files, outputLevel, r, AsSet(output.files));
      if !ok {
        return;
      }
      start := GrowInputs(inputs, output, r, maxCompactionBytes, meeting);
    }

    /** Grows the inputs as far as that costs no more output files. */
    method GrowInputs(inputs: InputFiles, output: InputFiles, r: Range, maxCompactionBytes: nat, ghost meeting: seq<File>)
      returns (start: InputFiles)
      requires Valid() && inputs.files != [] && PartOf(inputs.files, levels, inputs.level) && Hull(AsSet(inputs.files), r)
      requires AsSet(inputs.files) !! beingCompacted && inputs.level != output.level && 0 < output.level < |levels|
      requires CleanCut(levels, inputs.level, AsSet(inputs.files)) && meeting != [] && PartOf(meeting, levels, output.level)
      requires forall f :: f in meeting <==> f in levels[output.level] && Meets(f, r)
      requires output.files != [] && PartOf(output.files, levels, output.level) && AsSet(output.files) !! beingCompacted
      requires AsSet(meeting) <= AsSet(output.files) && CleanCut(levels, output.level, AsSet(output.files))
      requires LeastCut(levels, output.level, AsSet(meeting), AsSet(output.files))
      requires forall u :: Hull(AsSet(inputs.files), u) ==> LeastAround(levels, output.level, u, AsSet(output.files))
      ensures start.level == inputs.level && AsSet(inputs.files) <= AsSet(start.files)
      ensures start.files != [] && PartOf(start.files, levels, inputs.level) && AsSet(start.files) !! beingCompacted
      ensures CleanCut(levels, inputs.level, AsSet(start.files))
      ensures Settled(levels, output.level, AsSet(start.files), AsSet(output.files))
      ensures Completed(inputs, output.level, maxCompactionBytes, start, output)
    {
      assert WellFormed(inputs.files);
      hide ValidLevels, Compatible, CleanCut, Hull, ClosedOver, AsSet, Settled, LeastCut, ValidLevel, WellFormed, LeastAround,
           Encloses, CompactionPicker.Completed, CompactionPicker.Grown,
           CompactionPicker.Overlapping, CompactionPicker.Largest, CompactionPicker.WorthTaking, CompactionPicker.AsksForSame;
      RangeIsProper(inputs.files, r);
      var t := GetRange(output);
      var all := Join(r, t);
      OutputIsClosed(levels, output.level, meeting, AsSet(output.files), r, t);
      SettledByUnion(levels, output.level, AsSet(inputs.files), AsSet(output.files), r, t);
      var grown, expanded;
      ghost var found;
      grown, expanded, found := GrowWholeRange(inputs, output, r, all, maxCompactionBytes, meeting, t);
      ghost var within := [];
      if grown {
        start := expanded;
      } else {
        start, within := GrowWithinRange(inputs, output, all, maxCompactionBytes, r, t);
      }
      assert Grown(inputs, output, all, maxCompactionBytes, start, found, expanded.files, within) by {
        hide *;
        IsGrown(inputs, output, all, maxCompactionBytes, start, found, expanded.files, within, grown);
      }
      IsCompleted(inputs, output, r, t, maxCompactionBytes, start, found, expanded.files, within);
    }

    lemma MeetingIsBusy(files: seq<File>, outputLevel: nat, r: Range, meeting: seq<File>)
      requires outputLevel < |levels| && Hull(AsSet(files), r) && !(AsSet(meeting) !! beingCompacted)
      requires forall f :: f in meeting ==> f in levels[outputLevel] && Meets(f, r)
      ensures OutputIsBusy(files, outputLevel)
    {
      var f :| f in AsSet(meeting) && f in beingCompacted;
      forall t, e: set<File> | Hull(AsSet(files), t) && Encloses(levels, outputLevel, t, e)
        ensures !(e !! beingCompacted)
      {
        HullIsUnique(AsSet(files), r, t);
        assert f in e;
      }
    }

    lemma NothingToTake(inputs: InputFiles, outputLevel: nat, maxCompactionBytes: nat, r: Range)
      requires inputs.level < |levels| && outputLevel < |levels| && Hull(AsSet(inputs.files), r)
      requires forall f :: f in levels[outputLevel] ==> !Meets(f, r)
      ensures !OutputIsBusy(inputs.files, outputLevel)
      ensures Completed(inputs, outputLevel, maxCompactionBytes, inputs, InputFiles(outputLevel, []))
    {
      NothingAround(levels, outputLevel, r);
      assert AsSet([]) == {};
      forall t | Hull(AsSet(inputs.files), t)
        ensures t == r
      {
        HullIsUnique(AsSet(inputs.files), r, t);
      }
    }

    lemma CutDecides(files: seq<File>, outputLevel: nat, r: Range, cut: set<File>)
      requires outputLevel < |levels| && Hull(AsSet(files), r) && LeastAround(levels, outputLevel, r, cut)
      ensures OutputIsBusy(files, outputLevel) <==> !(cut !! beingCompacted)
      ensures forall t :: Hull(AsSet(files), t) ==> LeastAround(levels, outputLevel, t, cut)
    {
      forall t | Hull(AsSet(files), t)
        ensures t == r
      {
        HullIsUnique(AsSet(files), r, t);
      }
    }

    lemma IsGrown(inputs: InputFiles, output: InputFiles, all: Range, maxCompactionBytes: nat, start: InputFiles,
                  found: seq<File>, whole: seq<File>, within: seq<File>, grown: bool)
      requires inputs.level < |levels| && output.level < |levels|
      requires Overlapping(inputs.level, all, found) && LeastAround(levels, inputs.level, all, AsSet(whole))
      requires grown <==> WorthTaking(inputs, whole, found, output, maxCompactionBytes) && AsksForSame(whole, output)
      requires grown ==> start.files == whole
      requires !grown ==> Largest(inputs.level, all, within)
      requires !grown ==>
                 start.files == if WorthTaking(inputs, within, within, output, maxCompactionBytes) then within else inputs.files
      ensures Grown(inputs, output, all, maxCompactionBytes, start, found, whole, within)
    {
    }

    lemma IsCompleted(inputs: InputFiles, output: InputFiles, r: Range, t: Range, maxCompactionBytes: nat, start: InputFiles,
                      found: seq<File>, whole: seq<File>, within: seq<File>)
      requires inputs.level < |levels| && output.level < |levels| && start.level == inputs.level && output.files != []
      requires Hull(AsSet(inputs.files), r) && Hull(AsSet(output.files), t)
      requires forall u :: Hull(AsSet(inputs.files), u) ==> LeastAround(levels, output.level, u, AsSet(output.files))
      requires Grown(inputs, output, Join(r, t), maxCompactionBytes, start, found, whole, within)
      ensures Completed(inputs, output.level, maxCompactionBytes, start, output)
    {
    }

    /** More input files inside the whole range, if they end at a clean cut. */
    method GrowWithinRange(inputs: InputFiles, output: InputFiles, all: Range, maxCompactionBytes: nat, ghost r: Range, ghost t: Range)
      returns (start: InputFiles, ghost within: seq<File>)
      requires Valid() && inputs.files != [] && PartOf(inputs.files, levels, inputs.level) && AsSet(inputs.files) !! beingCompacted
      requires CleanCut(levels, inputs.level, AsSet(inputs.files))
      requires Hull(AsSet(inputs.files), r) && all.smallest <= r.smallest && r.largest <= all.largest
      requires output.level < |levels| && ClosedOver(levels, output.level, AsSet(output.files), all)
      requires Hull(AsSet(output.files), t) && all.smallest <= t.smallest && t.largest <= all.largest
      requires Settled(levels, output.level, AsSet(inputs.files), AsSet(output.files))
      ensures start.level == inputs.level && start.files != [] && PartOf(start.files, levels, inputs.level)
      ensures AsSet(start.files) !! beingCompacted && AsSet(inputs.files) <= AsSet(start.files)
      ensures CleanCut(levels, inputs.level, AsSet(start.files))
      ensures Settled(levels, output.level, AsSet(start.files), AsSet(output.files))
      ensures Largest(inputs.level, all, within)
      ensures start.files == if WorthTaking(inputs, within, within, output, maxCompactionBytes) then within else inputs.files
    {
      hide ValidLevels, Compatible, CleanCut, Hull, ClosedOver, AsSet, Settled, LeastCut, WellFormed;
      start := inputs;
      var clean := GetCleanInputsWithinInterval(levels, inputs.level, all);
      within := clean;
      var busy := AreFilesInCompaction(clean);
      if |clean| > |inputs.files| && TotalCompensated(output.files) + TotalCompensated(clean) < maxCompactionBytes && !busy {
        start := InputFiles(inputs.level, clean);
        InputsAreKept(levels, inputs, clean, r, all);
        var c := GetRange(start);
        SettledInside(levels, output.level, clean, AsSet(output.files), c, t, all);
      }
    }

    /** All input-level files in the whole range, if they need the same output files only. */
    method GrowWholeRange(inputs: InputFiles, output: InputFiles, r: Range, all: Range, maxCompactionBytes: nat,
                          ghost meeting: seq<File>, ghost t: Range) returns (grown: bool, expanded: InputFiles, ghost counted: seq<File>)
      requires Valid() && inputs.files != [] && PartOf(inputs.files, levels, inputs.level) && Hull(AsSet(inputs.files), r)
      requires inputs.level != output.level && 0 < output.level < |levels| && meeting != []
      requires output.files != [] && PartOf(output.files, levels, output.level) && Hull(AsSet(output.files), t) && all == Join(r, t)
      requires LeastCut(levels, output.level, AsSet(meeting), AsSet(output.files)) && CleanCut(levels, output.level, AsSet(output.files))
      requires PartOf(meeting, levels, output.level) && AsSet(meeting) <= AsSet(output.files) && AsSet(output.files) !! beingCompacted
      requires forall f :: f in meeting ==> Meets(f, r)
      ensures expanded.level == inputs.level
      ensures grown ==> expanded.files != [] && PartOf(expanded.files, levels, inputs.level) && AsSet(expanded.files) !! beingCompacted
      ensures grown ==> AsSet(inputs.files) <= AsSet(expanded.files) && CleanCut(levels, inputs.level, AsSet(expanded.files))
      ensures grown ==> Settled(levels, output.level, AsSet(expanded.files), AsSet(output.files))
      ensures Overlapping(inputs.level, all, counted) && LeastAround(levels, inputs.level, all, AsSet(expanded.files))
      ensures grown <==> WorthTaking(inputs, expanded.files, counted, output, maxCompactionBytes) && AsksForSame(expanded.files, output)
    {
      assert WellFormed(inputs.files);
      hide ValidLevels, Compatible, CleanCut, Hull, ClosedOver, AsSet, Settled, LeastCut, WellFormed, LeastAround, Encloses,
           CompactionPicker.AsksForSame;
      grown := false;
      var found := GetOverlappingInputs(levels, inputs.level, all);
      counted := found;
      FoundAround(inputs.level, all, found);
      InputsMeetRange(inputs.files, found, levels[inputs.level], r, all);
      var ok;
      ok, expanded := ExpandInputsToCleanCut(InputFiles(inputs.level, found));
      ExpandedAround(inputs.level, all, found, expanded.files);
      if !ok || |expanded.files| <= |inputs.files|
        || TotalCompensated(output.files) + TotalCompensated(found) >= maxCompactionBytes
      {
        return;
      }
      var busy := AreFilesInCompaction(expanded.files);
      if busy {
        return;
      }
      grown := NeedsNoMoreOutput(inputs.files, expanded, output, r, meeting, t);
    }

    /** Whether more input files ask for the same output files. */
    method NeedsNoMoreOutput(ghost inputs: seq<File>, expanded: InputFiles, output: InputFiles, ghost r: Range,
                             ghost meeting: seq<File>, ghost t: Range) returns (same: bool)
      requires Valid() && expanded.files != [] && PartOf(expanded.files, levels, expanded.level) && 0 < output.level < |levels|
      requires Hull(AsSet(inputs), r) && AsSet(inputs) <= AsSet(expanded.files) && meeting != []
      requires output.files != [] && PartOf(output.files, levels, output.level) && Hull(AsSet(output.files), t)
      requires LeastCut(levels, output.level, AsSet(meeting), AsSet(output.files)) && CleanCut(levels, output.level, AsSet(output.files))
      requires PartOf(meeting, levels, output.level) && AsSet(meeting) <= AsSet(output.files) && AsSet(output.files) !! beingCompacted
      requires forall f :: f in meeting ==> Meets(f, r)
      ensures same <==> AsksForSame(expanded.files, output)
      ensures same ==> Settled(levels, output.level, AsSet(expanded.files), AsSet(output.files))
    {
      assert WellFormed(expanded.files);
      hide ValidLevels, Compatible, CleanCut, Hull, ClosedOver, AsSet, Settled, LeastCut, WellFormed, LeastAround, Encloses,
           CompactionPicker.AsksForSame;
      same := false;
      var n := GetRange(expanded);
      RangeGrows(AsSet(inputs), AsSet(expanded.files), r, n);
      RangeIsProper(expanded.files, n);
      var expandedOutput := GetOverlappingInputs(levels, output.level, n);
      MeetingGrows(meeting, expandedOutput, levels[output.level], r, n);
      var busy := AreFilesInCompaction(expandedOutput);
      if busy {
        BusyAsksForMore(expanded.files, output, n, expandedOutput);
        return;
      }
      var ok, cut := ExpandInputsToCleanCut(InputFiles(output.level, expandedOutput));
      MeetingCut(levels, output.level, n, expandedOutput, AsSet(cut.files));
      SameIffCounts(expanded.files, output, n, cut.files);
      if ok && |cut.files| == |output.files| {
        same := true;
        SameFiles(output.files, cut.files);
        OutputIsClosed(levels, output.level, expandedOutput, AsSet(output.files), n, t);
        SettledByUnion(levels, output.level, AsSet(expanded.files), AsSet(output.files), n, t);
      }
    }

    lemma FoundAround(level: nat, r: Range, found: seq<File>)
      requires level < |levels| && PartOf(found, levels, level)
      requires level > 0 ==> forall f :: f in found <==> f in levels[level] && Meets(f, r)
      requires level == 0 ==> Encloses(levels, 0, r, AsSet(found)) && forall e: set<File> :: Encloses(levels, 0, r, e) ==> AsSet(found) <= e
      ensures Overlapping(level, r, found)
      ensures forall f :: f in levels[level] && Meets(f, r) ==> f in found
    {
      assert forall f :: f in found <==> f in AsSet(found);
    }

    lemma ExpandedAround(level: nat, r: Range, found: seq<File>, expanded: seq<File>)
      requires level < |levels| && Overlapping(level, r, found) && AsSet(found) <= AsSet(expanded)
      requires level == 0 ==> expanded == found
      requires level > 0 ==> CleanCut(levels, level, AsSet(expanded)) && LeastCut(levels, level, AsSet(found), AsSet(expanded))
      ensures LeastAround(levels, level, r, AsSet(expanded)) && CleanCut(levels, level, AsSet(expanded))
    {
      if level > 0 { MeetingCut(levels, level, r, found, AsSet(expanded)); }
    }

    lemma BusyAsksForMore(files: seq<File>, output: InputFiles, n: Range, meeting: seq<File>)
      requires output.level < |levels| && Hull(AsSet(files), n) && AsSet(output.files) !! beingCompacted
      requires !(AsSet(meeting) !! beingCompacted) && forall f :: f in meeting ==> f in levels[output.level] && Meets(f, n)
      ensures !AsksForSame(files, output)
    {
      var f :| f in AsSet(meeting) && f in beingCompacted;
      assert f in levels[output.level] && Meets(f, n);
      assert LeastAround(levels, output.level, n, AsSet(output.files)) ==> f in AsSet(output.files);
    }

    lemma SameIffCounts(files: seq<File>, output: InputFiles, n: Range, cut: seq<File>)
      requires output.level < |levels| && Hull(AsSet(files), n) && LeastAround(levels, output.level, n, AsSet(cut))
      requires PartOf(cut, levels, output.level) && PartOf(output.files, levels, output.level)
      requires AsSet(output.files) !! beingCompacted
      ensures AsksForSame(files, output) <==> AsSet(cut) == AsSet(output.files)
      ensures AsSet(cut) == AsSet(output.files) ==> |cut| == |output.files| && AsSet(cut) !! beingCompacted
    {
      DistinctCount(cut);
      DistinctCount(output.files);
      forall r | Hull(AsSet(files), r)
        ensures r == n
      {
        HullIsUnique(AsSet(files), r, n);
      }
      if LeastAround(levels, output.level, n, AsSet(output.files)) {
        LeastIsUnique(levels, output.level, n, AsSet(cut), AsSet(output.files));
      }
    }

    // ---- starting and ending compactions ----

    /** Marks every input file; none was marked before. */
    method MarkFilesBeingCompacted(inputs: seq<InputFiles>)
      requires ValidInputs(inputs) && Ascending(inputs) && FilesOf(inputs) !! beingCompacted
      modifies this`beingCompacted
      ensures beingCompacted == old(beingCompacted) + FilesOf(inputs)
    {
      for i := 0 to |inputs|
        invariant beingCompacted == old(beingCompacted) + FilesOf(inputs[..i])
      {
        var files := inputs[i].files;
        assert files[..0] == [] && inputs[..i + 1][..i] == inputs[..i] && inputs[..i + 1][i] == inputs[i];
        for j := 0 to |files|
          invariant beingCompacted == old(beingCompacted) + FilesOf(inputs[..i]) + AsSet(files[..j])
        {
          assert files[..j + 1] == files[..j] + [files[j]];
          assert files[j] !in beingCompacted by { NotYetMarked(inputs, i, j); }
          beingCompacted := beingCompacted + {files[j]};
        }
        assert files[..|files|] == files;
      }
      assert inputs[..|inputs|] == inputs;
    }

    /** Clears the mark of every input file; all were marked before. */
    method ClearFilesBeingCompacted(inputs: seq<InputFiles>)
      requires ValidInputs(inputs) && Ascending(inputs) && FilesOf(inputs) <= beingCompacted
      modifies this`beingCompacted
      ensures beingCompacted == old(beingCompacted) - FilesOf(inputs)
    {
      for i := 0 to |inputs|
        invariant beingCompacted == old(beingCompacted) - FilesOf(inputs[..i])
      {
        var files := inputs[i].files;
        assert files[..0] == [] && inputs[..i + 1][..i] == inputs[..i] && inputs[..i + 1][i] == inputs[i];
        for j := 0 to |files|
          invariant beingCompacted == old(beingCompacted) - FilesOf(inputs[..i]) - AsSet(files[..j])
        {
          assert files[..j + 1] == files[..j] + [files[j]];
          assert files[j] in beingCompacted by { NotYetMarked(inputs, i, j); }
          beingCompacted := beingCompacted - {files[j]};
        }
        assert files[..|files|] == files;
      }
      assert inputs[..|inputs|] == inputs;
    }

    /** What starting a compaction leads to. */
    lemma MayStart(c: Compaction)
      requires Valid() && c.inputs != [] && ValidInputs(c.inputs) && Ascending(c.inputs) && Hull(FilesOf(c.inputs), c.range)
      requires FilesOf(c.inputs) !! beingCompacted
      requires c.outputLevel != 0 ==> Free(compactionsInProgress, c.range, c.outputLevel)
      ensures ValidCompaction(c) && c !in compactionsInProgress
      ensures Compatible(beingCompacted + FilesOf(c.inputs), compactionsInProgress + {c})
      ensures Level0Of(compactionsInProgress + {c}) == level0CompactionsInProgress + if c.StartLevel() == 0 then {c} else {}
    {
      assert ValidCompaction(c);
      hide ValidLevels, FilesOf, ValidCompaction, Ascending, ValidInputs, Hull, Free, Compatible;
      StartIsCompatible(beingCompacted, compactionsInProgress, c);
      Level0OfMore(compactionsInProgress, c);
    }

    /** What ending a compaction leads to. */
    lemma MayEnd(c: Compaction)
      requires Valid() && c in compactionsInProgress
      ensures c.inputs != [] && ValidInputs(c.inputs) && Ascending(c.inputs) && FilesOf(c.inputs) <= beingCompacted
      ensures Compatible(beingCompacted - FilesOf(c.inputs), compactionsInProgress - {c})
      ensures Level0Of(compactionsInProgress - {c}) == level0CompactionsInProgress - if c.StartLevel() == 0 then {c} else {}
    {
      assert ValidCompaction(c) && FilesOf(c.inputs) <= beingCompacted;
      hide ValidLevels, FilesOf, ValidInputs, Hull, Compatible;
      EndIsCompatible(beingCompacted, compactionsInProgress, c);
      Level0OfMore(compactionsInProgress, c);
    }

    /** Creates and registers a compaction. */
    method StartCompaction(inputs: seq<InputFiles>, outputLevel: nat) returns (c: Compaction)
      requires Valid() && inputs != [] && ValidInputs(inputs) && Ascending(inputs) && FilesOf(inputs) != {}
      requires FilesOf(inputs) !! beingCompacted
      requires outputLevel != 0 ==> forall r :: Hull(FilesOf(inputs), r) ==> Free(compactionsInProgress, r, outputLevel)
      modifies this`beingCompacted, this`compactionsInProgress, this`level0CompactionsInProgress
      ensures Valid() && c.inputs == inputs && c.outputLevel == outputLevel && ValidCompaction(c)
      ensures compactionsInProgress == old(compactionsInProgress) + {c} && c !in old(compactionsInProgress)
      ensures beingCompacted == old(beingCompacted) + FilesOf(inputs)
    {
      hide Compatible, ValidLevels, FilesOf, ValidCompaction, Ascending, ValidInputs, Hull, Level0Of, Free;
      var range := GetRangeOfAll(inputs);
      c := Compaction(inputs, outputLevel, range.value);
      MayStart(c);
      MarkFilesBeingCompacted(inputs);
      if inputs[0].level == 0 {
        level0CompactionsInProgress := level0CompactionsInProgress + {c};
      }
      compactionsInProgress := compactionsInProgress + {c};
    }

    /** Ends a running compaction. */
    method ReleaseCompactionFiles(c: Compaction)
      requires Valid() && c in compactionsInProgress
      modifies this`beingCompacted, this`compactionsInProgress, this`level0CompactionsInProgress
      ensures Valid() && compactionsInProgress == old(compactionsInProgress) - {c}
      ensures beingCompacted == old(beingCompacted) - FilesOf(c.inputs)
    {
      hide Compatible, ValidLevels, FilesOf, ValidCompaction, Ascending, ValidInputs, Hull, Level0Of;
      MayEnd(c);
      ClearFilesBeingCompacted(c.inputs);
      if c.StartLevel() == 0 {
        level0CompactionsInProgress := level0CompactionsInProgress - {c};
      }
      compactionsInProgress := compactionsInProgress - {c};
    }

    /** A flush, an ingestion or a finished compaction installs other levels. */
    method InstallVersion(newLevels: Levels, newBaseLevel: nat)
      requires Valid() && ValidLevels(newLevels) && 0 < newBaseLevel < |newLevels| && EmptyBetween(newLevels, 0, newBaseLevel)
      modifies this`levels, this`baseLevel
      ensures Valid() && levels == newLevels && baseLevel == newBaseLevel
    {
      levels, baseLevel := newLevels, newBaseLevel;
    }

    // ---- picking ----

    /** What the files that a pick starts with have to satisfy. */
    ghost predicate Ready(start: InputFiles, outputLevel: nat)
      reads this
    {
      && start.files != [] && PartOf(start.files, levels, start.level) && AsSet(start.files) !! beingCompacted
      && outputLevel < |levels| && (outputLevel == 0 ==> start.level == 0)
      && EmptyBetween(levels, start.level, outputLevel)
      && (start.level > 0 ==> CleanCut(levels, start.level, AsSet(start.files)))
    }

    /** What a started compaction satisfies: its output meets no left-out file of the output level and no other
        compaction writing there, and the files of its start level, level 0 included, are cleanly cut. */
    ghost predicate Sound(c: Compaction, others: set<Compaction>)
      reads this
    {
      && ValidCompaction(c) && c.outputLevel < |levels| && FromLevels(levels, c.inputs, c.outputLevel)
      && (c.outputLevel > 0 ==> ClosedOver(levels, c.outputLevel, FilesOf(c.inputs), c.range))
      && (c.outputLevel > 0 ==> Free(others, c.range, c.outputLevel))
      && (c.outputLevel > 0 ==> CleanCut(levels, c.StartLevel(), AsSet(c.inputs[0].files)))
      && EmptyBetween(levels, c.StartLevel(), c.outputLevel)
    }

    /** A file of the start level that stays behind meets none of those that are taken. */
    lemma NothingLeftBehind(c: Compaction, others: set<Compaction>, taken: File, kept: File)
      requires Sound(c, others) && c.outputLevel > 0
      requires taken in c.inputs[0].files && taken.smallest <= taken.largest
      requires kept in levels[c.StartLevel()] && kept !in c.inputs[0].files
      ensures !Meets(kept, Range(taken.smallest, taken.largest))
    {
      assert taken in AsSet(c.inputs[0].files);
    }

    /**
     * Where a file that is not taken may hold a key of one that is: below the output level, above the start level,
     * or in the start level when the key is taken from the output level only. So no older version stays above a newer.
     */
    lemma KeptVersionsKeepTheirPlace(c: Compaction, others: set<Compaction>, taken: File, kept: File, l: nat, key: Key)
      requires Valid() && Sound(c, others) && c.outputLevel > 0
      requires taken in FilesOf(c.inputs) && Covers(taken, key)
      requires l < |levels| && kept in levels[l] && kept !in FilesOf(c.inputs) && Covers(kept, key)
      ensures l < c.StartLevel() || c.outputLevel < l || (l == c.StartLevel() && forall f :: f in c.inputs[0].files ==> !Covers(f, key))
    {
      hide Compatible;
      FileHasLevel(c.inputs, kept);
      assert c.inputs[0].files != [] ==> c.inputs[0] in c.inputs;
      if l == c.StartLevel() {
        forall f | f in c.inputs[0].files
          ensures !Covers(f, key)
        {
          if Covers(f, key) { NothingLeftBehind(c, others, f, kept); }
        }
      }
    }

    lemma InputsOfTwo(start: InputFiles, output: InputFiles)
      requires start.files != [] && PartOf(start.files, levels, start.level) && start.level < output.level
      requires PartOf(output.files, levels, output.level)
      ensures FilesOf([start]) == AsSet(start.files) && AsSet(start.files) != {}
      ensures FilesOf([start, output]) == AsSet(start.files) + AsSet(output.files)
      ensures ValidInputs([start]) && ValidInputs([start, output]) && Ascending([start]) && Ascending([start, output])
      ensures output.files == [] ==> AsSet(output.files) == {}
    {
      assert [start, output][..1] == [start] && [start][..0] == [];
      assert FilesOf([]) == {};
      assert start.files[0] in AsSet(start.files);
    }

    /** The inputs of a compaction of two levels; without output files there is only one. */
    function InputsFrom(start: InputFiles, output: InputFiles): seq<InputFiles> {
      if output.files == [] then [start] else [start, output]
    }

    /** A pick that starts with these files comes to nothing: output files are taken, or a running compaction is in the way. */
    ghost predicate CannotFinish(start: InputFiles, outputLevel: nat, maxCompactionBytes: nat)
      requires start.level < |levels| && outputLevel < |levels|
      reads this
    {
      || OutputIsBusy(start.files, outputLevel)
      || exists grown, output :: Completed(start, outputLevel, maxCompactionBytes, grown, output) &&
                                 Conflicts(FilesOf(InputsFrom(grown, output)), outputLevel)
    }

    /** A pick that starts with these files ends with those inputs. */
    ghost predicate FinishesWith(start: InputFiles, outputLevel: nat, maxCompactionBytes: nat, inputs: seq<InputFiles>)
      requires start.level < |levels| && outputLevel < |levels|
      reads this
    {
      && !OutputIsBusy(start.files, outputLevel) && !Conflicts(FilesOf(inputs), outputLevel)
      && exists grown, output :: Completed(start, outputLevel, maxCompactionBytes, grown, output) && inputs == InputsFrom(grown, output)
    }

    lemma DoesFinish(start: InputFiles, outputLevel: nat, maxCompactionBytes: nat, grown: InputFiles, output: InputFiles)
      requires start.level < |levels| && outputLevel < |levels| && !OutputIsBusy(start.files, outputLevel)
      requires Completed(start, outputLevel, maxCompactionBytes, grown, output)
      requires forall r :: Hull(FilesOf(InputsFrom(grown, output)), r) ==> Free(compactionsInProgress, r, outputLevel)
      ensures FinishesWith(start, outputLevel, maxCompactionBytes, InputsFrom(grown, output))
    {
    }

    /** The last steps of a pick: the files of the output level, the check against running compactions, the start. */
    method FinishPick(start: InputFiles, outputLevel: nat, maxCompactionBytes: nat) returns (c: Option<Compaction>)
      requires Valid() && Ready(start, outputLevel) && 0 < outputLevel && start.level < outputLevel
      requires CleanCut(levels, start.level, AsSet(start.files))
      modifies this`beingCompacted, this`compactionsInProgress, this`level0CompactionsInProgress
      ensures Valid()
      ensures c.None? ==> compactionsInProgress == old(compactionsInProgress) && beingCompacted == old(beingCompacted)
      ensures c.Some? ==> Sound(c.value, old(compactionsInProgress)) && c.value.outputLevel == outputLevel && c.value.StartLevel() == start.level
      ensures c.Some? ==> AsSet(start.files) <= FilesOf(c.value.inputs) && CleanCut(levels, start.level, AsSet(c.value.inputs[0].files))
      ensures c.Some? ==> compactionsInProgress == old(compactionsInProgress) + {c.value} && c.value !in old(compactionsInProgress)
      ensures c.Some? ==> beingCompacted == old(beingCompacted) + FilesOf(c.value.inputs)
      ensures c.None? ==> old(CannotFinish(start, outputLevel, maxCompactionBytes))
      ensures c.Some? ==> old(FinishesWith(start, outputLevel, maxCompactionBytes, c.value.inputs))
    {
      hide CleanCut, Hull, ClosedOver, FilesOf, AsSet, Settled, Free, ValidLevels, Compatible, ValidLevel, Ascending,
           ValidInputs, EmptyBetween, Level0Of, ValidCompaction, CompactionPicker.Completed, CompactionPicker.OutputIsBusy;
      var ok, grown, output := SetupOtherInputs(start, outputLevel, maxCompactionBytes);
      if !ok {
        return None;
      }
      InputsOfTwo(grown, output);
      var inputs := InputsFrom(grown, output);
      var overlap := FilesRangeOverlapWithCompaction(inputs, outputLevel);
      if overlap {
        return None;
      }
      DoesFinish(start, outputLevel, maxCompactionBytes, grown, output);
      var started := StartCompaction(inputs, outputLevel);
      PickIsSound(started, AsSet(grown.files), AsSet(output.files), old(compactionsInProgress));
      c := Some(started);
    }

    lemma PickIsSound(c: Compaction, start: set<File>, output: set<File>, others: set<Compaction>)
      requires ValidCompaction(c) && 0 < c.outputLevel < |levels| && FilesOf(c.inputs) == start + output
      requires Settled(levels, c.outputLevel, start, output)
      requires forall r :: Hull(FilesOf(c.inputs), r) ==> Free(others, r, c.outputLevel)
      requires FromLevels(levels, c.inputs, c.outputLevel) && CleanCut(levels, c.StartLevel(), AsSet(c.inputs[0].files))
      requires EmptyBetween(levels, c.StartLevel(), c.outputLevel)
      ensures Sound(c, others)
    {
    }

    /** How many files a manual compaction of a deeper level takes at once. */
    method LimitInputs(files: seq<File>, level: nat, maxCompactionBytes: nat) returns (taken: seq<File>, compactionEnd: Option<Key>)
      requires files != [] && ValidLevel(files, level)
      ensures taken != [] && taken <= files && ValidLevel(taken, level)
      ensures forall k :: 0 < k < |taken| ==> TotalCompensated(files[..k]) < maxCompactionBytes
      ensures taken == files || TotalCompensated(taken) >= maxCompactionBytes
      ensures compactionEnd == if |taken| < |files| then Some(files[|taken|].smallest) else None
    {
      hide ValidLevel;
      taken, compactionEnd := files, None;
      var total := 0;
      for i := 0 to |files| - 1
        invariant total == TotalCompensated(files[..i]) && taken == files && compactionEnd.None?
        invariant forall k :: 0 < k <= i ==> TotalCompensated(files[..k]) < maxCompactionBytes
      {
        assert files[..i + 1][..i] == files[..i];
        total := total + files[i].compensatedSize;
        if total >= maxCompactionBytes {
          PrefixIsValid(files, i + 1, level);
          taken, compactionEnd := files[..i + 1], Some(files[i + 1].smallest);
          break;
        }
      }
    }

    /** A manual compaction of the files of a level that meet a range, or of all its files. */
    method CompactRange(inputLevel: nat, outputLevel: Option<nat>, range: Option<Range>, maxCompactionBytes: nat)
      returns (c: Option<Compaction>, manualConflict: bool, compactionEnd: Option<Key>, ghost meeting: seq<File>, ghost taken: nat,
               ghost cut: InputFiles)
      requires Valid() && inputLevel < |levels| && (outputLevel.None? ==> inputLevel == 0)
      requires outputLevel.Some? ==> inputLevel <= outputLevel.value < |levels| && EmptyBetween(levels, inputLevel, outputLevel.value)
      modifies this`beingCompacted, this`compactionsInProgress, this`level0CompactionsInProgress
      ensures Valid() && (manualConflict ==> c.None?)
      ensures c.None? ==> compactionsInProgress == old(compactionsInProgress) && beingCompacted == old(beingCompacted)
      ensures c.Some? ==> Sound(c.value, old(compactionsInProgress)) && c.value.StartLevel() == inputLevel
      ensures c.Some? ==> c.value.outputLevel == (if outputLevel.Some? then outputLevel.value else baseLevel)
      ensures c.Some? ==> compactionsInProgress == old(compactionsInProgress) + {c.value} && c.value !in old(compactionsInProgress)
      ensures c.Some? ==> beingCompacted == old(beingCompacted) + FilesOf(c.value.inputs)
      ensures c.Some? ==> CleanCut(levels, inputLevel, AsSet(c.value.inputs[0].files))
      // The files that meet the range are taken in order, all of them or until they are large enough.
      ensures inputLevel > 0 ==> forall f :: f in meeting <==> f in levels[inputLevel] && (range.None? || Meets(f, range.value))
      ensures c.Some? ==> 0 < taken <= |meeting| && AsSet(meeting[..taken]) <= FilesOf(c.value.inputs)
      ensures c.Some? && taken < |meeting| ==> inputLevel > 0 && TotalCompensated(meeting[..taken]) >= maxCompactionBytes
      ensures c.Some? && inputLevel > 0 ==> forall k :: 0 < k < taken ==> TotalCompensated(meeting[..k]) < maxCompactionBytes
      // What is taken is grown to a clean cut; nothing is started exactly when nothing meets the range, or a running
      // compaction is in the way.
      ensures c.None? && !manualConflict <==> meeting == []
      ensures cut.level == inputLevel && taken <= |meeting|
      ensures inputLevel == 0 ==> cut.files == meeting
      ensures inputLevel > 0 && meeting != [] ==>
                CleanCut(levels, inputLevel, AsSet(cut.files)) && LeastCut(levels, inputLevel, AsSet(meeting[..taken]), AsSet(cut.files))
      ensures var target := if outputLevel.Some? then outputLevel.value else baseLevel;
              manualConflict ==>
                || (inputLevel == 0 && old(level0CompactionsInProgress) != {})
                || !(AsSet(cut.files) !! old(beingCompacted))
                || (inputLevel == target && old(Conflicts(AsSet(cut.files), target)))
                || (inputLevel != target && old(CannotFinish(cut, target, maxCompactionBytes)))
      ensures var target := if outputLevel.Some? then outputLevel.value else baseLevel;
              c.Some? ==>
                if inputLevel == target then c.value.inputs == [cut] && !old(Conflicts(AsSet(cut.files), target))
                else old(FinishesWith(cut, target, maxCompactionBytes, c.value.inputs))
      // The next round starts at the first file that was not reached, and everything not reached lies at or after it.
      ensures c.Some? ==> compactionEnd == if taken < |meeting| then Some(meeting[taken].smallest) else None
      ensures c.Some? && taken < |meeting| ==> forall k :: taken <= k < |meeting| ==> meeting[taken].smallest <= meeting[k].smallest
      // Level 0 is taken whole where it meets the range.
      ensures c.Some? && inputLevel == 0 ==>
                forall f :: f in levels[0] && (range.None? || Meets(f, range.value)) ==> f in FilesOf(c.value.inputs)
    {
      hide CleanCut, Hull, ClosedOver, FilesOf, AsSet, Settled, Free, Compatible, ValidLevel, Ascending, ValidInputs,
           Level0Of, ValidCompaction, Sound, LeastCut, Encloses;
      LevelIsPart(inputLevel);
      var files := levels[inputLevel];
      if range.Some? {
        files := GetOverlappingInputs(levels, inputLevel, range.value);
      }
      meeting, taken, compactionEnd, cut := files, |files|, None, InputFiles(inputLevel, files);
      if inputLevel == 0 { MeetingIsTaken(files, range); }
      if files == [] {
        return None, false, None, meeting, taken, cut;
      }
      if inputLevel == 0 && level0CompactionsInProgress != {} {
        return None, true, None, meeting, taken, cut;
      }
      if inputLevel > 0 {
        files, compactionEnd := LimitInputs(files, inputLevel, maxCompactionBytes);
        taken := |files|;
        RestLiesAfter(meeting, inputLevel, taken);
        PrefixesOf(files, meeting);
      }
      assert files == meeting[..taken];
      var ok, inputs := ExpandInputsToCleanCut(InputFiles(inputLevel, files));
      cut := inputs;
      if !ok {
        return None, true, None, meeting, taken, cut;
      }
      if inputLevel == 0 {
        Level0IsIdle(inputs.files);
      }
      var target := if outputLevel.Some? then outputLevel.value else baseLevel;
      if inputLevel != target {
        c := FinishPick(inputs, target, maxCompactionBytes);
        return c, c.None?, compactionEnd, meeting, taken, cut;
      }
      c := RewriteLevel(inputs);
      if c.Some? { InputsOfOne(inputs); }
      return c, c.None?, compactionEnd, meeting, taken, cut;
    }

    lemma PrefixesOf(files: seq<File>, all: seq<File>)
      requires files <= all
      ensures forall f :: f in files ==> f in all
      ensures forall k :: 0 < k < |files| ==> all[..k] == files[..k]
    {
    }

    lemma RestLiesAfter(files: seq<File>, level: nat, taken: nat)
      requires ValidLevel(files, level) && level > 0
      ensures taken < |files| ==> forall k :: taken <= k < |files| ==> files[taken].smallest <= files[k].smallest
    {
      if taken < |files| { assert files[taken] in files; }
    }

    lemma MeetingIsTaken(files: seq<File>, range: Option<Range>)
      requires Valid() && levels != []
      requires if range.None? then files == levels[0] else Encloses(levels, 0, range.value, AsSet(files))
      ensures CleanCut(levels, 0, AsSet(files))
      ensures forall f :: f in levels[0] && (range.None? || Meets(f, range.value)) ==> f in files && f in AsSet(files)
    {
    }

    lemma LevelIsPart(level: nat)
      requires Valid() && level < |levels|
      ensures PartOf(levels[level], levels, level)
    {
      assert ValidLevel(levels[level], level);
    }

    /** A manual compaction within one level. */
    method RewriteLevel(inputs: InputFiles) returns (c: Option<Compaction>)
      requires Valid() && inputs.files != [] && PartOf(inputs.files, levels, inputs.level) && AsSet(inputs.files) !! beingCompacted
      requires CleanCut(levels, inputs.level, AsSet(inputs.files))
      modifies this`beingCompacted, this`compactionsInProgress, this`level0CompactionsInProgress
      ensures Valid()
      ensures c.None? ==> compactionsInProgress == old(compactionsInProgress) && beingCompacted == old(beingCompacted)
      ensures c.Some? ==> Sound(c.value, old(compactionsInProgress)) && c.value.StartLevel() == c.value.outputLevel == inputs.level
      ensures c.Some? ==> c.value.inputs == [inputs]
      ensures c.None? <==> old(Conflicts(AsSet(inputs.files), inputs.level))
      ensures c.Some? ==> compactionsInProgress == old(compactionsInProgress) + {c.value} && c.value !in old(compactionsInProgress)
      ensures c.Some? ==> beingCompacted == old(beingCompacted) + FilesOf(c.value.inputs)
    {
      hide CleanCut, Hull, ClosedOver, FilesOf, AsSet, Settled, Free, ValidLevels, Compatible, ValidLevel, Ascending,
           ValidInputs, Level0Of, ValidCompaction;
      InputsOfOne(inputs);
      var busy := AreFilesInCompaction(inputs.files);
      if busy {
        return None;
      }
      var overlap := FilesRangeOverlapWithCompaction([inputs], inputs.level);
      if overlap {
        return None;
      }
      var started := StartCompaction([inputs], inputs.level);
      RewriteIsSound(started, inputs, old(compactionsInProgress));
      c := Some(started);
    }

    lemma InputsOfOne(inputs: InputFiles)
      requires inputs.files != [] && PartOf(inputs.files, levels, inputs.level)
      ensures FilesOf([inputs]) == AsSet(inputs.files) && AsSet(inputs.files) != {}
      ensures ValidInputs([inputs]) && Ascending([inputs])
    {
      assert [inputs][..0] == [];
      assert FilesOf([]) == {};
      assert inputs.files[0] in AsSet(inputs.files);
    }

    lemma RewriteIsSound(c: Compaction, inputs: InputFiles, others: set<Compaction>)
      requires ValidCompaction(c) && c.inputs == [inputs] && c.outputLevel == inputs.level && PartOf(inputs.files, levels, inputs.level)
      requires FilesOf(c.inputs) == AsSet(inputs.files)
      requires inputs.level > 0 ==> CleanCut(levels, inputs.level, AsSet(inputs.files))
      requires forall r :: Hull(FilesOf(c.inputs), r) ==> Free(others, r, c.outputLevel)
      ensures Sound(c, others)
    {
      hide CleanCut, ClosedOver, Free;
      if inputs.level > 0 {
        CleanCutIsClosed(levels, inputs.level, AsSet(inputs.files), c.range);
      }
    }

    /** A compaction of files that its caller has completed; their completeness is the caller's. */
    method CompactFiles(inputFiles: seq<InputFiles>, outputLevel: nat) returns (c: Option<Compaction>)
      requires Valid() && inputFiles != [] && ValidInputs(inputFiles) && Ascending(inputFiles) && FilesOf(inputFiles) != {}
      requires FilesOf(inputFiles) !! beingCompacted
      modifies this`beingCompacted, this`compactionsInProgress, this`level0CompactionsInProgress
      ensures Valid()
      ensures c.None? ==> compactionsInProgress == old(compactionsInProgress) && beingCompacted == old(beingCompacted)
      ensures c.Some? ==> c.value.inputs == inputFiles && c.value.outputLevel == outputLevel
      ensures c.Some? ==> Free(old(compactionsInProgress), c.value.range, outputLevel)
      ensures c.Some? ==> compactionsInProgress == old(compactionsInProgress) + {c.value} && c.value !in old(compactionsInProgress)
      ensures c.Some? ==> beingCompacted == old(beingCompacted) + FilesOf(inputFiles)
      ensures c.None? <==> (inputFiles[0].level == 0 && old(level0CompactionsInProgress) != {}) ||
                           old(Conflicts(FilesOf(inputFiles), outputLevel))
    {
      if inputFiles[0].level == 0 && level0CompactionsInProgress != {} {
        return None;
      }
      hide Hull, FilesOf, Free, ValidLevels, Compatible, ValidLevel, Ascending, ValidInputs, Level0Of, ValidCompaction;
      var overlap := FilesRangeOverlapWithCompaction(inputFiles, outputLevel);
      if overlap {
        return None;
      }
      var started := StartCompaction(inputFiles, outputLevel);
      assert Hull(FilesOf(inputFiles), started.range) by { RangeOfCompaction(started); }
      c := Some(started);
    }

    lemma RangeOfCompaction(c: Compaction)
      requires ValidCompaction(c)
      ensures Hull(FilesOf(c.inputs), c.range)
    {
    }

    // ---- automatic picks ----

    /** The level that a level is compacted into. */
    function NextLevel(level: nat): nat
      reads this
    {
      if level == 0 then baseLevel else level + 1
    }

    /** The first file by priority, from a position on, that is idle and whose overlaps in the output level are idle. */
    method PickFileToCompact(startLevel: nat, outputLevel: nat, priority: seq<nat>, from: int)
      returns (start: InputFiles, nextIndex: int, ghost at: nat)
      requires Valid() && startLevel < |levels| && 0 < outputLevel < |levels|
      requires forall i :: 0 <= i < |priority| ==> priority[i] < |levels[startLevel]|
      ensures start.level == startLevel
      ensures start.files != [] ==> PartOf(start.files, levels, startLevel) && AsSet(start.files) !! beingCompacted
      ensures start.files != [] && startLevel == 0 ==> level0CompactionsInProgress == {}
      ensures start.files != [] ==>
                && 0 <= from <= at < |priority| && start.files == [levels[startLevel][priority[at]]]
                && !Blocked(levels[startLevel][priority[at]], outputLevel)
                && AllBlocked(startLevel, outputLevel, priority, from, at)
      ensures start.files == [] && (startLevel > 0 || level0CompactionsInProgress == {}) && from >= 0 ==>
        AllBlocked(startLevel, outputLevel, priority, from, |priority|)
      // The next search resumes at the first idle file that this one came to.
      ensures nextIndex >= 0 ==>
                && 0 <= from <= nextIndex < |priority| && levels[startLevel][priority[nextIndex]] !in beingCompacted
                && forall i :: from <= i < nextIndex ==> levels[startLevel][priority[i]] in beingCompacted
      ensures start.files != [] ==> 0 <= nextIndex <= at
    {
      hide ValidLevel, ValidLevels, Compatible, AsSet, PartOf, CompactionPicker.Blocked;
      start, nextIndex, at := InputFiles(startLevel, []), -1, 0;
      if startLevel == 0 && level0CompactionsInProgress != {} {
        return;
      }
      OneFileIsPart(levels, startLevel);
      var first: nat := if from < 0 then |priority| else from;
      var i := first;
      while i < |priority|
        invariant start == InputFiles(startLevel, []) && first <= i
        invariant AllBlocked(startLevel, outputLevel, priority, first, i)
        invariant nextIndex == -1 ==> forall k :: first <= k < i && k < |priority| ==> levels[startLevel][priority[k]] in beingCompacted
        invariant nextIndex != -1 ==>
                    && first <= nextIndex < i && nextIndex < |priority| && levels[startLevel][priority[nextIndex]] !in beingCompacted
                    && forall k :: first <= k < nextIndex ==> levels[startLevel][priority[k]] in beingCompacted
      {
        var f := levels[startLevel][priority[i]];
        if nextIndex == -1 && f !in beingCompacted {
          nextIndex := i;
        }
        var blocked := IsBlocked(f, outputLevel);
        if !blocked {
          start, at := InputFiles(startLevel, [f]), i;
          return;
        }
        i := i + 1;
      }
    }

    ghost predicate AllBlocked(startLevel: nat, outputLevel: nat, priority: seq<nat>, from: nat, end: nat)
      requires startLevel < |levels| && outputLevel < |levels|
      requires forall i :: 0 <= i < |priority| ==> priority[i] < |levels[startLevel]|
      reads this
    {
      forall i :: from <= i < end && i < |priority| ==> Blocked(levels[startLevel][priority[i]], outputLevel)
    }

    method IsBlocked(f: File, outputLevel: nat) returns (blocked: bool)
      requires Valid() && 0 < outputLevel < |levels|
      ensures blocked <==> Blocked(f, outputLevel)
      ensures !blocked ==> f !in beingCompacted
    {
      hide ValidLevel, ValidLevels, Compatible;
      if f in beingCompacted {
        return true;
      }
      blocked := IsRangeInCompaction(Range(f.smallest, f.largest), outputLevel);
    }

    /** A file that is being compacted, or that meets such a file of the output level. */
    ghost predicate Blocked(f: File, outputLevel: nat)
      requires outputLevel < |levels|
      reads this
    {
      f in beingCompacted || exists g :: g in levels[outputLevel] && Meets(g, Range(f.smallest, f.largest)) && g in beingCompacted
    }

    /** Enough level-0 files have piled up, the newest is idle, and the longest span of newest idle ones is long enough. */
    ghost predicate IntraCanStart(trigger: nat, minFilesToCompact: nat)
      requires levels != []
      reads this
    {
      && |levels[0]| >= trigger + 2 && levels[0] != [] && levels[0][0] !in beingCompacted
      && exists n: nat :: LongestSpan(levels[0], beingCompacted, n) && n >= minFilesToCompact
    }

    /** The newest level-0 files, if enough of them are idle. */
    method PickIntraL0Compaction(trigger: nat, minFilesToCompact: nat) returns (inputs: InputFiles)
      requires Valid()
      ensures inputs.level == 0 && inputs.files <= levels[0]
      ensures PartOf(inputs.files, levels, 0) && AsSet(inputs.files) !! beingCompacted
      ensures inputs.files != [] ==> |inputs.files| >= minFilesToCompact && LongestSpan(levels[0], beingCompacted, |inputs.files|)
      ensures inputs.files != [] <==> IntraCanStart(trigger, minFilesToCompact)
    {
      NothingIsPart(levels, 0);
      inputs := InputFiles(0, []);
      if |levels[0]| < trigger + 2 || levels[0] == [] || levels[0][0] in beingCompacted {
        return;
      }
      hide LongestSpan, ValidLevel, ValidLevels, Compatible, AsSet, PartOf;
      var span := FindSpan(levels[0], beingCompacted);
      forall n: nat | LongestSpan(levels[0], beingCompacted, n)
        ensures n == span
      {
        LongestSpanIsUnique(levels[0], beingCompacted, n, span);
      }
      PrefixIsPart(levels, span, beingCompacted);
      if span >= minFilesToCompact {
        inputs := InputFiles(0, levels[0][..span]);
      }
    }

    /** What the version storage supplies to a pick. */
    ghost predicate ValidHints(h: Hints)
      reads this
    {
      && |h.scores| + 1 >= |levels| && (forall i :: 0 <= i < |h.scores| ==> h.scores[i].level + 1 < |levels|)
      && |h.priority| == |h.next| == |levels|
      && (forall l: nat :: l < |levels| ==> Places(l, h.priority[l]))
      && (forall f :: f in h.marked ==> f.level + 1 < |levels| && f in levels[f.level] && f !in beingCompacted)
    }

    /** The inputs of a compaction within level 0: the longest run of newest idle files, if it is long enough. */
    ghost predicate NewestSpan(start: InputFiles, marks: set<File>)
      requires levels != []
      reads this
    {
      && start.level == 0 && |start.files| >= MIN_FILES_WITHIN_LEVEL0
      && start.files <= levels[0] && LongestSpan(levels[0], marks, |start.files|)
    }

    /** What the first half of a pick delivers. */
    ghost predicate Initial(start: InputFiles, outputLevel: nat)
      reads this
    {
      && Ready(start, outputLevel)
      && (outputLevel == 0 ==> NewestSpan(start, beingCompacted))
      && (outputLevel > 0 ==> outputLevel == NextLevel(start.level))
      && (outputLevel > 0 && start.level == 0 ==> level0CompactionsInProgress == {})
    }

    /** The least clean cut around a file; in level 0 the file alone. */
    ghost predicate CutAround(f: File, files: seq<File>)
      requires f.level < |levels|
      reads this
    {
      && PartOf(files, levels, f.level) && f in files
      && if f.level == 0 then files == [f]
         else CleanCut(levels, f.level, AsSet(files)) && LeastCut(levels, f.level, {f}, AsSet(files))
    }

    /** The clean cut around the file is idle, and no running compaction of the output level is in its way. */
    ghost predicate FileCanStart(f: File, outputLevel: nat)
      requires f.level < |levels|
      reads this
    {
      exists files :: CutAround(f, files) && AsSet(files) !! beingCompacted && !Conflicts(AsSet(files), outputLevel)
    }

    /** Priorities are places in the level. */
    predicate Places(level: nat, priority: seq<nat>)
      reads this
    {
      level < |levels| && forall i :: 0 <= i < |priority| ==> priority[i] < |levels[level]|
    }

    /** The first file by priority, from a position on, that is not blocked. */
    ghost predicate FirstUnblocked(level: nat, priority: seq<nat>, from: int, at: nat)
      requires Valid() && Places(level, priority) && NextLevel(level) < |levels|
      reads this
    {
      && 0 <= from <= at < |priority| && !Blocked(levels[level][priority[at]], NextLevel(level))
      && AllBlocked(level, NextLevel(level), priority, from, at)
    }

    /** A compaction by size can start from the level: from its first unblocked file. */
    ghost predicate LevelCanStart(level: nat, priority: seq<nat>, from: int)
      requires Valid() && Places(level, priority) && NextLevel(level) < |levels|
      reads this
    {
      && (level == 0 ==> level0CompactionsInProgress == {})
      && exists at: nat :: FirstUnblocked(level, priority, from, at) && levels[level][priority[at]].level == level
                      && FileCanStart(levels[level][priority[at]], NextLevel(level))
    }

    /** These are the files that it starts with. */
    ghost predicate PickedBySize(level: nat, priority: seq<nat>, from: int, start: InputFiles)
      requires Valid() && Places(level, priority) && NextLevel(level) < |levels|
      reads this
    {
      && start.level == level && !Conflicts(AsSet(start.files), NextLevel(level)) && AsSet(start.files) !! beingCompacted
      && exists at: nat :: FirstUnblocked(level, priority, from, at) && levels[level][priority[at]].level == level
                      && CutAround(levels[level][priority[at]], start.files)
    }

    lemma NextIsBelow(level: nat)
      requires Valid() && level + 1 < |levels|
      ensures level < NextLevel(level) < |levels| && EmptyBetween(levels, level, NextLevel(level))
    {
    }

    /** No compaction can start from the file: level 0 is taken, or every clean cut around it holds a marked file. */
    ghost predicate CannotStart(f: File)
      requires f.level < |levels|
      reads this
    {
      if f.level == 0 then level0CompactionsInProgress != {}
      else forall e: set<File> :: CleanCut(levels, f.level, e) && f in e ==> !(e !! beingCompacted)
    }

    /** The inputs that a marked file leads to: the file alone in level 0, the least clean cut around it deeper. */
    ghost predicate StartsFrom(f: File, start: InputFiles)
      requires f.level < |levels|
      reads this
    {
      && start.level == f.level && f in start.files
      && if f.level == 0 then start.files == [f] else LeastCut(levels, f.level, {f}, AsSet(start.files))
    }

    method TryMarkedFile(f: File) returns (ok: bool, start: InputFiles)
      requires Valid() && f.level + 1 < |levels| && f in levels[f.level] && f !in beingCompacted
      ensures ok ==> Initial(start, NextLevel(f.level)) && StartsFrom(f, start)
      ensures ok <==> !CannotStart(f)
    {
      start := InputFiles(f.level, []);
      if f.level == 0 && level0CompactionsInProgress != {} {
        return false, start;
      }
      NextIsBelow(f.level);
      FileIsPart(f);
      hide ValidLevel, ValidLevels, Compatible, PartOf, CleanCut, EmptyBetween, CompactionPicker.NextLevel, AsSet;
      ok, start := ExpandInputsToCleanCut(InputFiles(f.level, [f]));
      InSet(start.files, f);
    }

    lemma FileIsPart(f: File)
      requires Valid() && f.level < |levels| && f in levels[f.level]
      ensures PartOf([f], levels, f.level) && AsSet([f]) == {f}
    {
      OneFileIsPart(levels, f.level);
      var i :| 0 <= i < |levels[f.level]| && levels[f.level][i] == f;
    }

    lemma InSet(files: seq<File>, f: File)
      ensures f in AsSet(files) <==> f in files
    {
    }

    /** None of the files leads to a compaction. */
    ghost predicate NoneCanStart(files: seq<File>)
      reads this
    {
      forall f :: f in files ==> f.level < |levels| && CannotStart(f)
    }

    /** The file tried first, if a compaction can start from it; otherwise the first in order from which one can. */
    ghost predicate MarkedChoice(h: Hints, f: File)
      reads this
    {
      && f in h.marked && f.level < |levels| && !CannotStart(f)
      && var lucky := h.marked[h.randomIndex % |h.marked|];
         f == lucky || (lucky.level < |levels| && CannotStart(lucky) && exists i: nat :: IsFirst(h.marked, i, f))
    }

    ghost predicate IsFirst(files: seq<File>, i: nat, f: File)
      reads this
    {
      i < |files| && files[i] == f && NoneCanStart(files[..i])
    }

    /** The inputs are those that the chosen marked file leads to. */
    ghost predicate StartsFromMarked(h: Hints, start: InputFiles, outputLevel: nat)
      reads this
    {
      exists f :: MarkedChoice(h, f) && StartsFrom(f, start) && outputLevel == NextLevel(f.level)
    }

    lemma LuckyStarts(h: Hints, start: InputFiles)
      requires h.marked != [] && var f := h.marked[h.randomIndex % |h.marked|]; f.level < |levels| && !CannotStart(f) && StartsFrom(f, start)
      ensures StartsFromMarked(h, start, NextLevel(h.marked[h.randomIndex % |h.marked|].level))
    {
      assert MarkedChoice(h, h.marked[h.randomIndex % |h.marked|]);
    }

    lemma FirstStarts(h: Hints, i: nat, start: InputFiles)
      requires i < |h.marked| && NoneCanStart(h.marked[..i])
      requires var lucky := h.marked[h.randomIndex % |h.marked|]; lucky.level < |levels| && CannotStart(lucky)
      requires h.marked[i].level < |levels| && !CannotStart(h.marked[i]) && StartsFrom(h.marked[i], start)
      ensures StartsFromMarked(h, start, NextLevel(h.marked[i].level))
    {
      hide CompactionPicker.CannotStart, CompactionPicker.StartsFrom, CompactionPicker.NoneCanStart;
      assert IsFirst(h.marked, i, h.marked[i]);
      assert MarkedChoice(h, h.marked[i]);
    }

    lemma OneMoreCannot(files: seq<File>, i: nat)
      requires i < |files| && NoneCanStart(files[..i]) && files[i].level < |levels| && CannotStart(files[i])
      ensures NoneCanStart(files[..i + 1])
    {
      hide CompactionPicker.CannotStart;
      assert files[..i + 1] == files[..i] + [files[i]];
    }

    /** The first marked file, after one at random, that a compaction can start from; none only if there is none. */
    method PickFilesMarkedForCompaction(h: Hints) returns (start: InputFiles, outputLevel: nat)
      requires Valid() && ValidHints(h)
      ensures start.files != [] ==> Initial(start, outputLevel) && outputLevel > 0 && StartsFromMarked(h, start, outputLevel)
      ensures start.files == [] ==> NoneCanStart(h.marked)
    {
      start, outputLevel := InputFiles(0, []), 0;
      if h.marked == [] {
        return;
      }
      hide ValidLevels, Compatible, EmptyBetween, CompactionPicker.CannotStart, CompactionPicker.StartsFrom,
           CompactionPicker.Initial, CompactionPicker.NoneCanStart, CompactionPicker.StartsFromMarked;
      var lucky := h.marked[h.randomIndex % |h.marked|];
      var ok, tried := StartFromMarked(h, lucky);
      if ok {
        LuckyStarts(h, tried);
        return tried, NextLevel(lucky.level);
      }
      assert NoneCanStart(h.marked[..0]) by { NothingCannot(h.marked); }
      for i := 0 to |h.marked|
        invariant NoneCanStart(h.marked[..i])
      {
        ok, tried := StartFromMarked(h, h.marked[i]);
        if ok {
          FirstStarts(h, i, tried);
          return tried, NextLevel(h.marked[i].level);
        }
        OneMoreCannot(h.marked, i);
      }
      assert h.marked[..|h.marked|] == h.marked;
    }

    lemma NothingCannot(files: seq<File>)
      ensures NoneCanStart(files[..0])
    {
    }

    method StartFromMarked(h: Hints, f: File) returns (ok: bool, start: InputFiles)
      requires Valid() && ValidHints(h) && f in h.marked
      ensures f.level + 1 < |levels|
      ensures ok ==> Initial(start, NextLevel(f.level)) && StartsFrom(f, start) && start.files != [] && NextLevel(f.level) > 0
      ensures ok <==> !CannotStart(f)
    {
      hide ValidLevels, Compatible, EmptyBetween, CompactionPicker.CannotStart;
      NextIsBelow(f.level);
      ok, start := TryMarkedFile(f);
    }

    /** The score of the level asks for a compaction. The base level is passed over once level 0 was tried in vain. */
    ghost predicate Asks(h: Hints, i: nat)
      reads this`baseLevel
    {
      && i < |h.scores| && h.scores[i].score >= 1.0
      && (h.scores[i].level == baseLevel ==> forall j :: 0 <= j < i && h.scores[j].level == 0 ==> h.scores[j].score < 1.0)
    }

    /** Nothing can be started for the level, for level 0 not even a compaction within the level. */
    ghost predicate Fails(h: Hints, i: nat)
      requires Valid() && ValidHints(h) && i < |h.scores|
      reads this
    {
      var level := h.scores[i].level;
      && !LevelCanStart(level, h.priority[level], h.next[level])
      && (level == 0 ==> !IntraCanStart(h.trigger, MIN_FILES_WITHIN_LEVEL0))
    }

    ghost predicate FailsUpTo(h: Hints, n: nat)
      requires Valid() && ValidHints(h) && n < |levels|
      reads this
    {
      forall i: nat :: i < n && Asks(h, i) ==> Fails(h, i)
    }

    /** The pick is for the first level, by score, that asks for a compaction and for which one can start: a compaction by
        size if possible, otherwise one within level 0. */
    ghost predicate ChosenAt(h: Hints, i: nat, start: InputFiles, outputLevel: nat)
      requires Valid() && ValidHints(h) && i + 1 < |levels|
      reads this
    {
      var level := h.scores[i].level;
      && Asks(h, i) && FailsUpTo(h, i)
      && if LevelCanStart(level, h.priority[level], h.next[level])
         then outputLevel == NextLevel(level) && PickedBySize(level, h.priority[level], h.next[level], start)
         else level == 0 && outputLevel == 0 && NewestSpan(start, beingCompacted)
    }

    /** What a pick starts with. Marked files have their turn when no level that asks can start. */
    ghost predicate Chosen(h: Hints, start: InputFiles, outputLevel: nat)
      requires Valid() && ValidHints(h)
      reads this
    {
      if start.files == [] then FailsUpTo(h, |levels| - 1) && NoneCanStart(h.marked)
      else
        || (exists i: nat :: i + 1 < |levels| && ChosenAt(h, i, start, outputLevel))
        || (FailsUpTo(h, |levels| - 1) && StartsFromMarked(h, start, outputLevel))
    }

    /** Nothing to start with means that no level with a score of 1 or more can start, unless it is the base level
        behind a level 0 with such a score. */
    lemma NothingChosen(h: Hints, start: InputFiles, outputLevel: nat, i: nat)
      requires Valid() && ValidHints(h) && Chosen(h, start, outputLevel) && start.files == []
      requires i + 1 < |levels| && h.scores[i].score >= 1.0
      requires h.scores[i].level != baseLevel || forall j :: 0 <= j < i ==> !(h.scores[j].level == 0 && h.scores[j].score >= 1.0)
      ensures !LevelCanStart(h.scores[i].level, h.priority[h.scores[i].level], h.next[h.scores[i].level])
      ensures NoneCanStart(h.marked)
    {
      hide CompactionPicker.LevelCanStart, CompactionPicker.NoneCanStart, CompactionPicker.IntraCanStart, ValidLevels, Compatible;
      assert Asks(h, i);
      assert Fails(h, i);
    }

    /** If such a level can start, so does this pick: from the level, or from one with no smaller place by score, but not
        from a marked file. */
    lemma ChosenByScore(h: Hints, start: InputFiles, outputLevel: nat, i: nat) returns (k: nat)
      requires Valid() && ValidHints(h) && Chosen(h, start, outputLevel)
      requires i + 1 < |levels| && h.scores[i].score >= 1.0
      requires h.scores[i].level != baseLevel || forall j :: 0 <= j < i ==> !(h.scores[j].level == 0 && h.scores[j].score >= 1.0)
      requires LevelCanStart(h.scores[i].level, h.priority[h.scores[i].level], h.next[h.scores[i].level])
      ensures k <= i && h.scores[k].score >= 1.0 && start.files != [] && ChosenAt(h, k, start, outputLevel)
    {
      hide CompactionPicker.LevelCanStart, CompactionPicker.NoneCanStart, CompactionPicker.IntraCanStart, ValidLevels, Compatible,
           CompactionPicker.PickedBySize, CompactionPicker.StartsFromMarked, CompactionPicker.NewestSpan;
      assert Asks(h, i);
      k :| k + 1 < |levels| && ChosenAt(h, k, start, outputLevel);
    }

    // ---- nothing in the way ----

    lemma NothingIsMarked()
      requires Valid() && compactionsInProgress == {}
      ensures beingCompacted == {} && level0CompactionsInProgress == {}
    {
      assert forall f :: f in beingCompacted ==> exists c :: c in compactionsInProgress && f in FilesOf(c.inputs);
    }

    lemma LeastCutExists(level: nat, f: File) returns (files: seq<File>)
      requires Valid() && level < |levels| && f in levels[level]
      ensures f.level == level && CutAround(f, files)
    {
      assert ValidLevel(levels[level], level);
      if level == 0 {
        FileIsPart(f);
        return [f];
      }
      var least := set g | g in levels[level] && forall e: set<File> :: CleanCut(levels, level, e) && f in e ==> g in e;
      files := Kept(levels[level], least);
      KeptIsValid(levels[level], least, level);
      hide Compatible, ValidLevels, Kept;
      assert AsSet(files) == least;
    }

    /** With nothing running, a level starts from the next file by priority. */
    lemma IdleLevelStarts(level: nat, priority: seq<nat>, from: int)
      requires Valid() && compactionsInProgress == {} && level + 1 < |levels| && Places(level, priority)
      requires 0 <= from < |priority|
      ensures NextLevel(level) < |levels| && LevelCanStart(level, priority, from)
    {
      NextIsBelow(level);
      NothingIsMarked();
      var f := levels[level][priority[from]];
      var files := LeastCutExists(level, f);
      hide Compatible, ValidLevels, CompactionPicker.CutAround;
      assert FileCanStart(f, NextLevel(level));
      assert FirstUnblocked(level, priority, from, from);
    }

    lemma IdleOutputIsFree(start: InputFiles, outputLevel: nat, maxCompactionBytes: nat)
      requires Valid() && compactionsInProgress == {} && start.level < |levels| && outputLevel < |levels| && start.files != []
      ensures !CannotFinish(start, outputLevel, maxCompactionBytes)
    {
      NothingIsMarked();
      var r := HullExists(start.files);
      assert Encloses(levels, outputLevel, r, AsSet(levels[outputLevel]));
      hide CompactionPicker.Completed;
    }

    /** The score of the level asks for a compaction, and the search for a file has not come to its end. */
    ghost predicate Wants(h: Hints, i: nat)
      requires ValidHints(h)
      reads this
    {
      && i + 1 < |levels| && h.scores[i].score >= 1.0
      && 0 <= h.next[h.scores[i].level] < |h.priority[h.scores[i].level]|
      && (h.scores[i].level != baseLevel || forall j :: 0 <= j < i ==> !(h.scores[j].level == 0 && h.scores[j].score >= 1.0))
    }

    lemma WantedIsChosen(h: Hints, start: InputFiles, outputLevel: nat)
      requires Valid() && ValidHints(h) && compactionsInProgress == {} && Chosen(h, start, outputLevel)
      requires exists i: nat :: Wants(h, i)
      ensures start.files != []
    {
      var i: nat :| Wants(h, i);
      var level := h.scores[i].level;
      hide CompactionPicker.LevelCanStart, CompactionPicker.Chosen, ValidLevels, Compatible;
      IdleLevelStarts(level, h.priority[level], h.next[level]);
      var _ := ChosenByScore(h, start, outputLevel, i);
    }

    /** The first level, by score, for which a compaction can be started. */
    method SetupInitialFiles(h: Hints) returns (start: InputFiles, outputLevel: nat)
      requires Valid() && ValidHints(h)
      ensures start.files != [] ==> Initial(start, outputLevel)
      ensures Chosen(h, start, outputLevel)
    {
      hide ValidLevels, Compatible, PartOf, CleanCut, LeastCut, EmptyBetween, Free, FilesOf, AsSet, CompactionPicker.Initial,
           CompactionPicker.LevelCanStart, CompactionPicker.PickedBySize, CompactionPicker.IntraCanStart, LongestSpan,
           CompactionPicker.NoneCanStart, CompactionPicker.StartsFromMarked, CompactionPicker.NextLevel;
      start, outputLevel := InputFiles(0, []), 0;
      var skippedL0ToBase := false;
      for i := 0 to |levels| - 1
        invariant start.files == []
        invariant FailsUpTo(h, i)
        invariant skippedL0ToBase <==> exists j :: 0 <= j < i && h.scores[j].level == 0 && h.scores[j].score >= 1.0
      {
        var startLevel := h.scores[i].level;
        if h.scores[i].score < 1.0 || (skippedL0ToBase && startLevel == baseLevel) {
          continue;
        }
        assert Asks(h, i);
        var target := NextLevel(startLevel);
        NextIsBelow(startLevel);
        var ok, picked := TryLevel(startLevel, target, h.priority[startLevel], h.next[startLevel]);
        if ok {
          assert ChosenAt(h, i, picked, target);
          return picked, target;
        }
        if startLevel == 0 {
          skippedL0ToBase := true;
          var intra := PickIntraL0Compaction(h.trigger, MIN_FILES_WITHIN_LEVEL0);
          if intra.files != [] {
            IntraIsInitial(intra);
            assert ChosenAt(h, i, intra, 0);
            return intra, 0;
          }
        }
      }
      start, outputLevel := PickFilesMarkedForCompaction(h);
    }

    lemma IntraIsInitial(start: InputFiles)
      requires Valid() && NewestSpan(start, beingCompacted) && PartOf(start.files, levels, 0) && AsSet(start.files) !! beingCompacted
      ensures Initial(start, 0)
    {
    }

    /** A compaction by size of one level, from its first unblocked file by priority. */
    method TryLevel(startLevel: nat, outputLevel: nat, priority: seq<nat>, from: int) returns (ok: bool, start: InputFiles)
      requires Valid() && startLevel + 1 < |levels| && outputLevel == NextLevel(startLevel)
      requires Places(startLevel, priority)
      ensures NextLevel(startLevel) < |levels|
      ensures ok ==> Initial(start, outputLevel) && start.level == startLevel && start.files != []
      ensures ok <==> LevelCanStart(startLevel, priority, from)
      ensures ok ==> PickedBySize(startLevel, priority, from, start)
    {
      NextIsBelow(startLevel);
      hide ValidLevels, Compatible, CleanCut, LeastCut, EmptyBetween, Free, FilesOf, Hull, CompactionPicker.Blocked,
           CompactionPicker.Conflicts, PartOf, AsSet, CompactionPicker.CutAround, CompactionPicker.LevelCanStart,
           CompactionPicker.PickedBySize, CompactionPicker.Initial;
      var nextIndex;
      ghost var at;
      start, nextIndex, at := PickFileToCompact(startLevel, outputLevel, priority, from);
      if start.files == [] {
        NoneUnblocked(startLevel, priority, from);
        return false, start;
      }
      ok, start := TryFile(start, levels[startLevel][priority[at]]);
      StartDecides(startLevel, priority, from, at, start, ok);
    }

    /** The picked file, grown to a clean cut, if that is idle and no running compaction is in its way. */
    method TryFile(picked: InputFiles, ghost f: File) returns (ok: bool, start: InputFiles)
      requires Valid() && picked.level + 1 < |levels| && f in levels[picked.level] && picked.files == [f]
      requires PartOf([f], levels, picked.level) && AsSet([f]) !! beingCompacted
      requires picked.level == 0 ==> level0CompactionsInProgress == {}
      ensures f.level == start.level == picked.level && CutAround(f, start.files) && start.files != []
      ensures forall other :: CutAround(f, other) ==> AsSet(other) == AsSet(start.files)
      ensures NextLevel(start.level) < |levels|
      ensures ok <==> AsSet(start.files) !! beingCompacted && !Conflicts(AsSet(start.files), NextLevel(start.level))
      ensures ok ==> Initial(start, NextLevel(start.level))
    {
      NextIsBelow(picked.level);
      hide ValidLevels, Compatible, CleanCut, LeastCut, EmptyBetween, Free, FilesOf, Hull, PartOf, AsSet,
           CompactionPicker.Conflicts, CompactionPicker.CutAround;
      ok, start := ExpandInputsToCleanCut(picked);
      CutIsFound(start.level, f, start.files);
      if ok {
        InputsOfOne(start);
        var overlap := FilesRangeOverlapWithCompaction([start], NextLevel(start.level));
        ok := !overlap;
      }
    }

    lemma NoneUnblocked(level: nat, priority: seq<nat>, from: int)
      requires Valid() && Places(level, priority) && NextLevel(level) < |levels|
      requires (level > 0 || level0CompactionsInProgress == {}) && from >= 0 ==>
                 AllBlocked(level, NextLevel(level), priority, from, |priority|)
      ensures !LevelCanStart(level, priority, from)
    {
      hide ValidLevels, Compatible, CompactionPicker.Blocked;
    }

    /** What growing the picked file comes to is the least clean cut around it. */
    lemma CutIsFound(level: nat, f: File, files: seq<File>)
      requires Valid() && level < |levels| && f in levels[level] && PartOf(files, levels, level) && AsSet([f]) <= AsSet(files)
      requires if level == 0 then files == [f] else CleanCut(levels, level, AsSet(files)) && LeastCut(levels, level, AsSet([f]), AsSet(files))
      ensures f.level == level && CutAround(f, files)
      ensures forall other :: CutAround(f, other) ==> AsSet(other) == AsSet(files)
    {
      assert ValidLevel(levels[level], level);
      assert f in AsSet([f]) && AsSet([f]) == {f};
      forall other | CutAround(f, other)
        ensures AsSet(other) == AsSet(files)
      {
        assert f in AsSet(other);
      }
    }

    /** The first unblocked file decides. */
    lemma StartDecides(level: nat, priority: seq<nat>, from: int, at: nat, start: InputFiles, ok: bool)
      requires Valid() && Places(level, priority) && NextLevel(level) < |levels|
      requires (level == 0 ==> level0CompactionsInProgress == {}) && FirstUnblocked(level, priority, from, at)
      requires start.level == level && levels[level][priority[at]].level == level
      requires CutAround(levels[level][priority[at]], start.files)
      requires forall other :: CutAround(levels[level][priority[at]], other) ==> AsSet(other) == AsSet(start.files)
      requires ok <==> AsSet(start.files) !! beingCompacted && !Conflicts(AsSet(start.files), NextLevel(level))
      ensures ok <==> LevelCanStart(level, priority, from)
      ensures ok ==> PickedBySize(level, priority, from, start)
    {
      hide ValidLevels, Compatible, CompactionPicker.Blocked, CompactionPicker.Conflicts, CompactionPicker.CutAround;
      forall other: nat | FirstUnblocked(level, priority, from, other)
        ensures other == at
      {
      }
    }

    /** All that a pick takes of its start level: out of level 0 the least clean cut around what it starts with. */
    ghost predicate WithOthers(start: InputFiles, outputLevel: nat, all: InputFiles)
      requires levels != []
      reads this
    {
      if start.level != 0 || outputLevel == 0 then all == start
      else
        && all.level == 0 && AsSet(start.files) <= AsSet(all.files) && PartOf(all.files, levels, 0)
        && CleanCut(levels, 0, AsSet(all.files)) && LeastCut(levels, 0, AsSet(start.files), AsSet(all.files))
    }

    /** A file of the output level that meets the range of these files is being compacted. */
    ghost predicate MeetsBusy(files: seq<File>, outputLevel: nat)
      requires outputLevel < |levels|
      reads this
    {
      exists r, f :: Hull(AsSet(files), r) && f in levels[outputLevel] && Meets(f, r) && f in beingCompacted
    }

    lemma BusyIsBusy(files: seq<File>, outputLevel: nat)
      requires outputLevel < |levels| && MeetsBusy(files, outputLevel)
      ensures OutputIsBusy(files, outputLevel)
    {
      hide CleanCut;
      var r, f :| Hull(AsSet(files), r) && f in levels[outputLevel] && Meets(f, r) && f in beingCompacted;
      forall t, e: set<File> | Hull(AsSet(files), t) && Encloses(levels, outputLevel, t, e)
        ensures !(e !! beingCompacted)
      {
        HullIsUnique(AsSet(files), r, t);
        assert f in e;
      }
    }

    lemma RangeIsBusy(files: seq<File>, outputLevel: nat, r: Range, busy: bool)
      requires outputLevel < |levels| && Hull(AsSet(files), r)
      requires busy <==> exists f :: f in levels[outputLevel] && Meets(f, r) && f in beingCompacted
      ensures busy <==> MeetsBusy(files, outputLevel)
    {
      forall t | Hull(AsSet(files), t)
        ensures t == r
      {
        HullIsUnique(AsSet(files), r, t);
      }
    }

    /** A compaction out of level 0 takes every level-0 file that meets the picked ones, and whatever meets those. */
    method SetupOtherL0FilesIfNeeded(start: InputFiles, outputLevel: nat) returns (ok: bool, all: InputFiles)
      requires Valid() && Initial(start, outputLevel)
      ensures ok ==> Ready(all, outputLevel) && all.level == start.level
      ensures ok && outputLevel > 0 ==> CleanCut(levels, start.level, AsSet(all.files))
      ensures WithOthers(start, outputLevel, all) && all.files != []
      ensures outputLevel < |levels| && (ok <==> (start.level == 0 < outputLevel ==> !MeetsBusy(all.files, outputLevel)))
      ensures ok && start.level == 0 && outputLevel > 0 ==>
                forall f, r :: f in levels[0] && Hull(AsSet(start.files), r) && Meets(f, r) ==> f in all.files
    {
      if start.level != 0 || outputLevel == 0 {
        return true, start;
      }
      assert level0CompactionsInProgress == {};
      assert WellFormed(start.files);
      hide ValidLevels, Compatible, CleanCut, EmptyBetween, Hull, ValidLevel, CompactionPicker.MeetsBusy;
      var r := GetRange(start);
      var files := GetOverlappingInputs(levels, 0, r);
      assert Encloses(levels, 0, r, AsSet(files)) ==> CleanCut(levels, 0, AsSet(files));
      InputsMeetRange(start.files, files, levels[0], r, r);
      all := InputFiles(0, files);
      Level0IsIdle(files);
      AroundPicked(levels, start.files, files, r);
      r := GetRange(all);
      var busy := IsRangeInCompaction(r, outputLevel);
      RangeIsBusy(files, outputLevel, r, busy);
      ok := !busy;
    }

    /** From what a pick starts with to all that it takes of its start level. */
    ghost predicate Takes(h: Hints, start: InputFiles, outputLevel: nat, all: InputFiles)
      requires Valid() && ValidHints(h)
      reads this
    {
      && Chosen(h, start, outputLevel)
      && (start.files != [] ==> WithOthers(start, outputLevel, all) && all.level < |levels| && outputLevel < |levels|)
    }

    /** Picks and starts a compaction. It starts none only if there is nothing to start with, or if output files are
        taken or a running compaction is in the way of what it started with. */
    method PickCompaction(h: Hints, maxCompactionBytes: nat)
      returns (c: Option<Compaction>, ghost start: InputFiles, ghost outputLevel: nat, ghost all: InputFiles)
      requires Valid() && ValidHints(h)
      modifies this`beingCompacted, this`compactionsInProgress, this`level0CompactionsInProgress
      ensures Valid()
      ensures c.None? ==> compactionsInProgress == old(compactionsInProgress) && beingCompacted == old(beingCompacted)
      ensures c.Some? ==> Sound(c.value, old(compactionsInProgress))
      ensures c.Some? && c.value.outputLevel != 0 ==>
                c.value.outputLevel == if c.value.StartLevel() == 0 then baseLevel else c.value.StartLevel() + 1
      // With nothing running, a level that asks for a compaction gets one.
      ensures old(compactionsInProgress == {} && exists i: nat :: Wants(h, i)) ==> c.Some?
      ensures old(Takes(h, start, outputLevel, all))
      ensures c.Some? ==> start.files != [] && c.value.outputLevel == outputLevel
      ensures c.Some? && outputLevel == 0 ==> c.value.inputs == [start] && old(NewestSpan(start, beingCompacted))
      ensures c.Some? && outputLevel > 0 ==> old(FinishesWith(all, outputLevel, maxCompactionBytes, c.value.inputs))
      ensures c.None? && start.files != [] ==> outputLevel > 0 && old(CannotFinish(all, outputLevel, maxCompactionBytes))
      ensures c.Some? ==> compactionsInProgress == old(compactionsInProgress) + {c.value} && c.value !in old(compactionsInProgress)
      ensures c.Some? ==> beingCompacted == old(beingCompacted) + FilesOf(c.value.inputs)
    {
      hide ValidLevels, Compatible, CleanCut, EmptyBetween, Hull, ValidLevel, Free, FilesOf, ClosedOver, Ascending,
           ValidInputs, CompactionPicker.Chosen, CompactionPicker.MeetsBusy, CompactionPicker.OutputIsBusy, LeastCut, LongestSpan;
      c := None;
      ghost var wanted, i: nat := compactionsInProgress == {} && exists i: nat :: Wants(h, i), 0;
      if wanted { i :| Wants(h, i); }
      var files, level := SetupInitialFiles(h);
      start, outputLevel, all := files, level, files;
      if wanted {
        assert Wants(h, i);
        WantedIsChosen(h, files, level);
      }
      if files.files == [] {
        return;
      }
      var ok, others := SetupOtherL0FilesIfNeeded(files, level);
      all := others;
      if compactionsInProgress == {} { IdleOutputIsFree(others, level, maxCompactionBytes); }
      if !ok {
        BusyIsBusy(others.files, level);
        return;
      }
      if level != 0 {
        c := FinishPick(others, level, maxCompactionBytes);
      } else {
        InputsOfOne(others);
        var started := StartCompaction([others], 0);
        c := Some(started);
      }
    }
  }
}
