/** The running compaction as its iterator sees it: levels, boundary keys, deeper files. */
module CompactionPlan {
  import opened LevelFiles

  /** The facts about a compaction that the record loop consults. */
  datatype Plan = Plan(levels: Levels, outputLevel: nat, universal: bool, bottommost: bool, largest: int)

  /** Files of a level above 0: ordered, and neighbours share at most a boundary user key. */
  ghost predicate SortedLevel(files: seq<File>) {
    InKeyOrder(files) && WellFormed(files)
  }

  ghost predicate ValidPlan(p: Plan) {
    forall l :: 0 < l < |p.levels| ==> SortedLevel(p.levels[l])
  }

  /** No file below the output level has `key` in its range. */
  ghost predicate NoDeeperFile(levels: Levels, outputLevel: nat, key: int) {
    forall l, i :: outputLevel < l < |levels| && 0 <= i < |levels[l]| ==> !Covers(levels[l][i], key)
  }

  /** The plain form of the test the iterator makes through its level cursors. */
  ghost predicate NotBeyond(p: Plan, key: int) {
    if p.universal then p.bottommost else NoDeeperFile(p.levels, p.outputLevel, key)
  }

  /** Every file a cursor has moved past ends before `key`. */
  ghost predicate PassedBelow(p: Plan, cursors: seq<nat>, key: int) {
    && |cursors| == |p.levels|
    && (forall l :: p.outputLevel < l < |p.levels| ==> cursors[l] <= |p.levels[l]|)
    && (forall l, i :: p.outputLevel < l < |p.levels| && 0 <= i < cursors[l] ==> p.levels[l][i].largest < key)
  }

  /** Cursors only move forward, so a nondecreasing sequence of keys may share them. */
  method KeyNotExistsBeyondOutputLevel(p: Plan, userKey: int, levelPtrs: seq<nat>)
    returns (absent: bool, newPtrs: seq<nat>)
    requires ValidPlan(p) && PassedBelow(p, levelPtrs, userKey)
    ensures absent <==> NotBeyond(p, userKey)
    ensures PassedBelow(p, newPtrs, userKey)
    ensures forall l :: 0 <= l < |levelPtrs| ==> levelPtrs[l] <= newPtrs[l]
  {
    newPtrs := levelPtrs;
    if p.universal {
      return p.bottommost, newPtrs;
    }
    var lvl := p.outputLevel + 1;
    while lvl < |p.levels|
      invariant p.outputLevel < lvl
      invariant PassedBelow(p, newPtrs, userKey)
      invariant forall l :: 0 <= l < |levelPtrs| ==> levelPtrs[l] <= newPtrs[l]
      invariant forall l, i :: p.outputLevel < l < lvl && l < |p.levels| && 0 <= i < |p.levels[l]| ==>
                  !Covers(p.levels[l][i], userKey)
    {
      var files := p.levels[lvl];
      assert SortedLevel(files);
      while newPtrs[lvl] < |files|
        invariant PassedBelow(p, newPtrs, userKey)
        invariant forall l :: 0 <= l < |levelPtrs| ==> levelPtrs[l] <= newPtrs[l]
        decreases |files| - newPtrs[lvl]
      {
        var f := files[newPtrs[lvl]];
        if userKey <= f.largest {
          if userKey >= f.smallest {
            assert Covers(p.levels[lvl][newPtrs[lvl]], userKey);
            return false, newPtrs;
          }
          break;
        }
        newPtrs := newPtrs[lvl := newPtrs[lvl] + 1];
      }
      assert forall i :: 0 <= i < newPtrs[lvl] ==> files[i].largest < userKey;
      lvl := lvl + 1;
    }
    return true, newPtrs;
  }

  // ---- boundary keys and the bottommost test ----

  ghost predicate InputsSorted(inputs: seq<InputFiles>) {
    forall k :: 0 <= k < |inputs| ==> WellFormed(inputs[k].files) && (inputs[k].level > 0 ==> InKeyOrder(inputs[k].files))
  }

  ghost predicate HullSoFar(initialized: bool, files: set<File>, low: Key, high: Key) {
    if initialized then Hull(files, Range(low, high)) else files == {}
  }

  /** Growing a hull by a group of files with known extremes. */
  lemma HullGrows(files: set<File>, group: set<File>, initialized: bool, low: Key, high: Key, first: Key, last: Key)
    requires HullSoFar(initialized, files, low, high) && Hull(group, Range(first, last))
    ensures HullSoFar(true, files + group, if !initialized || first < low then first else low, if !initialized || last > high then last else high)
  {
    if initialized {
      HullOfUnion(files, group, Range(low, high), Range(first, last));
    } else {
      assert files + group == group;
    }
  }

  /** The loop body of `GetBoundaryKeys` for a level 0 input, whose files may overlap. */
  method WidenByEachFile(files: seq<File>, initialized: bool, low: Key, high: Key, ghost before: set<File>)
    returns (smallest: Key, largest: Key)
    requires files != [] && HullSoFar(initialized, before, low, high)
    ensures HullSoFar(true, before + AsSet(files), smallest, largest)
  {
    hide Hull;
    smallest, largest := low, high;
    var started := initialized;
    assert before + AsSet(files[..0]) == before;
    for m := 0 to |files|
      invariant HullSoFar(started, before + AsSet(files[..m]), smallest, largest)
      invariant m > 0 ==> started
    {
      var f := files[m];
      assert files[..m + 1] == files[..m] + [f];
      assert before + AsSet(files[..m + 1]) == before + AsSet(files[..m]) + {f};
      assert Hull({f}, Range(f.smallest, f.largest)) by { HullOfOne(f); }
      HullGrows(before + AsSet(files[..m]), {f}, started, smallest, largest, f.smallest, f.largest);
      smallest := if !started || f.smallest < smallest then f.smallest else smallest;
      largest := if !started || f.largest > largest then f.largest else largest;
      started := true;
    }
    assert files[..|files|] == files;
  }

  lemma HullOfOne(f: File)
    ensures Hull({f}, Range(f.smallest, f.largest))
  {
    assert f in {f};
  }

  /** The loop body for a sorted level: only the first and the last file matter. */
  method WidenByEnds(files: seq<File>, initialized: bool, low: Key, high: Key, ghost before: set<File>)
    returns (smallest: Key, largest: Key)
    requires files != [] && SortedLevel(files) && HullSoFar(initialized, before, low, high)
    ensures HullSoFar(true, before + AsSet(files), smallest, largest)
  {
    var first, last := files[0].smallest, files[|files| - 1].largest;
    SortedHull(files);
    HullGrows(before, AsSet(files), initialized, low, high, first, last);
    smallest := if !initialized || first < low then first else low;
    largest := if !initialized || last > high then last else high;
  }

  method GetBoundaryKeys(inputs: seq<InputFiles>) returns (smallest: Key, largest: Key)
    requires InputsSorted(inputs)
    ensures FilesOf(inputs) != {} ==> Hull(FilesOf(inputs), Range(smallest, largest))
  {
    smallest, largest := 0, 0;
    var initialized := false;
    hide Hull, SortedLevel, InKeyOrder, WellFormed, AsSet;
    for n := 0 to |inputs|
      invariant HullSoFar(initialized, FilesOf(inputs[..n]), smallest, largest)
    {
      var files := inputs[n].files;
      assert inputs[..n + 1][..n] == inputs[..n];
      assert FilesOf(inputs[..n + 1]) == FilesOf(inputs[..n]) + AsSet(files);
      if files == [] {
        assert AsSet(files) == {} by { NoFiles(); }
        assert FilesOf(inputs[..n + 1]) == FilesOf(inputs[..n]);
        continue;
      }
      if inputs[n].level == 0 {
        smallest, largest := WidenByEachFile(files, initialized, smallest, largest, FilesOf(inputs[..n]));
      } else {
        assert SortedLevel(files) by { InputIsSorted(inputs, n); }
        smallest, largest := WidenByEnds(files, initialized, smallest, largest, FilesOf(inputs[..n]));
      }
      initialized := true;
    }
    assert inputs[..|inputs|] == inputs;
  }

  lemma NoFiles()
    ensures AsSet([]) == {}
  {
  }

  lemma InputIsSorted(inputs: seq<InputFiles>, n: nat)
    requires InputsSorted(inputs) && n < |inputs| && inputs[n].level > 0
    ensures SortedLevel(inputs[n].files)
  {
  }

  /** `VersionStorageInfo::OverlapInLevel`: some file of the level meets the closed range. */
  predicate OverlapInLevel(files: seq<File>, r: Range) {
    exists f :: f in files && Meets(f, r)
  }

  /** The compaction does not take the oldest file of level 0 along. */
  predicate LeavesOldestLevel0File(levels: Levels, inputs: seq<InputFiles>)
    requires |inputs| > 0 && inputs[0].files != [] && (inputs[0].level == 0 ==> |levels| > 0 && levels[0] != [])
  {
    inputs[0].level == 0 && inputs[0].files[|inputs[0].files| - 1] != levels[0][|levels[0]| - 1]
  }

  /** Nothing at any level past the output level can hold a key of the inputs, nor can an older level 0 file. */
  ghost predicate Bottommost(outputLevel: nat, levels: Levels, inputs: seq<InputFiles>)
    requires |inputs| > 0 && inputs[0].files != [] && (inputs[0].level == 0 ==> |levels| > 0 && levels[0] != [])
  {
    && !LeavesOldestLevel0File(levels, inputs)
    && forall l :: outputLevel < l < |levels| && levels[l] != [] ==>
                     && outputLevel != 0
                     && forall r :: Hull(FilesOf(inputs), r) ==> !OverlapInLevel(levels[l], r)
  }

  method IsBottommostLevel(outputLevel: nat, levels: Levels, inputs: seq<InputFiles>) returns (bottommost: bool)
    requires InputsSorted(inputs) && |inputs| > 0 && inputs[0].files != []
    requires inputs[0].level == 0 ==> |levels| > 0 && levels[0] != []
    ensures bottommost <==> Bottommost(outputLevel, levels, inputs)
  {
    if inputs[0].level == 0 && inputs[0].files[|inputs[0].files| - 1] != levels[0][|levels[0]| - 1] {
      return false;
    }
    FilesOfHas(inputs, 0);
    assert inputs[0].files[0] in FilesOf(inputs);
    var smallest, largest := GetBoundaryKeys(inputs);
    var range := Range(smallest, largest);
    hide FilesOf, InputsSorted;
    forall r | Hull(FilesOf(inputs), r)
      ensures r == range
    {
      HullIsUnique(FilesOf(inputs), r, range);
    }
    hide Hull, Meets, Covers;
    var l := outputLevel + 1;
    while l < |levels|
      invariant outputLevel < l
      invariant forall m :: outputLevel < m < l && m < |levels| ==>
                  levels[m] == [] || (outputLevel != 0 && !OverlapInLevel(levels[m], range))
    {
      if |levels[l]| > 0 && (outputLevel == 0 || OverlapInLevel(levels[l], range)) {
        return false;
      }
      l := l + 1;
    }
    return true;
  }

  /** A left-out file that may hold an older version of an input key: the oldest of level 0, if the inputs start there;
      a deeper one that meets their range; any deeper one, for an output in level 0. */
  ghost predicate MayHoldOlder(outputLevel: nat, levels: Levels, inputs: seq<InputFiles>, l: nat, f: File) {
    && l < |levels| && f in levels[l] && inputs != [] && inputs[0].files != []
    && (|| (l == 0 && inputs[0].level == 0 && f == levels[0][|levels[0]| - 1] && f != inputs[0].files[|inputs[0].files| - 1])
        || (l > outputLevel && (outputLevel == 0 || exists r :: Hull(FilesOf(inputs), r) && Meets(f, r))))
  }

  /** Bottommost is all there is to it: without such a file a compaction is, and with one it is not. */
  lemma BottommostIff(outputLevel: nat, levels: Levels, inputs: seq<InputFiles>)
    requires |inputs| > 0 && inputs[0].files != [] && (inputs[0].level == 0 ==> |levels| > 0 && levels[0] != [])
    ensures Bottommost(outputLevel, levels, inputs) <==> forall l: nat, f :: !MayHoldOlder(outputLevel, levels, inputs, l, f)
  {
    hide Hull, Meets, FilesOf;
    if !Bottommost(outputLevel, levels, inputs) {
      if LeavesOldestLevel0File(levels, inputs) {
        var f := levels[0][|levels[0]| - 1];
        assert f in levels[0] && MayHoldOlder(outputLevel, levels, inputs, 0, f);
      } else {
        var l :| outputLevel < l < |levels| && levels[l] != [] &&
                 !(outputLevel != 0 && forall r :: Hull(FilesOf(inputs), r) ==> !OverlapInLevel(levels[l], r));
        if outputLevel == 0 {
          assert levels[l][0] in levels[l] && MayHoldOlder(outputLevel, levels, inputs, l, levels[l][0]);
        } else {
          var r :| Hull(FilesOf(inputs), r) && OverlapInLevel(levels[l], r);
          var f :| f in levels[l] && Meets(f, r);
          assert MayHoldOlder(outputLevel, levels, inputs, l, f);
        }
      }
    }
  }

  /** What the constructor of a compaction derives from its inputs. */
  ghost predicate BuiltFor(p: Plan, inputs: seq<InputFiles>) {
    && (exists smallest :: Hull(FilesOf(inputs), Range(smallest, p.largest)))
    && |inputs| > 0 && inputs[0].files != [] && (inputs[0].level == 0 ==> |p.levels| > 0 && p.levels[0] != [])
    && (p.bottommost <==> Bottommost(p.outputLevel, p.levels, inputs))
  }

  method PlanCompaction(levels: Levels, outputLevel: nat, universal: bool, inputs: seq<InputFiles>) returns (p: Plan)
    requires InputsSorted(inputs) && |inputs| > 0 && inputs[0].files != []
    requires inputs[0].level == 0 ==> |levels| > 0 && levels[0] != []
    ensures p.levels == levels && p.outputLevel == outputLevel && p.universal == universal
    ensures BuiltFor(p, inputs)
  {
    FilesOfHas(inputs, 0);
    assert inputs[0].files[0] in FilesOf(inputs);
    var bottommost := IsBottommostLevel(outputLevel, levels, inputs);
    var smallest, largest := GetBoundaryKeys(inputs);
    p := Plan(levels, outputLevel, universal, bottommost, largest);
  }

  /** A bottommost compaction has nothing below the output level for a key in one of its files. */
  lemma BottommostCovers(p: Plan, inputs: seq<InputFiles>, f: File, key: int)
    requires BuiltFor(p, inputs) && p.bottommost && f in FilesOf(inputs) && Covers(f, key)
    ensures NoDeeperFile(p.levels, p.outputLevel, key)
  {
    var smallest :| Hull(FilesOf(inputs), Range(smallest, p.largest));
    NothingDeeper(p.outputLevel, p.levels, Range(smallest, p.largest));
  }

  lemma {:induction false} FilesOfHas(inputs: seq<InputFiles>, k: nat)
    requires k < |inputs|
    ensures forall f :: f in inputs[k].files ==> f in FilesOf(inputs)
  {
    if k < |inputs| - 1 { FilesOfHas(inputs[..|inputs| - 1], k); }
  }

  lemma NothingDeeper(outputLevel: nat, levels: Levels, r: Range)
    requires forall m :: outputLevel < m < |levels| ==> levels[m] == [] || !OverlapInLevel(levels[m], r)
    ensures forall key :: r.smallest <= key <= r.largest ==> NoDeeperFile(levels, outputLevel, key)
  {
    forall key, m, j | r.smallest <= key <= r.largest && outputLevel < m < |levels| && 0 <= j < |levels[m]|
      ensures !Covers(levels[m][j], key)
    {
      assert levels[m][j] in levels[m];
      assert !Meets(levels[m][j], r);
    }
  }
}
