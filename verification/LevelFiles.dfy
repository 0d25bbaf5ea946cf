/** The files of a version, level by level, and the searches over them that compaction picking relies on. */
module LevelFiles {
  import opened Wrappers

  type Key = int

  datatype File = File(id: nat, level: nat, smallest: Key, largest: Key, size: nat, compensatedSize: nat)

  datatype Range = Range(smallest: Key, largest: Key)

  type Levels = seq<seq<File>>

  datatype InputFiles = InputFiles(level: nat, files: seq<File>)

  predicate Covers(f: File, key: Key) {
    f.smallest <= key <= f.largest
  }

  predicate Meets(f: File, r: Range) {
    f.smallest <= r.largest && r.smallest <= f.largest
  }

  predicate Inside(f: File, r: Range) {
    r.smallest <= f.smallest && f.largest <= r.largest
  }

  ghost predicate InKeyOrder(files: seq<File>) {
    forall i, j :: 0 <= i < j < |files| ==> files[i].largest <= files[j].smallest
  }

  ghost predicate WellFormed(files: seq<File>) {
    forall f :: f in files ==> f.smallest <= f.largest
  }

  /** Level 0 may overlap; deeper levels are sorted, and neighbours may share a boundary key. */
  ghost predicate ValidLevel(files: seq<File>, level: nat) {
    && Distinct(files) && WellFormed(files)
    && (forall f :: f in files ==> f.level == level)
    && (level > 0 ==> InKeyOrder(files))
  }

  ghost predicate ValidLevels(levels: Levels) {
    forall l :: 0 <= l < |levels| ==> ValidLevel(levels[l], l)
  }

  /** Some files of a level, in order. */
  ghost predicate PartOf(files: seq<File>, levels: Levels, level: nat) {
    && ValidLevel(files, level)
    && level < |levels| && forall f :: f in files ==> f in levels[level]
  }

  function AsSet(files: seq<File>): set<File> {
    set f | f in files
  }

  function TotalCompensated(files: seq<File>): nat {
    if files == [] then 0 else TotalCompensated(files[..|files| - 1]) + files[|files| - 1].compensatedSize
  }

  function TotalSize(files: seq<File>): nat {
    if files == [] then 0 else TotalSize(files[..|files| - 1]) + files[|files| - 1].size
  }

  /** Left-out files of the level share no key with what lies between the files' ends. */
  predicate CleanCut(levels: Levels, level: nat, files: set<File>)
    requires level < |levels|
  {
    forall f, a, b :: f in levels[level] && a in files && b in files && a.smallest <= f.largest && f.smallest <= b.largest ==> f in files
  }

  /** A clean cut that holds every file of the level which meets the range. */
  ghost predicate Encloses(levels: Levels, level: nat, r: Range, files: set<File>)
    requires level < |levels|
  {
    CleanCut(levels, level, files) && forall f :: f in levels[level] && Meets(f, r) ==> f in files
  }

  lemma SliceIsPart(levels: Levels, level: nat, from: nat, end: nat)
    requires ValidLevels(levels) && level < |levels| && from <= end <= |levels[level]|
    ensures PartOf(levels[level][from..end], levels, level)
    ensures forall i :: from <= i < end ==> levels[level][i] in levels[level][from..end]
  {
    assert ValidLevel(levels[level], level);
    var files := levels[level][from..end];
    assert forall i :: 0 <= i < |files| ==> files[i] == levels[level][from + i];
    forall i | from <= i < end
      ensures levels[level][i] in files
    {
      assert files[i - from] == levels[level][i];
    }
  }

  // ---- ranges ----

  /** The least range that holds all files. */
  ghost predicate Hull(files: set<File>, r: Range) {
    && (forall f :: f in files ==> r.smallest <= f.smallest && f.largest <= r.largest)
    && (exists f :: f in files && f.smallest == r.smallest)
    && (exists f :: f in files && f.largest == r.largest)
  }

  lemma HullIsUnique(files: set<File>, r: Range, t: Range)
    requires Hull(files, r) && Hull(files, t)
    ensures r == t
  {
    var a :| a in files && a.smallest == r.smallest;
    var b :| b in files && b.smallest == t.smallest;
    var c :| c in files && c.largest == r.largest;
    var d :| d in files && d.largest == t.largest;
  }

  function Join(a: Range, b: Range): Range {
    Range(if a.smallest < b.smallest then a.smallest else b.smallest, if a.largest < b.largest then b.largest else a.largest)
  }

  lemma HullOfUnion(a: set<File>, b: set<File>, r: Range, t: Range)
    requires Hull(a, r) && Hull(b, t)
    ensures Hull(a + b, Join(r, t))
  {
    var u := Join(r, t);
    var x :| x in a && x.smallest == r.smallest;
    var y :| y in b && y.smallest == t.smallest;
    var z :| z in a && z.largest == r.largest;
    var w :| w in b && w.largest == t.largest;
    assert (if r.smallest < t.smallest then x else y) in a + b;
    assert (if r.largest < t.largest then w else z) in a + b;
  }

  lemma SortedHull(files: seq<File>)
    requires files != [] && InKeyOrder(files) && WellFormed(files)
    ensures Hull(AsSet(files), Range(files[0].smallest, files[|files| - 1].largest))
  {
    var n := |files| - 1;
    forall f | f in files ensures files[0].smallest <= f.smallest && f.largest <= files[n].largest {
      var i :| 0 <= i < |files| && files[i] == f;
      assert files[0] in files && files[n] in files && files[i] in files;
    }
    assert files[0] in AsSet(files) && files[n] in AsSet(files);
  }

  lemma HullOfOneMore(files: seq<File>, i: nat, r: Range)
    requires 0 < i < |files| && Hull(AsSet(files[..i]), r)
    ensures Hull(AsSet(files[..i + 1]), Join(r, Range(files[i].smallest, files[i].largest)))
  {
    assert files[..i + 1] == files[..i] + [files[i]];
    assert AsSet(files[..i + 1]) == AsSet(files[..i]) + {files[i]};
    HullOfUnion(AsSet(files[..i]), {files[i]}, r, Range(files[i].smallest, files[i].largest));
  }

  lemma HullOfFirst(files: seq<File>)
    requires files != []
    ensures Hull(AsSet(files[..1]), Range(files[0].smallest, files[0].largest))
  {
    assert files[..1] == [files[0]];
    assert files[0] in AsSet(files[..1]);
  }

  /** All input files. */
  ghost function FilesOf(inputs: seq<InputFiles>): set<File> {
    if inputs == [] then {} else FilesOf(inputs[..|inputs| - 1]) + AsSet(inputs[|inputs| - 1].files)
  }

  // ---- searching level 0 ----

  /** The files of level 0 that stick out of the range. */
  function StickingOut(files: seq<File>, r: Range): nat {
    if files == [] then 0
    else
      var last := files[|files| - 1];
      StickingOut(files[..|files| - 1], r) + (if last.smallest < r.smallest then 1 else 0) + if last.largest > r.largest then 1 else 0
  }

  lemma {:induction false} WiderHoldsMore(files: seq<File>, r: Range, t: Range)
    requires t.smallest <= r.smallest && r.largest <= t.largest
    ensures StickingOut(files, t) <= StickingOut(files, r)
    ensures forall i :: 0 <= i < |files| && ((t.smallest <= files[i].smallest < r.smallest) || (r.largest < files[i].largest <= t.largest)) ==>
              StickingOut(files, t) < StickingOut(files, r)
  {
    if files != [] { WiderHoldsMore(files[..|files| - 1], r, t); }
  }

  /** Widening the range by a file that meets it asks for nothing that a clean cut around the range would lack. */
  lemma WidenedStaysEnclosed(levels: Levels, r: Range, f: File, t: Range, e: set<File>)
    requires ValidLevels(levels) && levels != [] && Encloses(levels, 0, r, e) && f in levels[0] && Meets(f, r)
    requires t == Range(f.smallest, r.largest) || t == Range(r.smallest, f.largest)
    ensures Encloses(levels, 0, t, e)
  {
    assert ValidLevel(levels[0], 0);
    assert f in e;
    forall g | g in levels[0] && Meets(g, t)
      ensures g in e
    {
      if !Meets(g, r) { assert f.smallest <= g.largest && g.smallest <= f.largest; }
    }
  }

  /** Level-0 files may overlap: each one found that widens the range restarts the search with the wider range. */
  method OverlappingLevel0(levels: Levels, r: Range) returns (inputs: seq<File>)
    requires ValidLevels(levels) && levels != []
    ensures PartOf(inputs, levels, 0) && Encloses(levels, 0, r, AsSet(inputs))
    ensures forall e: set<File> :: Encloses(levels, 0, r, e) ==> AsSet(inputs) <= e
  {
    var files, range, i := levels[0], r, 0;
    assert ValidLevel(files, 0);
    inputs := [];
    while i < |files|
      invariant 0 <= i <= |files| && range.smallest <= r.smallest && r.largest <= range.largest
      invariant Distinct(inputs) && forall f :: f in inputs <==> f in files[..i] && Meets(f, range)
      invariant forall f :: f in inputs ==> Inside(f, range)
      invariant forall e: set<File> :: Encloses(levels, 0, r, e) ==> Encloses(levels, 0, range, e)
      decreases StickingOut(files, range), |files| - i
    {
      var f := files[i];
      assert files[..i + 1] == files[..i] + [f] && f !in files[..i];
      i := i + 1;
      if Meets(f, range) {
        var wider := if f.smallest < range.smallest then Range(f.smallest, range.largest) else Range(range.smallest, f.largest);
        if f.smallest < range.smallest || f.largest > range.largest {
          WiderHoldsMore(files, range, wider);
          forall e: set<File> | Encloses(levels, 0, range, e)
            ensures Encloses(levels, 0, wider, e)
          {
            WidenedStaysEnclosed(levels, range, f, wider, e);
          }
          inputs, range, i := [], wider, 0;
        } else {
          inputs := inputs + [f];
        }
      }
    }
    assert files[..|files|] == files;
  }

  // ---- searching deeper levels ----

  /** A test that files of a level are searched by. */
  predicate Keeps(f: File, r: Range, within: bool) {
    if within then Inside(f, r) else Meets(f, r)
  }

  /** Binary search for a file that meets the range, or that lies inside it. */
  method FindFile(files: seq<File>, r: Range, within: bool) returns (found: bool, mid: nat)
    requires InKeyOrder(files) && WellFormed(files)
    ensures found ==> mid < |files| && Keeps(files[mid], r, within)
    ensures !found ==> forall i :: 0 <= i < |files| ==> !Keeps(files[i], r, within)
  {
    var low, high := 0, |files|;
    assert forall i :: 0 <= i < |files| ==> files[i] in files;
    while low < high
      invariant 0 <= low <= high <= |files|
      invariant forall i :: 0 <= i < low || high <= i < |files| ==> !Keeps(files[i], r, within)
    {
      mid := (low + high - 1) / 2;
      var f := files[mid];
      if (!within && f.largest < r.smallest) || (within && f.smallest < r.smallest) {
        low := mid + 1;
      } else if (!within && r.largest < f.smallest) || (within && r.largest < f.largest) {
        high := mid;
      } else {
        return true, mid;
      }
    }
    return false, 0;
  }

  lemma InOrder(files: seq<File>, i: nat, j: nat)
    requires InKeyOrder(files) && WellFormed(files) && i <= j < |files|
    ensures files[i].smallest <= files[i].largest && files[j].smallest <= files[j].largest
    ensures files[i].smallest <= files[j].smallest && files[i].largest <= files[j].largest
    ensures i < j ==> files[i].largest <= files[j].smallest
  {
    assert files[i] in files && files[j] in files;
  }

  /** From one file that meets the range to all of them: they are neighbours. */
  method ExtendFileRangeOverlappingInterval(files: seq<File>, r: Range, mid: nat) returns (start: nat, end: nat)
    requires InKeyOrder(files) && WellFormed(files) && mid < |files| && Meets(files[mid], r)
    ensures start <= mid < end <= |files|
    ensures forall i :: 0 <= i < |files| ==> (Meets(files[i], r) <==> start <= i < end)
  {
    hide InKeyOrder, WellFormed;
    start, end := mid, mid + 1;
    while start > 0 && files[start - 1].largest >= r.smallest
      invariant start <= mid && forall i :: start <= i <= mid ==> Meets(files[i], r)
    {
      InOrder(files, start - 1, mid);
      start := start - 1;
    }
    while end < |files| && files[end].smallest <= r.largest
      invariant mid < end <= |files| && forall i :: mid <= i < end ==> Meets(files[i], r)
    {
      InOrder(files, mid, end);
      end := end + 1;
    }
    forall i | 0 <= i < |files|
      ensures Meets(files[i], r) <==> start <= i < end
    {
      if i < start { InOrder(files, i, start - 1); }
      if end <= i { InOrder(files, end, i); }
    }
  }

  /** Every clean cut inside the range is made of files `left` to `right` - 1. */
  ghost predicate CutsBetween(levels: Levels, level: nat, r: Range, left: nat, right: nat)
    requires level < |levels|
  {
    forall e: set<File>, i ::
      (CleanCut(levels, level, e) && (forall f :: f in e ==> Inside(f, r)) && 0 <= i < |levels[level]| && levels[level][i] in e) ==>
        left <= i < right
  }

  lemma InsideMeets(levels: Levels, level: nat, r: Range, start: nat, end: nat)
    requires ValidLevels(levels) && 0 < level < |levels| && start <= end <= |levels[level]|
    requires forall i :: 0 <= i < |levels[level]| ==> (Meets(levels[level][i], r) <==> start <= i < end)
    ensures CutsBetween(levels, level, r, start, end)
  {
    assert ValidLevel(levels[level], level);
    assert forall i :: 0 <= i < |levels[level]| ==> levels[level][i] in levels[level];
  }

  lemma LeftIsOut(levels: Levels, level: nat, r: Range, left: nat, right: nat)
    requires ValidLevels(levels) && 0 < level < |levels| && CutsBetween(levels, level, r, left, right) && left < right <= |levels[level]|
    requires var files := levels[level];
             files[left].smallest < r.smallest || (left > 0 && files[left - 1].largest == files[left].smallest)
    ensures CutsBetween(levels, level, r, left + 1, right)
  {
    var files := levels[level];
    assert ValidLevel(files, level);
    assert forall i :: 0 <= i < |files| ==> files[i] in files;
  }

  lemma RightIsOut(levels: Levels, level: nat, r: Range, left: nat, right: nat)
    requires ValidLevels(levels) && 0 < level < |levels| && CutsBetween(levels, level, r, left, right) && left < right <= |levels[level]|
    requires var files := levels[level];
             files[right - 1].largest > r.largest || (right < |files| && files[right].smallest == files[right - 1].largest)
    ensures CutsBetween(levels, level, r, left, right - 1)
  {
    var files := levels[level];
    assert ValidLevel(files, level);
    assert forall i :: 0 <= i < |files| ==> files[i] in files;
  }

  /** Neighbours inside the range whose ends are shared with nobody are a clean cut. */
  lemma BlockIsCleanCut(levels: Levels, level: nat, left: nat, right: nat)
    requires ValidLevels(levels) && 0 < level < |levels| && left < right <= |levels[level]|
    requires left > 0 ==> levels[level][left - 1].largest != levels[level][left].smallest
    requires right < |levels[level]| ==> levels[level][right].smallest != levels[level][right - 1].largest
    ensures CleanCut(levels, level, AsSet(levels[level][left..right]))
  {
    assert ValidLevel(levels[level], level);
    var block := AsSet(levels[level][left..right]);
    forall f, a, b | f in levels[level] && a in block && b in block && a.smallest <= f.largest && f.smallest <= b.largest
      ensures f in block
    {
      BlockHolds(levels[level], left, right, f, a, b);
    }
  }

  lemma BlockHolds(files: seq<File>, left: nat, right: nat, f: File, a: File, b: File)
    requires InKeyOrder(files) && WellFormed(files) && left < right <= |files| && f in files
    requires left > 0 ==> files[left - 1].largest != files[left].smallest
    requires right < |files| ==> files[right].smallest != files[right - 1].largest
    requires a in files[left..right] && b in files[left..right] && a.smallest <= f.largest && f.smallest <= b.largest
    ensures f in files[left..right]
  {
    hide InKeyOrder, WellFormed;
    var i :| 0 <= i < |files| && files[i] == f;
    var j :| left <= j < right && files[j] == a;
    var k :| left <= k < right && files[k] == b;
    if i < left {
      NotSharedOnLeft(files, i, left, j);
    } else if right <= i {
      NotSharedOnRight(files, k, right, i);
    } else {
      assert files[left..right][i - left] == f;
    }
  }

  lemma NotSharedOnLeft(files: seq<File>, i: nat, left: nat, j: nat)
    requires InKeyOrder(files) && WellFormed(files) && i < left <= j < |files|
    requires files[left - 1].largest != files[left].smallest
    ensures files[i].largest < files[j].smallest
  {
    InOrder(files, i, left - 1);
    InOrder(files, left - 1, left);
    InOrder(files, left, j);
  }

  lemma NotSharedOnRight(files: seq<File>, k: nat, right: nat, i: nat)
    requires InKeyOrder(files) && WellFormed(files) && k < right <= i < |files|
    requires files[right].smallest != files[right - 1].largest
    ensures files[k].largest < files[i].smallest
  {
    InOrder(files, k, right - 1);
    InOrder(files, right - 1, right);
    InOrder(files, right, i);
  }

  lemma AllInside(files: seq<File>, left: nat, right: nat, r: Range)
    requires InKeyOrder(files) && WellFormed(files) && left < right <= |files|
    requires r.smallest <= files[left].smallest && files[right - 1].largest <= r.largest
    ensures forall i :: left <= i < right ==> Inside(files[i], r)
  {
    hide InKeyOrder, WellFormed;
    forall i | left <= i < right
      ensures Inside(files[i], r)
    {
      InOrder(files, left, i);
      InOrder(files, i, right - 1);
    }
  }

  /** Drops files at both ends that stick out of the range or share a key with the next file outside. */
  method ShrinkToCleanCut(levels: Levels, level: nat, r: Range, start: nat, end: nat) returns (left: nat, right: nat)
    requires ValidLevels(levels) && 0 < level < |levels| && start <= end <= |levels[level]|
    requires CutsBetween(levels, level, r, start, end)
    ensures left <= right <= |levels[level]| && CutsBetween(levels, level, r, left, right)
    ensures forall i :: left <= i < right ==> Inside(levels[level][i], r)
    ensures left < right ==> CleanCut(levels, level, AsSet(levels[level][left..right]))
  {
    var files := levels[level];
    assert ValidLevel(files, level);
    hide CutsBetween, CleanCut, ValidLevels, ValidLevel, InKeyOrder, WellFormed, Distinct, Inside;
    left, right := start, end;
    while left < right && (files[left].smallest < r.smallest || (left > 0 && files[left].smallest == files[left - 1].largest))
      invariant left <= right && CutsBetween(levels, level, r, left, right)
    {
      LeftIsOut(levels, level, r, left, right);
      left := left + 1;
    }
    while left < right && (files[right - 1].largest > r.largest || (right < |files| && files[right - 1].largest == files[right].smallest))
      invariant left <= right <= |files| && CutsBetween(levels, level, r, left, right)
    {
      RightIsOut(levels, level, r, left, right);
      right := right - 1;
    }
    if left < right {
      AllInside(files, left, right, r);
      BlockIsCleanCut(levels, level, left, right);
    }
  }

  /** From one file inside the range to the largest clean cut inside it, which may be empty. */
  method ExtendFileRangeWithinInterval(levels: Levels, level: nat, r: Range, mid: nat) returns (left: nat, right: nat)
    requires ValidLevels(levels) && 0 < level < |levels| && mid < |levels[level]| && Inside(levels[level][mid], r)
    ensures left <= right <= |levels[level]| && CutsBetween(levels, level, r, left, right)
    ensures forall i :: left <= i < right ==> Inside(levels[level][i], r)
    ensures left < right ==> CleanCut(levels, level, AsSet(levels[level][left..right]))
  {
    assert ValidLevel(levels[level], level);
    assert levels[level][mid] in levels[level];
    hide CutsBetween, CleanCut, ValidLevels;
    var start, end := ExtendFileRangeOverlappingInterval(levels[level], r, mid);
    InsideMeets(levels, level, r, start, end);
    left, right := ShrinkToCleanCut(levels, level, r, start, end);
  }

  /** The files of a level that meet a range; in level 0, also what overlaps them, and so on. */
  method GetOverlappingInputs(levels: Levels, level: nat, r: Range) returns (files: seq<File>)
    requires ValidLevels(levels) && level < |levels|
    ensures PartOf(files, levels, level)
    ensures level > 0 ==> forall f :: f in files <==> f in levels[level] && Meets(f, r)
    ensures level == 0 ==> Encloses(levels, 0, r, AsSet(files))
    ensures level == 0 ==> forall e: set<File> :: Encloses(levels, 0, r, e) ==> AsSet(files) <= e
  {
    if level == 0 {
      files := OverlappingLevel0(levels, r);
    } else {
      assert ValidLevel(levels[level], level);
      SliceIsPart(levels, level, 0, 0);
      var found, mid := FindFile(levels[level], r, false);
      if !found {
        return [];
      }
      var start, end := ExtendFileRangeOverlappingInterval(levels[level], r, mid);
      SliceIsPart(levels, level, start, end);
      files := levels[level][start..end];
    }
  }

  /** The largest clean cut inside a range; nothing in level 0. It is not empty when the range holds any clean cut. */
  method GetCleanInputsWithinInterval(levels: Levels, level: nat, r: Range) returns (files: seq<File>)
    requires ValidLevels(levels) && level < |levels|
    ensures PartOf(files, levels, level) && CleanCut(levels, level, AsSet(files))
    ensures forall f :: f in files ==> Inside(f, r)
    ensures level == 0 ==> files == []
    ensures level > 0 ==>
              forall e: set<File>, f ::
                (CleanCut(levels, level, e) && (forall g :: g in e ==> Inside(g, r)) && f in e && f in levels[level]) ==> f in files
  {
    SliceIsPart(levels, level, 0, 0);
    assert AsSet([]) == {};
    files := [];
    if level == 0 {
      return;
    }
    assert ValidLevel(levels[level], level);
    var found, mid := FindFile(levels[level], r, true);
    if found {
      var left, right := ExtendFileRangeWithinInterval(levels, level, r, mid);
      SliceIsPart(levels, level, left, right);
      files := levels[level][left..right];
      if left == right { assert files == []; }
    }
  }
}
