/** Completing the input files of a manual compaction so that no overlapping file is left behind. */
module InputSanitizer {
  import LevelFiles

  type Key = LevelFiles.Key

  type File = LevelFiles.File

  type Levels = LevelFiles.Levels

  /** The range of the files chosen so far, if there are any. */
  datatype Range = NoRange | Range(smallest: Key, largest: Key)

  predicate WellFormed(f: File) {
    f.smallest <= f.largest
  }

  /** File numbers are unique. */
  ghost predicate UniqueIds(levels: Levels) {
    forall l, i, m, k | 0 <= l < |levels| && 0 <= i < |levels[l]| && 0 <= m < |levels| && 0 <= k < |levels[m]| ::
      levels[l][i].id == levels[m][k].id ==> l == m && i == k
  }

  ghost predicate ValidLevels(levels: Levels) {
    && (forall l, i :: 0 <= l < |levels| && 0 <= i < |levels[l]| ==> WellFormed(levels[l][i]))
    && (forall l :: 0 < l < |levels| ==> LevelFiles.InKeyOrder(levels[l]))
    && UniqueIds(levels)
  }

  /** The comparisons of the source, branch by branch. */
  predicate HaveOverlappingKeyRanges(a: Range, b: File)
    requires a.Range?
  {
    (if a.smallest >= b.smallest then a.smallest <= b.largest else a.largest >= b.smallest)
    || if a.largest <= b.largest then a.largest >= b.smallest else a.smallest <= b.largest
  }

  lemma OverlapIsIntersection(a: Range, b: File)
    requires a.Range? && a.smallest <= a.largest && WellFormed(b)
    ensures HaveOverlappingKeyRanges(a, b) <==> a.smallest <= b.largest && b.smallest <= a.largest
    ensures HaveOverlappingKeyRanges(a, b) <==> exists k: Key :: Holds(a.smallest, a.largest, k) && Holds(b.smallest, b.largest, k)
  {
    if HaveOverlappingKeyRanges(a, b) {
      var k := if a.smallest < b.smallest then b.smallest else a.smallest;
      assert Holds(a.smallest, a.largest, k) && Holds(b.smallest, b.largest, k);
    }
  }

  predicate Holds(lo: Key, hi: Key, k: Key) {
    lo <= k <= hi
  }

  // ---- closed sets of files ----

  ghost predicate In(levels: Levels, s: set<nat>, l: nat, i: nat) {
    l < |levels| && i < |levels[l]| && levels[l][i].id in s
  }

  /** The hull of the chosen files of levels 0 to `top` begins at or before `x`. */
  ghost predicate Begins(levels: Levels, s: set<nat>, top: nat, x: Key) {
    exists l: nat, i: nat :: l <= top && In(levels, s, l, i) && levels[l][i].smallest <= x
  }

  /** The hull of the chosen files of levels 0 to `top` ends at or after `x`. */
  ghost predicate Ends(levels: Levels, s: set<nat>, top: nat, x: Key) {
    exists l: nat, i: nat :: l <= top && In(levels, s, l, i) && x <= levels[l][i].largest
  }

  /** Level `m` holds no unchosen file that overlaps the hull of the chosen files at or above it. */
  ghost predicate ClosedAt(levels: Levels, s: set<nat>, m: nat)
    requires m < |levels|
  {
    if m == 0 then
      forall i, k, j :: 0 <= i < k < j < |levels[0]| && levels[0][i].id in s && levels[0][j].id in s ==> levels[0][k].id in s
    else
      forall k :: 0 <= k < |levels[m]| && Begins(levels, s, m, levels[m][k].largest) && Ends(levels, s, m, levels[m][k].smallest)
        ==> levels[m][k].id in s
  }

  ghost predicate Closed(levels: Levels, out: nat, s: set<nat>)
    requires out < |levels|
  {
    forall m :: 0 <= m <= out ==> ClosedAt(levels, s, m)
  }

  /** Every closed set that contains `s` contains `id`. */
  ghost predicate Forced(levels: Levels, out: nat, s: set<nat>, id: nat)
    requires out < |levels|
  {
    forall t: set<nat> :: s <= t && Closed(levels, out, t) ==> id in t
  }

  ghost predicate AllForced(levels: Levels, out: nat, s: set<nat>, r: set<nat>)
    requires out < |levels|
  {
    forall id :: id in r ==> Forced(levels, out, s, id)
  }

  lemma ForcedByForced(levels: Levels, out: nat, s: set<nat>, r: set<nat>, id: nat)
    requires out < |levels| && AllForced(levels, out, s, r) && Forced(levels, out, r, id)
    ensures Forced(levels, out, s, id)
  {
    forall t: set<nat> | s <= t && Closed(levels, out, t) ensures id in t {
      assert r <= t;
    }
  }

  /** A file of a deeper level that overlaps the hull of chosen files is forced. */
  lemma OverlapIsForced(levels: Levels, out: nat, s: set<nat>, m: nat, k: nat)
    requires out < |levels| && 0 < m <= out && k < |levels[m]|
    requires Begins(levels, s, m, levels[m][k].largest) && Ends(levels, s, m, levels[m][k].smallest)
    ensures Forced(levels, out, s, levels[m][k].id)
  {
    forall t: set<nat> | s <= t && Closed(levels, out, t) ensures levels[m][k].id in t {
      assert ClosedAt(levels, t, m);
      var l: nat, i: nat :| l <= m && In(levels, s, l, i) && levels[l][i].smallest <= levels[m][k].largest;
      assert In(levels, t, l, i);
      var l': nat, i': nat :| l' <= m && In(levels, s, l', i') && levels[m][k].smallest <= levels[l'][i'].largest;
      assert In(levels, t, l', i');
    }
  }

  lemma BetweenIsForced(levels: Levels, out: nat, s: set<nat>, i: nat, k: nat, j: nat)
    requires out < |levels| && i < k < j < |levels[0]| && levels[0][i].id in s && levels[0][j].id in s
    ensures Forced(levels, out, s, levels[0][k].id)
  {
    forall t: set<nat> | s <= t && Closed(levels, out, t) ensures levels[0][k].id in t {
      assert ClosedAt(levels, t, 0);
    }
  }

  /** In a sorted level, the neighbour that shares a key with a chosen file is forced. */
  lemma NeighbourIsForced(levels: Levels, out: nat, s: set<nat>, l: nat, i: nat, j: nat)
    requires ValidLevels(levels) && out < |levels| && 0 < l <= out && i < |levels[l]| && j < |levels[l]|
    requires j == i + 1 && levels[l][i].largest >= levels[l][j].smallest
    requires Forced(levels, out, s, levels[l][i].id) || Forced(levels, out, s, levels[l][j].id)
    ensures Forced(levels, out, s, levels[l][i].id) && Forced(levels, out, s, levels[l][j].id)
  {
    assert WellFormed(levels[l][i]) && WellFormed(levels[l][j]);
    assert LevelFiles.InKeyOrder(levels[l]);
    forall t: set<nat> | s <= t && Closed(levels, out, t) ensures levels[l][i].id in t && levels[l][j].id in t {
      assert ClosedAt(levels, t, l);
      assert In(levels, t, l, i) || In(levels, t, l, j);
    }
  }

  // ---- one level ----

  /** The first and the last chosen file of a level. */
  ghost predicate Outermost(files: seq<File>, s: set<nat>, first: int, last: int) {
    && 0 <= first <= last < |files| && files[first].id in s && files[last].id in s
    && forall i :: 0 <= i < |files| && files[i].id in s ==> first <= i <= last
  }

  method FindIncluded(files: seq<File>, s: set<nat>, range: Range) returns (first: int, last: int, begun: Range)
    ensures last < 0 <==> forall i :: 0 <= i < |files| ==> files[i].id !in s
    ensures last < 0 ==> begun == range
    ensures last >= 0 ==> Outermost(files, s, first, last)
    ensures last >= 0 ==> begun == if range.Range? then range else Range(files[first].smallest, files[first].largest)
  {
    first, last, begun := |files|, -1, range;
    for f := 0 to |files|
      invariant last < 0 <==> forall i :: 0 <= i < f ==> files[i].id !in s
      invariant last < 0 ==> first == |files| && begun == range
      invariant last >= 0 ==> 0 <= first <= last < f && files[first].id in s && files[last].id in s
      invariant last >= 0 ==> forall i :: 0 <= i < f && files[i].id in s ==> first <= i <= last
      invariant last >= 0 ==> begun == if range.Range? then range else Range(files[first].smallest, files[first].largest)
    {
      if files[f].id in s {
        first := if f < first then f else first;
        last := if f > last then f else last;
        if begun.NoRange? {
          begun := Range(files[f].smallest, files[f].largest);
        }
      }
    }
  }

  /** Neighbours of a block that share keys with it belong to it too. */
  ghost predicate Expanded(files: seq<File>, first: nat, last: nat, first': nat, last': nat) {
    && first' <= first <= last <= last' < |files|
    && (forall i :: first' <= i < first ==> files[i].largest >= files[i + 1].smallest)
    && (forall i :: last <= i < last' ==> files[i].largest >= files[i + 1].smallest)
    && (first' > 0 ==> files[first' - 1].largest < files[first'].smallest)
    && (last' < |files| - 1 ==> files[last'].largest < files[last' + 1].smallest)
  }

  method Expand(files: seq<File>, first: nat, last: nat) returns (first': nat, last': nat)
    requires first <= last < |files|
    ensures Expanded(files, first, last, first', last')
  {
    first', last' := first, last;
    while first' > 0
      invariant first' <= first && forall i :: first' <= i < first ==> files[i].largest >= files[i + 1].smallest
    {
      if files[first' - 1].largest < files[first'].smallest {
        break;
      }
      first' := first' - 1;
    }
    while last' < |files| - 1
      invariant last <= last' < |files| && forall i :: last <= i < last' ==> files[i].largest >= files[i + 1].smallest
    {
      if files[last' + 1].smallest > files[last'].largest {
        break;
      }
      last' := last' + 1;
    }
  }

  ghost function BlockIds(files: seq<File>, first: nat, last: nat): set<nat>
    requires last < |files|
  {
    set i | first <= i <= last :: files[i].id
  }

  /** Everything from the first to the last chosen file of a level is forced, and so is what expansion adds. */
  lemma BlockIsForced(levels: Levels, out: nat, s: set<nat>, l: nat, first: nat, last: nat, first': nat, last': nat)
    requires ValidLevels(levels) && l <= out < |levels| && Outermost(levels[l], s, first, last)
    requires if l == 0 then first' == first && last' == last else Expanded(levels[l], first, last, first', last')
    ensures AllForced(levels, out, s, BlockIds(levels[l], first', last'))
  {
    forall i | first <= i <= last ensures Forced(levels, out, s, levels[l][i].id) {
      InnerIsForced(levels, out, s, l, first, last, i);
    }
    forall i | first' <= i <= last' ensures Forced(levels, out, s, levels[l][i].id) {
      if i < first {
        BelowIsForced(levels, out, s, l, i, first);
      } else if i > last {
        AboveIsForced(levels, out, s, l, last, i);
      }
    }
  }

  lemma InnerIsForced(levels: Levels, out: nat, s: set<nat>, l: nat, first: nat, last: nat, i: nat)
    requires ValidLevels(levels) && l <= out < |levels| && Outermost(levels[l], s, first, last) && first <= i <= last
    ensures Forced(levels, out, s, levels[l][i].id)
  {
    if first < i < last {
      if l == 0 {
        BetweenIsForced(levels, out, s, first, i, last);
      } else {
        assert LevelFiles.InKeyOrder(levels[l]) && WellFormed(levels[l][first]) && WellFormed(levels[l][last]) && WellFormed(levels[l][i]);
        assert In(levels, s, l, first) && In(levels, s, l, last);
        OverlapIsForced(levels, out, s, l, i);
      }
    }
  }

  lemma {:induction false} BelowIsForced(levels: Levels, out: nat, s: set<nat>, l: nat, i: nat, first: nat)
    requires ValidLevels(levels) && 0 < l <= out < |levels| && i <= first < |levels[l]|
    requires forall k :: i <= k < first ==> levels[l][k].largest >= levels[l][k + 1].smallest
    requires Forced(levels, out, s, levels[l][first].id)
    ensures Forced(levels, out, s, levels[l][i].id)
    decreases first - i
  {
    if i < first {
      BelowIsForced(levels, out, s, l, i + 1, first);
      NeighbourIsForced(levels, out, s, l, i, i + 1);
    }
  }

  lemma {:induction false} AboveIsForced(levels: Levels, out: nat, s: set<nat>, l: nat, last: nat, i: nat)
    requires ValidLevels(levels) && 0 < l <= out < |levels| && last <= i < |levels[l]|
    requires forall k :: last <= k < i ==> levels[l][k].largest >= levels[l][k + 1].smallest
    requires Forced(levels, out, s, levels[l][last].id)
    ensures Forced(levels, out, s, levels[l][i].id)
    decreases i - last
  {
    if last < i {
      AboveIsForced(levels, out, s, l, last, i - 1);
      NeighbourIsForced(levels, out, s, l, i - 1, i);
    }
  }

  datatype Outcome = Sanitized(files: set<nat>) | Aborted(id: nat)

  method InsertBlock(files: seq<File>, first: nat, last: nat, s: set<nat>, marks: set<File>) returns (r: Outcome)
    requires first <= last < |files|
    ensures r.Sanitized? ==> r.files == s + BlockIds(files, first, last)
    ensures r.Sanitized? ==> forall i :: first <= i <= last ==> files[i] !in marks
    ensures r.Aborted? ==> exists i :: first <= i <= last && files[i] in marks && files[i].id == r.id
  {
    var files' := s;
    for f := first to last + 1
      invariant files' == s + set i | first <= i < f :: files[i].id
      invariant forall i :: first <= i < f ==> files[i] !in marks
    {
      if files[f] in marks {
        return Aborted(files[f].id);
      }
      files' := files' + {files[f].id};
    }
    r := Sanitized(files');
  }

  /** `r` is `range` stretched to hold the block. */
  ghost predicate Stretched(files: seq<File>, first: nat, last: nat, range: Range, r: Range)
    requires last < |files| && range.Range?
  {
    && r.Range? && r.smallest <= range.smallest && range.largest <= r.largest
    && (forall i :: first <= i <= last ==> r.smallest <= files[i].smallest && files[i].largest <= r.largest)
    && (r.smallest == range.smallest || exists i :: first <= i <= last && files[i].smallest == r.smallest)
    && (r.largest == range.largest || exists i :: first <= i <= last && files[i].largest == r.largest)
  }

  method StretchRange(files: seq<File>, l: nat, first: nat, last: nat, range: Range) returns (r: Range)
    requires first <= last < |files| && range.Range? && (forall i :: 0 <= i < |files| ==> WellFormed(files[i]))
    requires l > 0 ==> LevelFiles.InKeyOrder(files)
    ensures Stretched(files, first, last, range, r)
  {
    r := range;
    if l == 0 {
      for f := first to last + 1
        invariant r.Range? && r.smallest <= range.smallest && range.largest <= r.largest
        invariant forall i :: first <= i < f ==> r.smallest <= files[i].smallest && files[i].largest <= r.largest
        invariant r.smallest == range.smallest || exists i :: first <= i < f && files[i].smallest == r.smallest
        invariant r.largest == range.largest || exists i :: first <= i < f && files[i].largest == r.largest
      {
        if r.smallest > files[f].smallest {
          r := Range(files[f].smallest, r.largest);
        }
        if r.largest < files[f].largest {
          r := Range(r.smallest, files[f].largest);
        }
      }
    } else {
      if r.smallest > files[first].smallest {
        r := Range(files[first].smallest, r.largest);
      }
      if r.largest < files[last].largest {
        r := Range(r.smallest, files[last].largest);
      }
      forall i | first <= i <= last ensures files[first].smallest <= files[i].smallest && files[i].largest <= files[last].largest {
        assert WellFormed(files[first]) && WellFormed(files[last]) && WellFormed(files[i]);
      }
    }
  }

  // ---- the levels below ----

  ghost function OverlapIds(levels: Levels, from: nat, end: nat, range: Range): set<nat>
    requires end <= |levels| && range.Range?
  {
    set m, k | from <= m < end && 0 <= k < |levels[m]| && HaveOverlappingKeyRanges(range, levels[m][k]) :: levels[m][k].id
  }

  ghost predicate OverlapsIdle(levels: Levels, from: nat, end: nat, range: Range, marks: set<File>)
    requires end <= |levels| && range.Range?
  {
    forall m, k :: from <= m < end && 0 <= k < |levels[m]| && HaveOverlappingKeyRanges(range, levels[m][k])
      ==> levels[m][k] !in marks
  }

  ghost predicate BusyOverlap(levels: Levels, from: nat, out: nat, range: Range, id: nat, marks: set<File>)
    requires out < |levels| && range.Range?
  {
    exists m, k | from <= m <= out && 0 <= k < |levels[m]| ::
      HaveOverlappingKeyRanges(range, levels[m][k]) && levels[m][k] in marks && levels[m][k].id == id
  }

  method InsertOverlapping(levels: Levels, from: nat, out: nat, range: Range, s: set<nat>, marks: set<File>) returns (r: Outcome)
    requires from <= out + 1 && out < |levels| && range.Range?
    ensures r.Sanitized? ==> r.files == s + OverlapIds(levels, from, out + 1, range) && OverlapsIdle(levels, from, out + 1, range, marks)
    ensures r.Aborted? ==> BusyOverlap(levels, from, out, range, r.id, marks)
  {
    hide HaveOverlappingKeyRanges;
    var files := s;
    for m := from to out + 1
      invariant files == s + OverlapIds(levels, from, m, range) && OverlapsIdle(levels, from, m, range, marks)
    {
      for k := 0 to |levels[m]|
        invariant files == s + OverlapIds(levels, from, m, range)
                  + set j | 0 <= j < k && HaveOverlappingKeyRanges(range, levels[m][j]) :: levels[m][j].id
        invariant forall j :: 0 <= j < k && HaveOverlappingKeyRanges(range, levels[m][j]) ==> levels[m][j] !in marks
      {
        if HaveOverlappingKeyRanges(range, levels[m][k]) {
          if levels[m][k] in marks {
            return Aborted(levels[m][k].id);
          }
          files := files + {levels[m][k].id};
        }
      }
      assert OverlapIds(levels, from, m + 1, range) == OverlapIds(levels, from, m, range)
        + set j | 0 <= j < |levels[m]| && HaveOverlappingKeyRanges(range, levels[m][j]) :: levels[m][j].id;
    }
    r := Sanitized(files);
  }

  // ---- all levels ----

  /** Both ends of the range are ends of chosen files. */
  ghost predicate Attained(levels: Levels, s: set<nat>, top: nat, range: Range)
    requires range.Range?
  {
    && range.smallest <= range.largest
    && (exists l: nat, i: nat :: l < top && In(levels, s, l, i) && levels[l][i].smallest == range.smallest)
    && (exists l: nat, i: nat :: l < top && In(levels, s, l, i) && levels[l][i].largest == range.largest)
  }

  /** The range is the hull of the chosen files of levels 0 to `top` - 1. */
  ghost predicate RangeIs(levels: Levels, s: set<nat>, top: nat, range: Range) {
    if range.NoRange? then forall l: nat, i: nat :: l < top ==> !In(levels, s, l, i)
    else
      && Attained(levels, s, top, range)
      && forall l: nat, i: nat :: l < top && In(levels, s, l, i) ==>
        range.smallest <= levels[l][i].smallest && levels[l][i].largest <= range.largest
  }

  /** Levels `from` to `out` hold no unchosen file that overlaps the range. */
  ghost predicate Covered(levels: Levels, s: set<nat>, from: nat, out: nat, range: Range)
    requires out < |levels|
  {
    range.Range? ==>
      forall m, k :: from <= m <= out && 0 <= k < |levels[m]| && HaveOverlappingKeyRanges(range, levels[m][k]) ==> levels[m][k].id in s
  }

  ghost predicate Idle(levels: Levels, s: set<nat>, top: nat, marks: set<File>) {
    forall l: nat, i: nat :: l < top && In(levels, s, l, i) ==> levels[l][i] !in marks
  }

  function FirstBelow(l: nat): nat {
    if l < 1 then 1 else l
  }

  /** What holds when levels 0 to `l` - 1 are done. */
  ghost predicate Done(levels: Levels, out: nat, requested: set<nat>, s: set<nat>, l: nat, range: Range, marks: set<File>)
    requires out < |levels|
  {
    && l <= out + 1 && requested <= s
    && AllForced(levels, out, requested, s)
    && RangeIs(levels, s, l, range)
    && Covered(levels, s, FirstBelow(l), out, range)
    && (forall m :: 0 <= m < l ==> ClosedAt(levels, s, m))
    && Idle(levels, s, l, marks)
  }

  /** Overlapping the hull of the levels above is overlapping the range. */
  lemma HullIsRange(levels: Levels, s: set<nat>, top: nat, range: Range, lo: Key, hi: Key)
    requires RangeIs(levels, s, top + 1, range)
    ensures Begins(levels, s, top, hi) <==> range.Range? && range.smallest <= hi
    ensures Ends(levels, s, top, lo) <==> range.Range? && lo <= range.largest
  {
    if range.Range? {
      var l: nat, i: nat :| l < top + 1 && In(levels, s, l, i) && levels[l][i].smallest == range.smallest;
      var m: nat, k: nat :| m < top + 1 && In(levels, s, m, k) && levels[m][k].largest == range.largest;
    }
  }

  /** A level without chosen files is done as it is. */
  lemma SkippedLevelIsDone(levels: Levels, out: nat, requested: set<nat>, s: set<nat>, l: nat, range: Range, marks: set<File>)
    requires ValidLevels(levels) && l <= out < |levels| && Done(levels, out, requested, s, l, range, marks)
    requires forall i :: 0 <= i < |levels[l]| ==> levels[l][i].id !in s
    ensures Done(levels, out, requested, s, l + 1, range, marks)
  {
    SkippedRange(levels, s, l, range);
    assert l == 0 ==> ClosedAt(levels, s, 0);
    CoveredLevelIsClosed(levels, out, s, l, range);
    assert Idle(levels, s, l + 1, marks);
    hide AllForced, HaveOverlappingKeyRanges, RangeIs, ClosedAt, Idle, ValidLevels;
  }

  lemma SkippedRange(levels: Levels, s: set<nat>, l: nat, range: Range)
    requires l < |levels| && RangeIs(levels, s, l, range) && forall i :: 0 <= i < |levels[l]| ==> levels[l][i].id !in s
    ensures RangeIs(levels, s, l + 1, range)
  {
    assert forall i: nat :: !In(levels, s, l, i);
    if range.Range? {
      var m: nat, i: nat :| m < l && In(levels, s, m, i) && levels[m][i].smallest == range.smallest;
      var n: nat, k: nat :| n < l && In(levels, s, n, k) && levels[n][k].largest == range.largest;
      assert m < l + 1 && n < l + 1;
    }
  }

  lemma CoveredLevelIsClosed(levels: Levels, out: nat, s: set<nat>, l: nat, range: Range)
    requires ValidLevels(levels) && l <= out < |levels| && RangeIs(levels, s, l + 1, range) && Covered(levels, s, FirstBelow(l), out, range)
    requires l == 0 ==> ClosedAt(levels, s, 0)
    ensures ClosedAt(levels, s, l)
  {
    if l > 0 {
      forall k | 0 <= k < |levels[l]| && Begins(levels, s, l, levels[l][k].largest) && Ends(levels, s, l, levels[l][k].smallest)
        ensures levels[l][k].id in s
      {
        HullIsRange(levels, s, l, range, levels[l][k].smallest, levels[l][k].largest);
        OverlapIsIntersection(range, levels[l][k]);
      }
    }
  }

  /** The range that a block alone gives. */
  ghost predicate FromBlock(files: seq<File>, first: nat, last: nat, r: Range)
    requires last < |files|
  {
    exists i | first <= i <= last :: Stretched(files, first, last, Range(files[i].smallest, files[i].largest), r)
  }

  /** What one level adds: a block around its chosen files, and then whatever overlaps the stretched range. */
  ghost predicate Adds(levels: Levels, out: nat, s: set<nat>, l: nat, range: Range, first: nat, last: nat, stretched: Range, r: set<nat>)
    requires l <= out < |levels| && last < |levels[l]|
  {
    && first <= last && stretched.Range?
    && (forall i :: 0 <= i < |levels[l]| && levels[l][i].id in s ==> first <= i <= last)
    && (l > 0 && first > 0 ==> levels[l][first - 1].largest < levels[l][first].smallest)
    && (l > 0 && last < |levels[l]| - 1 ==> levels[l][last].largest < levels[l][last + 1].smallest)
    && (range.Range? ==> Stretched(levels[l], first, last, range, stretched))
    && (range.NoRange? ==> FromBlock(levels[l], first, last, stretched))
    && r == s + BlockIds(levels[l], first, last) + OverlapIds(levels, FirstBelow(l), out + 1, stretched)
  }

  /** Where the chosen files are after a level's additions. */
  lemma AddedWhere(levels: Levels, out: nat, s: set<nat>, l: nat, range: Range, first: nat, last: nat, stretched: Range, r: set<nat>)
    requires ValidLevels(levels) && l <= out < |levels| && last < |levels[l]|
    requires Adds(levels, out, s, l, range, first, last, stretched, r)
    ensures forall m: nat, i: nat :: m < l ==> (In(levels, r, m, i) <==> In(levels, s, m, i))
    ensures forall i: nat :: In(levels, r, l, i) <==>
      i < |levels[l]| && (first <= i <= last || (l > 0 && HaveOverlappingKeyRanges(stretched, levels[l][i])))
  {
    hide HaveOverlappingKeyRanges;
    forall m: nat, i: nat | m < l && In(levels, r, m, i) ensures In(levels, s, m, i) {
      assert levels[m][i].id !in BlockIds(levels[l], first, last);
      assert levels[m][i].id !in OverlapIds(levels, FirstBelow(l), out + 1, stretched);
    }
    forall i: nat | In(levels, r, l, i) ensures first <= i <= last || (l > 0 && HaveOverlappingKeyRanges(stretched, levels[l][i])) {
      if levels[l][i].id in OverlapIds(levels, FirstBelow(l), out + 1, stretched) {
        var m, k :| FirstBelow(l) <= m < out + 1 && 0 <= k < |levels[m]| && HaveOverlappingKeyRanges(stretched, levels[m][k]) && levels[m][k].id == levels[l][i].id;
        assert m == l && k == i;
      }
    }
  }

  lemma BlockEnds(files: seq<File>, first: nat, last: nat, k: nat)
    requires LevelFiles.InKeyOrder(files) && (forall i :: 0 <= i < |files| ==> WellFormed(files[i])) && first <= k <= last < |files|
    ensures files[first].smallest <= files[k].smallest <= files[k].largest <= files[last].largest
  {
    assert WellFormed(files[first]) && WellFormed(files[k]) && WellFormed(files[last]);
  }

  /** In a sorted level, a file outside the block that overlaps the stretched range lies inside it. */
  lemma GapLiesInside(levels: Levels, out: nat, s: set<nat>, l: nat, range: Range, first: nat, last: nat, stretched: Range, r: set<nat>, i: nat)
    requires ValidLevels(levels) && 0 < l <= out < |levels| && last < |levels[l]| && i < |levels[l]| && range.Range?
    requires Adds(levels, out, s, l, range, first, last, stretched, r) && Covered(levels, s, l, out, range)
    requires range.smallest <= range.largest
    requires !(first <= i <= last) && HaveOverlappingKeyRanges(stretched, levels[l][i])
    ensures stretched.smallest <= levels[l][i].smallest && levels[l][i].largest <= stretched.largest
  {
    var files := levels[l];
    assert LevelFiles.InKeyOrder(files) && WellFormed(files[i]);
    assert forall k :: 0 <= k < |files| ==> WellFormed(files[k]);
    OverlapIsIntersection(range, files[i]);
    OverlapIsIntersection(stretched, files[i]);
    assert i < first ==> files[i].largest < files[first].smallest;
    assert i > last ==> files[last].largest < files[i].smallest;
    forall k | first <= k <= last ensures files[first].smallest <= files[k].smallest && files[k].largest <= files[last].largest {
      BlockEnds(files, first, last, k);
    }
    hide ValidLevels, LevelFiles.InKeyOrder, HaveOverlappingKeyRanges, BlockIds, OverlapIds;
  }

  /** The block of a first level is all that overlaps its own range. */
  lemma NoGapAtFirst(levels: Levels, out: nat, s: set<nat>, l: nat, range: Range, first: nat, last: nat, stretched: Range, r: set<nat>, i: nat)
    requires ValidLevels(levels) && 0 < l <= out < |levels| && last < |levels[l]| && i < |levels[l]| && range.NoRange?
    requires Adds(levels, out, s, l, range, first, last, stretched, r) && !(first <= i <= last)
    ensures !HaveOverlappingKeyRanges(stretched, levels[l][i])
  {
    var files := levels[l];
    assert LevelFiles.InKeyOrder(files) && WellFormed(files[i]);
    assert forall k :: 0 <= k < |files| ==> WellFormed(files[k]);
    var j :| first <= j <= last && Stretched(files, first, last, Range(files[j].smallest, files[j].largest), stretched);
    assert WellFormed(files[j]);
    OverlapIsIntersection(stretched, files[i]);
    forall k | first <= k <= last ensures files[first].smallest <= files[k].smallest && files[k].largest <= files[last].largest {
      BlockEnds(files, first, last, k);
    }
    assert i < first ==> files[i].largest < files[first].smallest;
    assert i > last ==> files[last].largest < files[i].smallest;
    hide ValidLevels, LevelFiles.InKeyOrder, HaveOverlappingKeyRanges, BlockIds, OverlapIds;
  }

  /** The stretched range is the hull of all chosen files down to this level. */
  lemma StretchedIsHull(levels: Levels, out: nat, s: set<nat>, l: nat, range: Range, first: nat, last: nat, stretched: Range, r: set<nat>)
    requires ValidLevels(levels) && l <= out < |levels| && last < |levels[l]|
    requires Adds(levels, out, s, l, range, first, last, stretched, r)
    requires RangeIs(levels, s, l, range) && Covered(levels, s, FirstBelow(l), out, range)
    ensures RangeIs(levels, r, l + 1, stretched)
  {
    AddedWhere(levels, out, s, l, range, first, last, stretched, r);
    HullIsAttained(levels, out, s, l, range, first, last, stretched, r, r);
    forall m: nat, i: nat | m < l + 1 && In(levels, r, m, i)
      ensures stretched.smallest <= levels[m][i].smallest && levels[m][i].largest <= stretched.largest
    {
      if m == l && !(first <= i <= last) {
        if range.Range? {
          GapLiesInside(levels, out, s, l, range, first, last, stretched, r, i);
        } else {
          NoGapAtFirst(levels, out, s, l, range, first, last, stretched, r, i);
        }
      }
    }
  }

  lemma HullIsAttained(levels: Levels, out: nat, s: set<nat>, l: nat, range: Range, first: nat, last: nat, stretched: Range, r: set<nat>, t: set<nat>)
    requires ValidLevels(levels) && l <= out < |levels| && last < |levels[l]|
    requires Adds(levels, out, s, l, range, first, last, stretched, r) && RangeIs(levels, s, l, range)
    requires forall m: nat, i: nat :: m < l ==> (In(levels, t, m, i) <==> In(levels, s, m, i))
    requires forall i: nat :: first <= i <= last ==> In(levels, t, l, i)
    ensures Attained(levels, t, l + 1, stretched)
    ensures forall m: nat, i: nat :: m < l && In(levels, t, m, i) ==> stretched.smallest <= levels[m][i].smallest && levels[m][i].largest <= stretched.largest
  {
    var files := levels[l];
    assert WellFormed(files[first]);
    if range.Range? {
      var m: nat, i: nat :| m < l && In(levels, s, m, i) && levels[m][i].smallest == range.smallest;
      var n: nat, k: nat :| n < l && In(levels, s, n, k) && levels[n][k].largest == range.largest;
      assert In(levels, t, m, i) && In(levels, t, n, k);
      EndsAttained(levels, t, l, first, last, range, stretched, m, i, n, k);
    } else {
      var j :| first <= j <= last && Stretched(files, first, last, Range(files[j].smallest, files[j].largest), stretched);
      assert In(levels, t, l, j);
      EndsAttained(levels, t, l, first, last, Range(files[j].smallest, files[j].largest), stretched, l, j, l, j);
    }
  }

  lemma EndsAttained(levels: Levels, r: set<nat>, l: nat, first: nat, last: nat, range: Range, stretched: Range, m: nat, i: nat, n: nat, k: nat)
    requires l < |levels| && first <= last < |levels[l]| && range.Range? && Stretched(levels[l], first, last, range, stretched)
    requires forall i: nat :: first <= i <= last ==> In(levels, r, l, i)
    requires m <= l && In(levels, r, m, i) && levels[m][i].smallest == range.smallest
    requires n <= l && In(levels, r, n, k) && levels[n][k].largest == range.largest
    requires stretched.smallest <= stretched.largest
    ensures Attained(levels, r, l + 1, stretched)
  {
    if stretched.smallest != range.smallest {
      var j :| first <= j <= last && levels[l][j].smallest == stretched.smallest;
      assert In(levels, r, l, j);
    }
    if stretched.largest != range.largest {
      var j :| first <= j <= last && levels[l][j].largest == stretched.largest;
      assert In(levels, r, l, j);
    }
  }

  /** A file that overlaps a range spanned by chosen files is forced. */
  lemma OverlapOfRangeIsForced(levels: Levels, out: nat, s: set<nat>, l: nat, range: Range, m: nat, k: nat)
    requires ValidLevels(levels) && l <= m && 0 < m <= out < |levels| && k < |levels[m]| && range.Range?
    requires Attained(levels, s, l + 1, range) && HaveOverlappingKeyRanges(range, levels[m][k])
    ensures Forced(levels, out, s, levels[m][k].id)
  {
    assert WellFormed(levels[m][k]);
    OverlapIsIntersection(range, levels[m][k]);
    hide HaveOverlappingKeyRanges, Forced, ValidLevels;
    var a: nat, i: nat :| a < l + 1 && In(levels, s, a, i) && levels[a][i].smallest == range.smallest;
    var b: nat, j: nat :| b < l + 1 && In(levels, s, b, j) && levels[b][j].largest == range.largest;
    assert Begins(levels, s, m, levels[m][k].largest);
    assert Ends(levels, s, m, levels[m][k].smallest);
    OverlapIsForced(levels, out, s, m, k);
  }

  lemma MoreForced(levels: Levels, out: nat, requested: set<nat>, s: set<nat>, more: set<nat>)
    requires out < |levels| && AllForced(levels, out, requested, s) && AllForced(levels, out, s, more)
    ensures AllForced(levels, out, requested, s + more)
  {
    forall id | id in more ensures Forced(levels, out, requested, id) {
      ForcedByForced(levels, out, requested, s, id);
    }
  }

  lemma OverlapIdsAreForced(levels: Levels, out: nat, s: set<nat>, l: nat, range: Range)
    requires ValidLevels(levels) && l <= out < |levels| && range.Range? && Attained(levels, s, l + 1, range)
    ensures AllForced(levels, out, s, OverlapIds(levels, FirstBelow(l), out + 1, range))
  {
    hide HaveOverlappingKeyRanges, Forced, ValidLevels, Attained;
    forall id | id in OverlapIds(levels, FirstBelow(l), out + 1, range) ensures Forced(levels, out, s, id) {
      var m, k :| FirstBelow(l) <= m < out + 1 && 0 <= k < |levels[m]| && HaveOverlappingKeyRanges(range, levels[m][k]) && levels[m][k].id == id;
      OverlapOfRangeIsForced(levels, out, s, l, range, m, k);
    }
  }

  /** The block alone already spans the stretched range. */
  lemma BlockAttains(levels: Levels, out: nat, s: set<nat>, l: nat, range: Range, first: nat, last: nat, stretched: Range)
    requires ValidLevels(levels) && l <= out < |levels| && last < |levels[l]| && stretched.Range? && RangeIs(levels, s, l, range)
    requires Adds(levels, out, s, l, range, first, last, stretched,
                  s + BlockIds(levels[l], first, last) + OverlapIds(levels, FirstBelow(l), out + 1, stretched))
    ensures Attained(levels, s + BlockIds(levels[l], first, last), l + 1, stretched)
  {
    var t := s + BlockIds(levels[l], first, last);
    var r := t + OverlapIds(levels, FirstBelow(l), out + 1, stretched);
    forall m: nat, i: nat | m < l && In(levels, t, m, i) ensures In(levels, s, m, i) {
      assert levels[m][i].id !in BlockIds(levels[l], first, last);
    }
    HullIsAttained(levels, out, s, l, range, first, last, stretched, r, t);
  }

  /** The levels above keep what they had. */
  lemma UpperLevelsStayClosed(levels: Levels, s: set<nat>, r: set<nat>, l: nat, m: nat)
    requires m < l <= |levels| && ClosedAt(levels, s, m)
    requires forall n: nat, i: nat :: n < l ==> (In(levels, r, n, i) <==> In(levels, s, n, i))
    ensures ClosedAt(levels, r, m)
  {
    assert forall k: nat :: k < |levels[m]| ==> (In(levels, r, m, k) <==> levels[m][k].id in r);
    assert forall k: nat :: k < |levels[m]| ==> (In(levels, s, m, k) <==> levels[m][k].id in s);
    forall x: Key ensures Begins(levels, r, m, x) ==> Begins(levels, s, m, x) {
    }
    forall x: Key ensures Ends(levels, r, m, x) ==> Ends(levels, s, m, x) {
    }
  }

  lemma AddedIsForced(levels: Levels, out: nat, requested: set<nat>, s: set<nat>, l: nat, range: Range, first: nat, last: nat, stretched: Range, r: set<nat>)
    requires ValidLevels(levels) && l <= out < |levels| && last < |levels[l]|
    requires AllForced(levels, out, requested, s) && RangeIs(levels, s, l, range)
    requires Adds(levels, out, s, l, range, first, last, stretched, r)
    requires AllForced(levels, out, s, BlockIds(levels[l], first, last))
    ensures AllForced(levels, out, requested, r)
  {
    var block := BlockIds(levels[l], first, last);
    BlockAttains(levels, out, s, l, range, first, last, stretched);
    hide AllForced, Forced, RangeIs, ValidLevels, BlockIds, OverlapIds, Stretched, FromBlock, Attained;
    OverlapIdsAreForced(levels, out, s + block, l, stretched);
    MoreForced(levels, out, requested, s, block);
    MoreForced(levels, out, requested, s + block, OverlapIds(levels, FirstBelow(l), out + 1, stretched));
  }

  lemma AddedIsClosed(levels: Levels, out: nat, s: set<nat>, l: nat, range: Range, first: nat, last: nat, stretched: Range, r: set<nat>)
    requires ValidLevels(levels) && l <= out < |levels| && last < |levels[l]|
    requires Adds(levels, out, s, l, range, first, last, stretched, r)
    requires RangeIs(levels, r, l + 1, stretched) && forall m :: 0 <= m < l ==> ClosedAt(levels, s, m)
    ensures Covered(levels, r, FirstBelow(l + 1), out, stretched)
    ensures forall m :: 0 <= m < l + 1 ==> ClosedAt(levels, r, m)
  {
    AddedWhere(levels, out, s, l, range, first, last, stretched, r);
    OverlapIdsCover(levels, out, l, stretched, r, s + BlockIds(levels[l], first, last));
    hide ValidLevels, BlockIds, OverlapIds, Stretched, FromBlock, RangeIs, Covered, Adds;
    if l == 0 {
      assert forall i: nat :: i < |levels[0]| ==> (In(levels, r, 0, i) <==> levels[0][i].id in r);
    }
    CoveredLevelIsClosed(levels, out, r, l, stretched);
    forall m | 0 <= m < l ensures ClosedAt(levels, r, m) {
      UpperLevelsStayClosed(levels, s, r, l, m);
    }
  }

  lemma AddedIsIdle(levels: Levels, out: nat, s: set<nat>, l: nat, range: Range, first: nat, last: nat, stretched: Range, r: set<nat>, marks: set<File>)
    requires ValidLevels(levels) && l <= out < |levels| && last < |levels[l]|
    requires Adds(levels, out, s, l, range, first, last, stretched, r) && Idle(levels, s, l, marks)
    requires forall i :: first <= i <= last ==> levels[l][i] !in marks
    requires OverlapsIdle(levels, FirstBelow(l), out + 1, stretched, marks)
    ensures Idle(levels, r, l + 1, marks)
  {
    AddedWhere(levels, out, s, l, range, first, last, stretched, r);
    hide Adds, ValidLevels, HaveOverlappingKeyRanges;
  }

  /** One round of the source's loop, from chosen files to the next level. */
  lemma LevelIsDone(levels: Levels, out: nat, requested: set<nat>, s: set<nat>, l: nat, range: Range, first: nat, last: nat, stretched: Range, r: set<nat>, marks: set<File>)
    requires ValidLevels(levels) && l <= out < |levels| && last < |levels[l]|
    requires Done(levels, out, requested, s, l, range, marks) && Adds(levels, out, s, l, range, first, last, stretched, r)
    requires AllForced(levels, out, s, BlockIds(levels[l], first, last))
    requires forall i :: first <= i <= last ==> levels[l][i] !in marks
    requires OverlapsIdle(levels, FirstBelow(l), out + 1, stretched, marks)
    ensures Done(levels, out, requested, r, l + 1, stretched, marks)
  {
    hide ValidLevels, AllForced, RangeIs, Covered, ClosedAt, Idle, BlockIds, OverlapIds, OverlapsIdle, Stretched,
         FromBlock;
    AddedIsForced(levels, out, requested, s, l, range, first, last, stretched, r);
    StretchedIsHull(levels, out, s, l, range, first, last, stretched, r);
    AddedIsClosed(levels, out, s, l, range, first, last, stretched, r);
    AddedIsIdle(levels, out, s, l, range, first, last, stretched, r, marks);
  }

  lemma OverlapIdsCover(levels: Levels, out: nat, l: nat, range: Range, r: set<nat>, t: set<nat>)
    requires l <= out < |levels| && range.Range? && r == t + OverlapIds(levels, FirstBelow(l), out + 1, range)
    ensures Covered(levels, r, FirstBelow(l), out, range) && Covered(levels, r, FirstBelow(l + 1), out, range)
  {
    hide HaveOverlappingKeyRanges;
  }

  /** The files of a set that cannot be compacted now. */
  ghost predicate HasBusy(levels: Levels, out: nat, s: set<nat>, marks: set<File>) {
    exists l: nat, i: nat :: l <= out && In(levels, s, l, i) && levels[l][i] in marks
  }

  lemma NothingIsDone(levels: Levels, out: nat, requested: set<nat>, marks: set<File>)
    requires out < |levels|
    ensures Done(levels, out, requested, requested, 0, NoRange, marks)
  {
  }

  lemma EverythingIsDone(levels: Levels, out: nat, requested: set<nat>, s: set<nat>, range: Range, marks: set<File>)
    requires out < |levels| && Done(levels, out, requested, s, out + 1, range, marks)
    ensures Closed(levels, out, s) && !HasBusy(levels, out, s, marks)
  {
    hide AllForced, ClosedAt, RangeIs, Covered;
  }

  lemma LevelIsValid(levels: Levels, l: nat)
    requires ValidLevels(levels) && l < |levels|
    ensures (forall i :: 0 <= i < |levels[l]| ==> WellFormed(levels[l][i])) && (l > 0 ==> LevelFiles.InKeyOrder(levels[l]))
  {
  }

  lemma RoundAdds(levels: Levels, out: nat, s: set<nat>, l: nat, range: Range, first: nat, last: nat, first': nat, last': nat,
                  begun: Range, stretched: Range)
    requires l <= out < |levels| && Outermost(levels[l], s, first, last)
    requires if l == 0 then first' == first && last' == last else Expanded(levels[l], first, last, first', last')
    requires begun == if range.Range? then range else Range(levels[l][first].smallest, levels[l][first].largest)
    requires Stretched(levels[l], first', last', begun, stretched)
    ensures Adds(levels, out, s, l, range, first', last', stretched,
                 s + BlockIds(levels[l], first', last') + OverlapIds(levels, FirstBelow(l), out + 1, stretched))
  {
    assert stretched.Range?;
    hide BlockIds, OverlapIds, Stretched;
    if range.NoRange? {
      assert first' <= first <= last';
    }
  }

  ghost predicate AlwaysBusy(levels: Levels, out: nat, requested: set<nat>, marks: set<File>)
    requires out < |levels|
  {
    forall t: set<nat> :: requested <= t && Closed(levels, out, t) ==> HasBusy(levels, out, t, marks)
  }

  lemma BusyForcedFile(levels: Levels, out: nat, requested: set<nat>, s: set<nat>, l: nat, i: nat, marks: set<File>)
    requires l <= out < |levels| && i < |levels[l]| && levels[l][i] in marks
    requires AllForced(levels, out, requested, s) && Forced(levels, out, s, levels[l][i].id)
    ensures AlwaysBusy(levels, out, requested, marks)
  {
    ForcedByForced(levels, out, requested, s, levels[l][i].id);
    forall t: set<nat> | requested <= t && Closed(levels, out, t) ensures HasBusy(levels, out, t, marks) {
      assert In(levels, t, l, i);
    }
  }

  lemma BusyBlock(levels: Levels, out: nat, requested: set<nat>, s: set<nat>, l: nat, first: nat, last: nat, marks: set<File>)
    requires l <= out < |levels| && last < |levels[l]| && AllForced(levels, out, requested, s)
    requires AllForced(levels, out, s, BlockIds(levels[l], first, last))
    requires exists i :: first <= i <= last && levels[l][i] in marks
    ensures AlwaysBusy(levels, out, requested, marks)
  {
    var i :| first <= i <= last && levels[l][i] in marks;
    assert levels[l][i].id in BlockIds(levels[l], first, last);
    hide Forced, AlwaysBusy, BlockIds;
    BusyForcedFile(levels, out, requested, s, l, i, marks);
  }

  lemma BusyBelow(levels: Levels, out: nat, requested: set<nat>, s: set<nat>, l: nat, range: Range, id: nat, marks: set<File>)
    requires ValidLevels(levels) && l <= out < |levels| && range.Range? && AllForced(levels, out, requested, s)
    requires Attained(levels, s, l + 1, range) && BusyOverlap(levels, FirstBelow(l), out, range, id, marks)
    ensures AlwaysBusy(levels, out, requested, marks)
  {
    hide ValidLevels, AllForced, Forced, Attained, HaveOverlappingKeyRanges, AlwaysBusy;
    var m, k :| FirstBelow(l) <= m <= out && 0 <= k < |levels[m]|
      && HaveOverlappingKeyRanges(range, levels[m][k]) && levels[m][k] in marks && levels[m][k].id == id;
    OverlapOfRangeIsForced(levels, out, s, l, range, m, k);
    BusyForcedFile(levels, out, requested, s, m, k, marks);
  }

  /** Completes the requested files to the least closed set of files. It fails just when some file of that set
      is being compacted. */
  method SanitizeCompactionInputFilesForAllLevels(levels: Levels, requested: set<nat>, out: nat, marks: set<File>) returns (r: Outcome)
    requires ValidLevels(levels) && out < |levels|
    ensures r.Sanitized? ==> requested <= r.files && Closed(levels, out, r.files) && AllForced(levels, out, requested, r.files)
    ensures r.Sanitized? ==> !HasBusy(levels, out, r.files, marks)
    ensures r.Aborted? ==> AlwaysBusy(levels, out, requested, marks)
  {
    hide ValidLevels, AllForced, RangeIs, Covered, ClosedAt, Idle, BlockIds, OverlapIds, OverlapsIdle, Stretched,
         FromBlock, HasBusy, Closed;
    hide AlwaysBusy, Adds, Attained, Outermost, Expanded, BusyOverlap;
    var s := requested;
    var range := NoRange;
    NothingIsDone(levels, out, requested, marks);
    for l := 0 to out + 1
      invariant Done(levels, out, requested, s, l, range, marks)
    {
      LevelIsValid(levels, l);
      var first, last, begun := FindIncluded(levels[l], s, range);
      if last < 0 {
        SkippedLevelIsDone(levels, out, requested, s, l, range, marks);
        continue;
      }
      var first', last' := first, last;
      if l != 0 {
        first', last' := Expand(levels[l], first, last);
      }
      BlockIsForced(levels, out, s, l, first, last, first', last');
      r := InsertBlock(levels[l], first', last', s, marks);
      if r.Aborted? {
        BusyBlock(levels, out, requested, s, l, first', last', marks);
        return;
      }
      var stretched := StretchRange(levels[l], l, first', last', begun);
      RoundAdds(levels, out, s, l, range, first, last, first', last', begun, stretched);
      BlockAttains(levels, out, s, l, range, first', last', stretched);
      MoreForced(levels, out, requested, s, BlockIds(levels[l], first', last'));
      ghost var withBlock := r.files;
      r := InsertOverlapping(levels, FirstBelow(l), out, stretched, r.files, marks);
      if r.Aborted? {
        BusyBelow(levels, out, requested, withBlock, l, stretched, r.id, marks);
        return;
      }
      LevelIsDone(levels, out, requested, s, l, range, first', last', stretched, r.files, marks);
      s, range := r.files, stretched;
    }
    EverythingIsDone(levels, out, requested, s, range, marks);
    r := Sanitized(s);
  }

  // ---- the whole check ----

  datatype Verdict = Accepted(files: set<nat>) | InvalidArgument | Busy

  ghost predicate Exists(levels: Levels, id: nat) {
    exists l, i :: 0 <= l < |levels| && 0 <= i < |levels[l]| && levels[l][i].id == id
  }

  ghost predicate SomeMissing(levels: Levels, ids: set<nat>) {
    exists id :: id in ids && !Exists(levels, id)
  }

  ghost predicate ExistsBusy(levels: Levels, id: nat, marks: set<File>) {
    exists l, i :: 0 <= l < |levels| && 0 <= i < |levels[l]| && levels[l][i].id == id && levels[l][i] in marks
  }

  /** The source's search for a file by its number: the first match decides. */
  method FindFile(levels: Levels, id: nat, marks: set<File>) returns (found: bool, busy: bool)
    requires UniqueIds(levels)
    ensures found == Exists(levels, id) && busy == ExistsBusy(levels, id, marks)
  {
    for l := 0 to |levels|
      invariant forall m, i :: 0 <= m < l && 0 <= i < |levels[m]| ==> levels[m][i].id != id
    {
      for k := 0 to |levels[l]|
        invariant forall i :: 0 <= i < k ==> levels[l][i].id != id
      {
        if levels[l][k].id == id {
          return true, levels[l][k] in marks;
        }
      }
    }
    return false, false;
  }

  /** Completion adds existing files only. */
  lemma ForcedExists(levels: Levels, out: nat, requested: set<nat>, s: set<nat>, id: nat)
    requires out < |levels| && requested <= s && Closed(levels, out, s) && AllForced(levels, out, requested, s)
    requires id in s && !Exists(levels, id)
    ensures id in requested
  {
    var t := s - {id} + requested;
    assert forall l: nat, i: nat :: In(levels, t, l, i) <==> In(levels, s, l, i);
    forall m | 0 <= m <= out ensures ClosedAt(levels, t, m) {
      assert ClosedAt(levels, s, m);
      UpperLevelsStayClosed(levels, s, t, m + 1, m);
    }
    assert Forced(levels, out, requested, id);
    assert id in t;
  }

  method SanitizeCompactionInputFiles(levels: Levels, requested: set<nat>, outputLevel: int, maxOutputLevel: int, marks: set<File>) returns (r: Verdict)
    requires ValidLevels(levels)
    ensures r.Accepted? ==> 0 <= outputLevel < |levels| && outputLevel <= maxOutputLevel && requested != {}
    ensures r.Accepted? ==>
      requested <= r.files && Closed(levels, outputLevel, r.files) && AllForced(levels, outputLevel, requested, r.files)
    ensures r.Accepted? ==> forall id :: id in r.files ==> Exists(levels, id) && !ExistsBusy(levels, id, marks)
    ensures r.InvalidArgument? ==>
      outputLevel < 0 || outputLevel >= |levels| || outputLevel > maxOutputLevel || requested == {} || SomeMissing(levels, requested)
    ensures r.Busy? ==> 0 <= outputLevel < |levels|
    ensures r.Busy? ==> forall t: set<nat> :: requested <= t && Closed(levels, outputLevel, t) ==> SomeBusy(levels, t, marks)
  {
    if outputLevel >= |levels| || outputLevel > maxOutputLevel || outputLevel < 0 || requested == {} {
      return InvalidArgument;
    }
    var all := SanitizeCompactionInputFilesForAllLevels(levels, requested, outputLevel, marks);
    hide AllForced, Closed, Exists, ExistsBusy, HasBusy;
    if all.Aborted? {
      SomeFileIsBusy(levels, outputLevel, requested, marks);
      return Busy;
    }
    var todo := all.files;
    while todo != {}
      invariant todo <= all.files && forall id :: id in all.files - todo ==> Exists(levels, id) && !ExistsBusy(levels, id, marks)
      decreases |todo|
    {
      var id :| id in todo;
      var found, busy := FindFile(levels, id, marks);
      if busy {
        ForcedIsBusy(levels, outputLevel, requested, all.files, id, marks);
        return Busy;
      }
      if !found {
        ForcedExists(levels, outputLevel, requested, all.files, id);
        return InvalidArgument;
      }
      todo := todo - {id};
    }
    r := Accepted(all.files);
  }

  ghost predicate SomeBusy(levels: Levels, t: set<nat>, marks: set<File>) {
    exists id :: id in t && ExistsBusy(levels, id, marks)
  }

  lemma SomeFileIsBusy(levels: Levels, out: nat, requested: set<nat>, marks: set<File>)
    requires out < |levels| && AlwaysBusy(levels, out, requested, marks)
    ensures forall t: set<nat> :: requested <= t && Closed(levels, out, t) ==> SomeBusy(levels, t, marks)
  {
    forall t: set<nat> | requested <= t && Closed(levels, out, t) ensures SomeBusy(levels, t, marks) {
      assert HasBusy(levels, out, t, marks);
      var l: nat, i: nat :| l <= out && In(levels, t, l, i) && levels[l][i] in marks;
      assert ExistsBusy(levels, levels[l][i].id, marks);
    }
  }

  lemma ForcedIsBusy(levels: Levels, out: nat, requested: set<nat>, s: set<nat>, id: nat, marks: set<File>)
    requires out < |levels| && AllForced(levels, out, requested, s) && id in s && ExistsBusy(levels, id, marks)
    ensures forall t: set<nat> :: requested <= t && Closed(levels, out, t) ==> SomeBusy(levels, t, marks)
  {
    assert Forced(levels, out, requested, id);
  }

  // ---- what closure does not promise ----

  predicate Overlap(a: File, b: File) {
    a.smallest <= b.largest && b.smallest <= a.largest
  }

  /** A chosen file and an older, unchosen one that overlaps it, no deeper than the output level. */
  ghost predicate LeavesOlder(levels: Levels, out: nat, s: set<nat>, l: nat, i: nat, m: nat, k: nat) {
    && In(levels, s, l, i) && m <= out && m < |levels| && k < |levels[m]| && levels[m][k].id !in s
    && (l < m || (l == 0 && m == 0 && i < k))
    && Overlap(levels[l][i], levels[m][k])
  }

  /** The same within level 0, where newer files come first. */
  ghost predicate LeavesOlderInLevel0(levels: Levels, s: set<nat>, i: nat, k: nat) {
    && levels != [] && i < k < |levels[0]| && levels[0][i].id in s && levels[0][k].id !in s
    && Overlap(levels[0][i], levels[0][k])
  }

  /**
   * A closed set leaves an older file over a newer one, once the newer one has moved to a deeper output level,
   * exactly when an unchosen level-0 file overlaps a chosen newer one: in level 0 closure looks at the order of
   * the files only.
   */
  lemma ClosedLeavesOlderIff(levels: Levels, out: nat, s: set<nat>)
    requires ValidLevels(levels) && out < |levels| && Closed(levels, out, s)
    ensures (exists l: nat, i: nat, m: nat, k: nat :: LeavesOlder(levels, out, s, l, i, m, k)) <==>
            (exists i: nat, k: nat :: LeavesOlderInLevel0(levels, s, i, k))
  {
    if i: nat, k: nat :| LeavesOlderInLevel0(levels, s, i, k) {
      assert LeavesOlder(levels, out, s, 0, i, 0, k);
    }
    forall l: nat, i: nat, m: nat, k: nat | LeavesOlder(levels, out, s, l, i, m, k)
      ensures LeavesOlderInLevel0(levels, s, i, k)
    {
      if m > 0 { assert ClosedAt(levels, s, m) && Begins(levels, s, m, levels[m][k].largest) && Ends(levels, s, m, levels[m][k].smallest); }
    }
  }

  // A level-0 file over an older one with the same range.
  const NEWER := LevelFiles.File(2, 0, 0, 9, 1, 1)
  const OLDER := LevelFiles.File(1, 0, 0, 9, 1, 1)

  const TWO_FILES: Levels := [[NEWER, OLDER], []]

  lemma NewerAloneIsClosed()
    ensures ValidLevels(TWO_FILES) && Closed(TWO_FILES, 1, {2}) && !HasBusy(TWO_FILES, 1, {2}, {})
    ensures LeavesOlderInLevel0(TWO_FILES, {2}, 0, 1)
  {
  }

  /** Asked for the newer file alone, the sanitizer adds nothing: it goes to level 1 and the older one stays above it. */
  method OlderFileCanStayAbove() returns (r: Outcome)
    ensures r == Sanitized({2}) && LeavesOlderInLevel0(TWO_FILES, {2}, 0, 1)
  {
    NewerAloneIsClosed();
    hide Closed, HasBusy, LeavesOlderInLevel0, ValidLevels;
    r := SanitizeCompactionInputFilesForAllLevels(TWO_FILES, {2}, 1, {});
    if r.Sanitized? {
      forall id | id in r.files
        ensures id in {2}
      {
        assert Forced(TWO_FILES, 1, {2}, id);
      }
    }
  }
}
