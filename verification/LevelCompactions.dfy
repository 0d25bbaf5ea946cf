/** What a picked compaction does to the records that readers search, level by level. */
module LevelCompactions {
  import opened Records
  import opened Snapshots
  import opened LevelFiles
  import opened CompactionPlan
  import opened CompactionSteps
  import opened SingleDeleteReads
  import opened CompactionOrder
  import opened CompactionJobs
  import opened CompactionChains
  import opened CompactionPickers
  import Sanitizer = InputSanitizer

  // ---- files and their records in search order ----

  /** Level 0 from its newest file on, then each deeper level. */
  ghost function InSearchOrder(levels: Levels): seq<File> {
    if levels == [] then [] else InSearchOrder(levels[..|levels| - 1]) + levels[|levels| - 1]
  }

  /** The files of the levels below `out`. */
  ghost function Below(levels: Levels, out: nat): seq<File> {
    if |levels| <= out + 1 then [] else Below(levels[..|levels| - 1], out) + levels[|levels| - 1]
  }

  ghost function DownTo(levels: Levels, out: nat): seq<File>
    requires out < |levels|
  {
    InSearchOrder(levels[..out + 1])
  }

  ghost function Stored(files: seq<File>, data: File -> seq<Record>): seq<Record> {
    if files == [] then [] else data(files[0]) + Stored(files[1..], data)
  }

  ghost function Database(levels: Levels, data: File -> seq<Record>): seq<Record> {
    Stored(InSearchOrder(levels), data)
  }

  lemma {:induction false} SearchOrderSplits(levels: Levels, out: nat)
    requires out < |levels|
    ensures InSearchOrder(levels) == DownTo(levels, out) + Below(levels, out)
  {
    var n := |levels| - 1;
    if n == out {
      assert levels[..out + 1] == levels;
    } else {
      SearchOrderSplits(levels[..n], out);
      assert levels[..n][..out + 1] == levels[..out + 1];
    }
  }

  /** The files of the levels, shallower levels first. */
  lemma {:induction false} SearchOrderLevels(levels: Levels)
    requires ValidLevels(levels)
    ensures forall f :: f in InSearchOrder(levels) ==> f.level < |levels| && f in levels[f.level]
    ensures forall i, j :: 0 <= i < j < |InSearchOrder(levels)| ==> InSearchOrder(levels)[i].level <= InSearchOrder(levels)[j].level
  {
    if levels != [] {
      var n := |levels| - 1;
      SearchOrderLevels(levels[..n]);
      assert ValidLevel(levels[n], n);
      var files := InSearchOrder(levels);
      assert forall i :: 0 <= i < |files| ==> files[i] in InSearchOrder(levels[..n]) || files[i] in levels[n];
    }
  }

  lemma {:induction false} BelowLevels(levels: Levels, out: nat)
    requires ValidLevels(levels)
    ensures forall f :: f in Below(levels, out) ==> out < f.level < |levels| && f in levels[f.level]
  {
    if |levels| > out + 1 {
      var n := |levels| - 1;
      BelowLevels(levels[..n], out);
      assert ValidLevel(levels[n], n);
    }
  }

  lemma {:induction false} StoredAppend(a: seq<File>, b: seq<File>, data: File -> seq<Record>)
    ensures Stored(a + b, data) == Stored(a, data) + Stored(b, data)
  {
    if a == [] {
      assert a + b == b;
    } else {
      assert (a + b)[1..] == a[1..] + b;
      StoredAppend(a[1..], b, data);
    }
  }

  lemma {:induction false} StoredFrom(files: seq<File>, data: File -> seq<Record>, r: Record)
    ensures r in Stored(files, data) <==> exists i :: 0 <= i < |files| && r in data(files[i])
  {
    if files != [] {
      StoredFrom(files[1..], data, r);
      assert forall i :: 0 < i < |files| ==> files[i] == files[1..][i - 1];
    }
  }

  // ---- taken files and kept files ----

  ghost function Taken(files: seq<File>, taken: set<File>): seq<File> {
    if files == [] then [] else (if files[0] in taken then [files[0]] else []) + Taken(files[1..], taken)
  }

  ghost function Kept(files: seq<File>, taken: set<File>): seq<File> {
    if files == [] then [] else (if files[0] in taken then [] else [files[0]]) + Kept(files[1..], taken)
  }

  lemma {:induction false} KeptAndTaken(files: seq<File>, taken: set<File>)
    ensures forall f :: f in Kept(files, taken) <==> f in files && f !in taken
    ensures forall f :: f in Taken(files, taken) <==> f in files && f in taken
  {
    if files != [] {
      assert files == [files[0]] + files[1..];
      KeptAndTaken(files[1..], taken);
    }
  }

  /** No taken file comes before a kept one that has the key too. */
  ghost predicate KeptFirst(files: seq<File>, taken: set<File>, data: File -> seq<Record>, key: int) {
    forall i, j :: 0 <= i < j < |files| && files[i] in taken && files[j] !in taken ==>
                     !(HasKey(data(files[i]), key) && HasKey(data(files[j]), key))
  }

  /** Then the key's versions are those of the kept files followed by those of the taken ones. */
  lemma {:induction false} VersionsSeparate(files: seq<File>, taken: set<File>, data: File -> seq<Record>, key: int)
    requires KeptFirst(files, taken, data, key)
    ensures Versions(Stored(files, data), key) ==
            Versions(Stored(Kept(files, taken), data), key) + Versions(Stored(Taken(files, taken), data), key)
  {
    if files != [] {
      var rest := files[1..];
      assert forall i :: 0 <= i < |rest| ==> rest[i] == files[i + 1];
      VersionsSeparate(rest, taken, data, key);
      FirstFile(files, data, key);
      if files[0] in taken {
        TakenBeforeKept(files, taken, data, key);
        FirstFile([files[0]] + Taken(rest, taken), data, key);
      } else {
        FirstFile([files[0]] + Kept(rest, taken), data, key);
      }
      hide Versions, Stored, KeptFirst;
      Regrouped(Versions(data(files[0]), key), Versions(Stored(Kept(rest, taken), data), key),
                Versions(Stored(Taken(rest, taken), data), key));
      FirstIsTakenOrKept(files, taken);
    }
  }

  lemma FirstIsTakenOrKept(files: seq<File>, taken: set<File>)
    requires files != []
    ensures files[0] in taken ==>
              Taken(files, taken) == [files[0]] + Taken(files[1..], taken) && Kept(files, taken) == Kept(files[1..], taken)
    ensures files[0] !in taken ==>
              Kept(files, taken) == [files[0]] + Kept(files[1..], taken) && Taken(files, taken) == Taken(files[1..], taken)
  {
  }

  lemma FirstFile(files: seq<File>, data: File -> seq<Record>, key: int)
    requires files != []
    ensures Versions(Stored(files, data), key) == Versions(data(files[0]), key) + Versions(Stored(files[1..], data), key)
    ensures ([files[0]] + files[1..])[1..] == files[1..]
  {
    VersionsAppend(data(files[0]), Stored(files[1..], data), key);
  }

  lemma Regrouped(own: seq<Record>, kept: seq<Record>, gone: seq<Record>)
    ensures own + (kept + gone) == own + kept + gone
    ensures own == [] || kept == [] ==> own + (kept + gone) == kept + (own + gone)
  {
  }

  lemma KeptIsBehind(files: seq<File>, taken: set<File>, f: File)
    requires files != [] && f in files[1..]
    ensures exists j :: 0 < j < |files| && files[j] == f
  {
    var j :| 0 <= j < |files[1..]| && files[1..][j] == f;
    assert files[j + 1] == f;
  }

  lemma TakenBeforeKept(files: seq<File>, taken: set<File>, data: File -> seq<Record>, key: int)
    requires KeptFirst(files, taken, data, key) && files != [] && files[0] in taken
    ensures Versions(data(files[0]), key) == [] || Versions(Stored(Kept(files[1..], taken), data), key) == []
  {
    var rest := files[1..];
    var kept := Stored(Kept(rest, taken), data);
    if !HasKey(data(files[0]), key) {
      NoVersions(data(files[0]), key);
    } else {
      if HasKey(kept, key) {
        var n :| 0 <= n < |kept| && kept[n].key == key;
        StoredFrom(Kept(rest, taken), data, kept[n]);
        var i :| 0 <= i < |Kept(rest, taken)| && kept[n] in data(Kept(rest, taken)[i]);
        KeptAndTaken(rest, taken);
        assert Kept(rest, taken)[i] in Kept(rest, taken);
        assert HasKey(data(Kept(rest, taken)[i]), key);
        KeptIsBehind(files, taken, Kept(rest, taken)[i]);
        assert false;
      }
      NoVersions(kept, key);
    }
  }

  // ---- merging ----

  ghost predicate Descending(versions: seq<Record>) {
    forall i, j :: 0 <= i < j < |versions| ==> versions[i].sequence > versions[j].sequence
  }

  /** Readers find a key's newer versions first. */
  ghost predicate InAgeOrder(db: seq<Record>) {
    forall key :: Descending(Versions(db, key))
  }

  lemma {:induction false} VersionsMembers(s: seq<Record>, key: int, r: Record)
    ensures r in Versions(s, key) <==> r in s && r.key == key
  {
    if s != [] {
      VersionsMembers(s[1..], key, r);
      assert s == [s[0]] + s[1..];
    }
  }

  lemma {:induction false} VersionsOfSorted(s: seq<Record>, key: int)
    requires StrictlySorted(s)
    ensures Descending(Versions(s, key))
    ensures forall r :: r in Versions(s, key) ==> r in s && r.key == key
  {
    if s != [] {
      var rest := s[1..];
      assert forall i :: 0 <= i < |rest| ==> rest[i] == s[i + 1];
      forall i, j | 0 <= i < j < |rest|
        ensures StrictlyInOrder(rest[i], rest[j])
      {
        assert StrictlyInOrder(s[i + 1], s[j + 1]);
      }
      VersionsOfSorted(rest, key);
      if s[0].key == key {
        var tail := Versions(rest, key);
        forall j | 0 <= j < |tail|
          ensures s[0].sequence > tail[j].sequence
        {
          assert tail[j] in rest;
          var k :| 0 <= k < |rest| && rest[k] == tail[j];
          assert StrictlyInOrder(s[0], s[k + 1]);
        }
      }
    }
  }

  ghost predicate SameMembers(a: seq<Record>, b: seq<Record>) {
    forall r :: r in a <==> r in b
  }

  lemma SameHead(a: seq<Record>, b: seq<Record>)
    requires Descending(a) && Descending(b) && SameMembers(a, b) && a != []
    ensures b != [] && a[0] == b[0]
  {
    assert a[0] in a && a[0] in b;
    assert b[0] in b && b[0] in a;
    var i :| 0 <= i < |a| && a[i] == b[0];
    var j :| 0 <= j < |b| && b[j] == a[0];
  }

  lemma DescendingTail(a: seq<Record>)
    requires Descending(a) && a != []
    ensures Descending(a[1..]) && forall r :: r in a[1..] <==> r in a && r != a[0]
  {
    assert a == [a[0]] + a[1..];
  }

  /** Two descending lists of the same versions are equal. */
  lemma {:induction false} DescendingIsUnique(a: seq<Record>, b: seq<Record>)
    requires Descending(a) && Descending(b) && SameMembers(a, b)
    ensures a == b
  {
    if a != [] {
      SameHead(a, b);
      DescendingTail(a);
      DescendingTail(b);
      hide Descending;
      DescendingIsUnique(a[1..], b[1..]);
      assert a == [a[0]] + a[1..] && b == [b[0]] + b[1..];
    } else if b != [] {
      SameHead(b, a);
    }
  }

  /** The merged input of a compaction: the records of the taken files, sorted. */
  ghost predicate Merges(input: seq<Record>, files: seq<File>, data: File -> seq<Record>) {
    StrictlySorted(input) && multiset(input) == multiset(Stored(files, data))
  }

  lemma MergedVersions(input: seq<Record>, files: seq<File>, data: File -> seq<Record>, key: int)
    requires Merges(input, files, data) && Descending(Versions(Stored(files, data), key))
    ensures Versions(input, key) == Versions(Stored(files, data), key)
  {
    var a, b := Versions(input, key), Versions(Stored(files, data), key);
    VersionsOfSorted(input, key);
    forall r
      ensures r in a <==> r in b
    {
      VersionsMembers(input, key, r);
      VersionsMembers(Stored(files, data), key, r);
      assert r in input <==> r in multiset(input);
      assert r in Stored(files, data) <==> r in multiset(Stored(files, data));
    }
    DescendingIsUnique(a, b);
  }

  // ---- what selects the files ----

  /** Every record lies within the key range of its file. */
  ghost predicate DataInside(levels: Levels, data: File -> seq<Record>) {
    forall l, f, r :: 0 <= l < |levels| && f in levels[l] && r in data(f) ==> Covers(f, r.key)
  }

  /** No taken file comes, down to the output level, before a kept one that overlaps it. */
  ghost predicate KeepsOrder(levels: Levels, out: nat, taken: set<File>)
    requires out < |levels|
  {
    var files := DownTo(levels, out);
    forall i, j :: 0 <= i < j < |files| && files[i] in taken && files[j] !in taken ==>
                     !Meets(files[j], Range(files[i].smallest, files[i].largest))
  }

  /** A sound compaction to a level other than 0 keeps the order. */
  lemma SoundKeepsOrder(p: CompactionPicker, c: Compaction, others: set<Compaction>)
    requires p.Valid() && p.Sound(c, others) && c.outputLevel > 0
    ensures KeepsOrder(p.levels, c.outputLevel, FilesOf(c.inputs))
  {
    var files := DownTo(p.levels, c.outputLevel);
    forall i, j | 0 <= i < j < |files| && files[i] in FilesOf(c.inputs) && files[j] !in FilesOf(c.inputs)
      ensures !Meets(files[j], Range(files[i].smallest, files[i].largest))
    {
      OneKeepsOrder(p, c, others, i, j);
    }
  }

  lemma OneKeepsOrder(p: CompactionPicker, c: Compaction, others: set<Compaction>, i: nat, j: nat)
    requires p.Valid() && p.Sound(c, others) && c.outputLevel > 0
    requires i < j < |DownTo(p.levels, c.outputLevel)|
    requires DownTo(p.levels, c.outputLevel)[i] in FilesOf(c.inputs) && DownTo(p.levels, c.outputLevel)[j] !in FilesOf(c.inputs)
    ensures !Meets(DownTo(p.levels, c.outputLevel)[j],
                   Range(DownTo(p.levels, c.outputLevel)[i].smallest, DownTo(p.levels, c.outputLevel)[i].largest))
  {
    var files := DownTo(p.levels, c.outputLevel);
    var taken, kept := files[i], files[j];
    SearchOrderLevels(p.levels[..c.outputLevel + 1]);
    assert taken in files && kept in files;
    assert ValidLevel(p.levels[taken.level], taken.level) && ValidLevel(p.levels[kept.level], kept.level);
    var key := if taken.smallest < kept.smallest then kept.smallest else taken.smallest;
    if Meets(kept, Range(taken.smallest, taken.largest)) {
      hide Compatible, InSearchOrder, CleanCut, ClosedOver;
      p.KeptVersionsKeepTheirPlace(c, others, taken, kept, kept.level, key);
      TakenFromStart(p, c, others, taken);
    }
  }

  /** A taken file lies at or below the start level, and in it only if it is among the first inputs. */
  lemma TakenFromStart(p: CompactionPicker, c: Compaction, others: set<Compaction>, f: File)
    requires p.Valid() && p.Sound(c, others) && f in FilesOf(c.inputs)
    ensures f.level >= c.StartLevel() && (f.level == c.StartLevel() ==> f in c.inputs[0].files)
  {
    FileHasLevel(c.inputs, f);
    var k :| 0 <= k < |c.inputs| && f in c.inputs[k].files;
    assert ValidLevel(c.inputs[k].files, c.inputs[k].level);
    assert k > 0 ==> c.inputs[0].level < c.inputs[k].level;
  }

  // ---- the compaction as an event of the database ----

  ghost function NewerData(levels: Levels, out: nat, taken: set<File>, data: File -> seq<Record>): seq<Record>
    requires out < |levels|
  {
    Stored(Kept(DownTo(levels, out), taken), data)
  }

  ghost function DeeperData(levels: Levels, out: nat, data: File -> seq<Record>): seq<Record> {
    Stored(Below(levels, out), data)
  }

  /** What the taken files are, and what is computed from them. */
  ghost predicate FedBy(s: Setting, levels: Levels, out: nat, inputs: seq<InputFiles>, data: File -> seq<Record>, input: seq<Record>)
    requires out < |levels|
  {
    && JobSetting(s) && EveryVersionCounts(s, input) && s.plan.Some? && BuiltFor(s.plan.value, inputs)
    && s.plan.value.levels == levels && s.plan.value.outputLevel == out
    && Sequenced(input) && Merges(input, Taken(DownTo(levels, out), FilesOf(inputs)), data)
  }

  lemma KeptComeFirst(levels: Levels, out: nat, taken: set<File>, data: File -> seq<Record>, key: int)
    requires ValidLevels(levels) && out < |levels| && DataInside(levels, data) && KeepsOrder(levels, out, taken)
    ensures KeptFirst(DownTo(levels, out), taken, data, key)
  {
    var files := DownTo(levels, out);
    SearchOrderLevels(levels[..out + 1]);
    forall i, j | 0 <= i < j < |files| && files[i] in taken && files[j] !in taken
      ensures !(HasKey(data(files[i]), key) && HasKey(data(files[j]), key))
    {
      assert files[i] in levels[files[i].level] && files[j] in levels[files[j].level];
    }
  }

  /** The database, key by key: kept files, then the merged taken ones, then everything below the output level. */
  lemma DatabaseSplits(levels: Levels, out: nat, taken: set<File>, data: File -> seq<Record>, input: seq<Record>, key: int)
    requires ValidLevels(levels) && out < |levels| && DataInside(levels, data) && KeepsOrder(levels, out, taken)
    requires InAgeOrder(Database(levels, data)) && Merges(input, Taken(DownTo(levels, out), taken), data)
    ensures Versions(Database(levels, data), key) ==
            Versions(NewerData(levels, out, taken, data) + input + DeeperData(levels, out, data), key)
  {
    var files := DownTo(levels, out);
    var newer, deeper := NewerData(levels, out, taken, data), DeeperData(levels, out, data);
    var gone := Stored(Taken(files, taken), data);
    KeptComeFirst(levels, out, taken, data, key);
    VersionsSeparate(files, taken, data, key);
    SearchOrderSplits(levels, out);
    StoredAppend(files, Below(levels, out), data);
    VersionsAppend(Stored(files, data), deeper, key);
    var all := Versions(Database(levels, data), key);
    assert all == Versions(newer, key) + Versions(gone, key) + Versions(deeper, key);
    assert Descending(all);
    MiddleDescends(Versions(newer, key), Versions(gone, key), Versions(deeper, key));
    MergedVersions(input, Taken(files, taken), data, key);
    VersionsAppend(newer + input, deeper, key);
    VersionsAppend(newer, input, key);
  }

  lemma MiddleDescends(a: seq<Record>, b: seq<Record>, c: seq<Record>)
    requires Descending(a + b + c)
    ensures Descending(b)
  {
    var all := a + b + c;
    assert forall i :: 0 <= i < |b| ==> b[i] == all[|a| + i];
  }

  lemma RecordsLieInInputs(levels: Levels, out: nat, inputs: seq<InputFiles>, data: File -> seq<Record>, input: seq<Record>)
    requires ValidLevels(levels) && out < |levels| && DataInside(levels, data)
    requires Merges(input, Taken(DownTo(levels, out), FilesOf(inputs)), data)
    ensures StoredIn(FilesOf(inputs), input)
  {
    var files := Taken(DownTo(levels, out), FilesOf(inputs));
    KeptAndTaken(DownTo(levels, out), FilesOf(inputs));
    SearchOrderLevels(levels[..out + 1]);
    forall i | 0 <= i < |input|
      ensures exists f :: f in FilesOf(inputs) && Covers(f, input[i].key)
    {
      assert input[i] in multiset(input);
      StoredFrom(files, data, input[i]);
      var k :| 0 <= k < |files| && input[i] in data(files[k]);
      assert files[k] in files && files[k] in levels[files[k].level];
    }
  }

  lemma DeeperLiesBelow(p: Plan, data: File -> seq<Record>)
    requires ValidLevels(p.levels) && DataInside(p.levels, data)
    ensures StoredBelow(p, DeeperData(p.levels, p.outputLevel, data))
  {
    var files := Below(p.levels, p.outputLevel);
    BelowLevels(p.levels, p.outputLevel);
    forall r | r in Stored(files, data)
      ensures !NoDeeperFile(p.levels, p.outputLevel, r.key)
    {
      StoredFrom(files, data, r);
      var k :| 0 <= k < |files| && r in data(files[k]);
      var l := files[k].level;
      assert files[k] in files && files[k] in p.levels[l];
      var f :| 0 <= f < |p.levels[l]| && p.levels[l][f] == files[k];
      assert Covers(p.levels[l][f], r.key);
    }
  }

  /** A compaction that keeps the order is an event that may happen to the database. */
  lemma OrderedCompactionIsPossible(s: Setting, levels: Levels, out: nat, inputs: seq<InputFiles>, data: File -> seq<Record>, input: seq<Record>)
    requires ValidLevels(levels) && out < |levels| && DataInside(levels, data) && InAgeOrder(Database(levels, data))
    requires KeepsOrder(levels, out, FilesOf(inputs)) && FedBy(s, levels, out, inputs, data, input)
    ensures Possible(Database(levels, data),
                     Compact(s, NewerData(levels, out, FilesOf(inputs), data), input, DeeperData(levels, out, data)))
  {
    var newer, deeper := NewerData(levels, out, FilesOf(inputs), data), DeeperData(levels, out, data);
    StrictIsSorted(input);
    RecordsLieInInputs(levels, out, inputs, data, input);
    DeeperLiesBelow(s.plan.value, data);
    assert PlannedJob(s, inputs, input);
    FlagIsHonest(s, inputs, input);
    forall key | HasKey(input, key)
      ensures LevelTestHonest(s, deeper, key)
    {
      LevelTestIsHonest(s, inputs, input, deeper, key);
    }
    forall key
      ensures Versions(Database(levels, data), key) == Versions(newer + input + deeper, key)
    {
      DatabaseSplits(levels, out, FilesOf(inputs), data, input, key);
    }
  }

  /** So no live read of any well-used key of the whole database changes. */
  lemma OrderedCompactionPreservesReads(s: Setting, levels: Levels, out: nat, inputs: seq<InputFiles>, data: File -> seq<Record>,
                                        input: seq<Record>, key: int, at: nat)
    requires ValidLevels(levels) && out < |levels| && DataInside(levels, data) && InAgeOrder(Database(levels, data))
    requires KeepsOrder(levels, out, FilesOf(inputs)) && FedBy(s, levels, out, inputs, data, input)
    requires Live(s.snapshots, at) && WellUsed(Database(levels, data), key)
    ensures var e := Compact(s, NewerData(levels, out, FilesOf(inputs), data), input, DeeperData(levels, out, data));
            && WellUsed(After(Database(levels, data), e), key)
            && Read(After(Database(levels, data), e), key, at) == Read(Database(levels, data), key, at)
  {
    hide KeepsOrder, InAgeOrder, DataInside, FedBy, Possible, WellUsed, After, Read, Database, NewerData, DeeperData;
    OrderedCompactionIsPossible(s, levels, out, inputs, data, input);
    EventKeepsKey(Database(levels, data),
                  Compact(s, NewerData(levels, out, FilesOf(inputs), data), input, DeeperData(levels, out, data)), key, at);
  }

  /**
   * A started compaction to a level other than 0, over files whose records are in age order, changes no live read of
   * any well-used key of the whole database.
   */
  lemma StartedCompactionPreservesReads(p: CompactionPicker, c: Compaction, others: set<Compaction>, s: Setting,
                                        data: File -> seq<Record>, input: seq<Record>, key: int, at: nat)
    requires p.Valid() && p.Sound(c, others) && c.outputLevel > 0
    requires DataInside(p.levels, data) && InAgeOrder(Database(p.levels, data))
    requires FedBy(s, p.levels, c.outputLevel, c.inputs, data, input)
    requires Live(s.snapshots, at) && WellUsed(Database(p.levels, data), key)
    ensures var e := Compact(s, NewerData(p.levels, c.outputLevel, FilesOf(c.inputs), data), input,
                             DeeperData(p.levels, c.outputLevel, data));
            && Possible(Database(p.levels, data), e) && WellUsed(After(Database(p.levels, data), e), key)
            && Read(After(Database(p.levels, data), e), key, at) == Read(Database(p.levels, data), key, at)
  {
    SoundKeepsOrder(p, c, others);
    hide KeepsOrder, InAgeOrder, DataInside, FedBy, Possible, WellUsed, After, Read, Database, NewerData, DeeperData,
         CompactionPicker.Sound, Compatible;
    OrderedCompactionIsPossible(s, p.levels, c.outputLevel, c.inputs, data, input);
    OrderedCompactionPreservesReads(s, p.levels, c.outputLevel, c.inputs, data, input, key, at);
  }

  // ---- manually chosen files ----

  /** The files that the numbers stand for. */
  ghost predicate Numbered(levels: Levels, ids: set<nat>, taken: set<File>) {
    forall l, f :: 0 <= l < |levels| && f in levels[l] ==> (f in taken <==> f.id in ids)
  }

  /** Level 0 comes first in the search order. */
  lemma {:induction false} Level0First(levels: Levels)
    requires levels != []
    ensures levels[0] <= InSearchOrder(levels)
  {
    if |levels| > 1 {
      Level0First(levels[..|levels| - 1]);
    } else {
      assert InSearchOrder(levels) == levels[0];
    }
  }

  /**
   * Files completed by the sanitizer keep the order exactly when no chosen level-0 file overlaps an older level-0
   * file that is left out.
   */
  lemma ClosedKeepsOrderIff(levels: Levels, out: nat, ids: set<nat>, taken: set<File>)
    requires ValidLevels(levels) && Sanitizer.ValidLevels(levels) && out < |levels|
    requires Sanitizer.Closed(levels, out, ids) && Numbered(levels, ids, taken)
    ensures KeepsOrder(levels, out, taken) <==> !exists i: nat, k: nat :: Sanitizer.LeavesOlderInLevel0(levels, ids, i, k)
  {
    var files := DownTo(levels, out);
    Level0First(levels[..out + 1]);
    if i: nat, k: nat :| Sanitizer.LeavesOlderInLevel0(levels, ids, i, k) {
      assert files[i] == levels[0][i] && files[k] == levels[0][k];
      assert files[i] in levels[0] && files[k] in levels[0];
    } else {
      forall i, j | 0 <= i < j < |files| && files[i] in taken && files[j] !in taken
        ensures !Meets(files[j], Range(files[i].smallest, files[i].largest))
      {
        ClosedPairIsApart(levels, out, ids, taken, i, j);
      }
    }
  }

  lemma ClosedPairIsApart(levels: Levels, out: nat, ids: set<nat>, taken: set<File>, i: nat, j: nat)
    requires ValidLevels(levels) && Sanitizer.ValidLevels(levels) && out < |levels|
    requires Sanitizer.Closed(levels, out, ids) && Numbered(levels, ids, taken)
    requires !exists i: nat, k: nat :: Sanitizer.LeavesOlderInLevel0(levels, ids, i, k)
    requires i < j < |DownTo(levels, out)| && DownTo(levels, out)[i] in taken && DownTo(levels, out)[j] !in taken
    ensures !Meets(DownTo(levels, out)[j], Range(DownTo(levels, out)[i].smallest, DownTo(levels, out)[i].largest))
  {
    var files := DownTo(levels, out);
    var f, g := files[i], files[j];
    SearchOrderLevels(levels[..out + 1]);
    assert f in files && g in files;
    var a :| 0 <= a < |levels[f.level]| && levels[f.level][a] == f;
    var b :| 0 <= b < |levels[g.level]| && levels[g.level][b] == g;
    assert f.id in ids && g.id !in ids;
    if Meets(g, Range(f.smallest, f.largest)) {
      if g.level > 0 {
        DeeperIsChosen(levels, out, ids, f.level, a, g.level, b);
      } else {
        SameOrderInLevel0(levels, out, i, j);
        assert Sanitizer.LeavesOlderInLevel0(levels, ids, i, j);
      }
      assert false;
    }
  }

  /** A file of a deeper level that overlaps a chosen one at or above it is chosen. */
  lemma DeeperIsChosen(levels: Levels, out: nat, ids: set<nat>, l: nat, a: nat, m: nat, b: nat)
    requires out < |levels| && Sanitizer.Closed(levels, out, ids) && l <= m <= out && 0 < m
    requires Sanitizer.In(levels, ids, l, a) && b < |levels[m]|
    requires Meets(levels[m][b], Range(levels[l][a].smallest, levels[l][a].largest))
    ensures levels[m][b].id in ids
  {
    assert Sanitizer.ClosedAt(levels, ids, m);
    assert Sanitizer.Begins(levels, ids, m, levels[m][b].largest) && Sanitizer.Ends(levels, ids, m, levels[m][b].smallest);
  }

  /** Places in the search order that hold level-0 files are their places in level 0. */
  lemma SameOrderInLevel0(levels: Levels, out: nat, i: nat, j: nat)
    requires ValidLevels(levels) && out < |levels| && i < j < |DownTo(levels, out)| && DownTo(levels, out)[j].level == 0
    ensures j < |levels[0]| && levels[0][i] == DownTo(levels, out)[i] && levels[0][j] == DownTo(levels, out)[j]
  {
    Level0First(levels[..out + 1]);
    Level0IsPrefix(levels[..out + 1]);
  }

  lemma {:induction false} Level0IsPrefix(levels: Levels)
    requires ValidLevels(levels) && levels != []
    ensures forall j :: |levels[0]| <= j < |InSearchOrder(levels)| ==> InSearchOrder(levels)[j].level > 0
  {
    var n := |levels| - 1;
    if n > 0 {
      Level0IsPrefix(levels[..n]);
      Level0First(levels[..n]);
      assert ValidLevel(levels[n], n);
      assert forall f :: f in levels[n] ==> f.level == n;
    } else {
      assert InSearchOrder(levels) == levels[0];
    }
  }

  /** A compaction of completed files that leaves no such older file behind changes no live read either. */
  lemma CompletedFilesPreserveReads(s: Setting, levels: Levels, out: nat, ids: set<nat>, inputs: seq<InputFiles>,
                                    data: File -> seq<Record>, input: seq<Record>, key: int, at: nat)
    requires ValidLevels(levels) && Sanitizer.ValidLevels(levels) && out < |levels|
    requires Sanitizer.Closed(levels, out, ids) && Numbered(levels, ids, FilesOf(inputs))
    requires !exists i: nat, k: nat :: Sanitizer.LeavesOlderInLevel0(levels, ids, i, k)
    requires DataInside(levels, data) && InAgeOrder(Database(levels, data)) && FedBy(s, levels, out, inputs, data, input)
    requires Live(s.snapshots, at) && WellUsed(Database(levels, data), key)
    ensures var e := Compact(s, NewerData(levels, out, FilesOf(inputs), data), input, DeeperData(levels, out, data));
            && WellUsed(After(Database(levels, data), e), key)
            && Read(After(Database(levels, data), e), key, at) == Read(Database(levels, data), key, at)
  {
    ClosedKeepsOrderIff(levels, out, ids, FilesOf(inputs));
    hide KeepsOrder, InAgeOrder, DataInside, FedBy, WellUsed, After, Read, Database, NewerData, DeeperData;
    OrderedCompactionPreservesReads(s, levels, out, inputs, data, input, key, at);
  }
}
