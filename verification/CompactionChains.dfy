/** Any number of compactions and writes: what a snapshot sees never changes while it is live. */
module CompactionChains {
  import opened Wrappers
  import opened Records
  import opened Snapshots
  import opened CompactionPlan
  import opened CompactionSteps
  import opened CompactionReads
  import opened SingleDeleteReads
  import opened CompactionOrder
  import opened CompactionTheorems

  // ---- one compaction keeps the usage contracts ----

  /** A Put met next under the carried key lies in a younger or older stripe than what was met last, unless it is to be kept. */
  ghost predicate PutsApart(s: Setting, c: Carry, rest: seq<Record>, key: int) {
    c.hasKey && c.key == key && rest != [] && rest[0].key == key && rest[0].kind.Value? && !c.clearNext ==>
      Stripe(s.snapshots, rest[0].sequence) != c.snapshot
  }

  ghost predicate ChainState(s: Setting, c: Carry, rest: seq<Record>, deeper: seq<Record>, key: int) {
    && JobState(s, c, rest) && SingleDeleteHistory(rest + deeper, key)
    && LevelTestHonest(s, deeper, key) && PutsApart(s, c, rest, key)
  }

  lemma ChainStateNext(s: Setting, c: Carry, rest: seq<Record>, first: bool, deeper: seq<Record>, key: int)
    requires ChainState(s, c, rest, deeper, key) && rest != []
    ensures var t := Visit(s, c, rest);
            ChainState(s, if t.out.None? then t.carry else AfterOutput(t.carry, first), rest[t.used..], deeper, key)
  {
    var t := Visit(s, c, rest);
    JobStateNext(s, c, rest, first);
    VisitKeepsCoherence(s, c, rest);
    HistoryTail(rest, deeper, t.used, key);
    if rest[0].key == key {
      HistoryPair(rest, deeper, key);
      if |rest| > 1 && rest[1].key == key {
        SameStripeTest(s.snapshots, rest[0].sequence, rest[1].sequence);
        if t.used == 2 {
          HistoryTail(rest, deeper, 1, key);
          HistoryPair(rest[1..], deeper, key);
        }
      }
    }
  }

  /** Seen from newer data, `after` may stand for `before`: nothing newer, and no Put where a SingleDelete was expected. */
  ghost predicate MayReplace(before: seq<Record>, after: seq<Record>, key: int) {
    Newest(after, key).Some? ==>
      && Newest(before, key).Some? && Newest(after, key).value.sequence <= Newest(before, key).value.sequence
      && (Newest(before, key).value.kind.SingleDeletion? ==> Newest(after, key).value.kind.SingleDeletion?)
  }

  /** One turn of the run, over deeper data. */
  lemma RunTurnOver(s: Setting, c: Carry, rest: seq<Record>, first: bool, deeper: seq<Record>)
    requires ValidSetting(s) && Coherent(s, c, rest) && rest != []
    ensures var t := Visit(s, c, rest);
            Run(s, c, rest, first) + deeper ==
            if t.out.None? then Run(s, t.carry, rest[t.used..], first) + deeper
            else [Prepare(s, t.out.value)] + (Run(s, AfterOutput(t.carry, first), rest[t.used..], false) + deeper)
  {
    var t, after, next, firstNext := RunTurn(s, c, rest, first);
    var tail := Run(s, after, next, firstNext);
    assert t.out.Some? ==> [Prepare(s, t.out.value)] + tail + deeper == [Prepare(s, t.out.value)] + (tail + deeper);
    assert [] + tail == tail;
  }

  /** Compaction output over deeper data again satisfies the SingleDelete contract. */
  lemma {:induction false} HistoryIsKept(s: Setting, c: Carry, rest: seq<Record>, first: bool, deeper: seq<Record>, key: int)
    requires ChainState(s, c, rest, deeper, key)
    ensures SingleDeleteHistory(Run(s, c, rest, first) + deeper, key)
    ensures MayReplace(rest + deeper, Run(s, c, rest, first) + deeper, key)
    decreases |rest|
  {
    if rest == [] {
      assert Run(s, c, rest, first) == [];
    } else {
      RunTurnOver(s, c, rest, first, deeper);
      ChainStateNext(s, c, rest, first, deeper, key);
      hide ChainState, Visit, Run, SingleDeleteHistory, MayReplace;
      var t := Visit(s, c, rest);
      var after := if t.out.None? then t.carry else AfterOutput(t.carry, first);
      var firstNext := first && t.out.None?;
      HistoryIsKept(s, after, rest[t.used..], firstNext, deeper, key);
      if t.out.None? {
        DroppedTurn(s, c, rest, deeper, key, Run(s, after, rest[t.used..], firstNext) + deeper);
      } else {
        KeptTurn(s, c, rest, first, deeper, key, Run(s, after, rest[t.used..], firstNext) + deeper);
      }
    }
  }

  /** A turn that puts out nothing hides at most a SingleDelete, alone or with its Put. */
  lemma DroppedTurn(s: Setting, c: Carry, rest: seq<Record>, deeper: seq<Record>, key: int, tail: seq<Record>)
    requires ChainState(s, c, rest, deeper, key) && rest != [] && Visit(s, c, rest).out.None?
    requires MayReplace(rest[Visit(s, c, rest).used..] + deeper, tail, key)
    ensures MayReplace(rest + deeper, tail, key)
  {
    var t := Visit(s, c, rest);
    VisitKeepsCoherence(s, c, rest);
    NewestBehind(rest, deeper, t.used, key);
    if rest[0].key == key {
      HistoryPair(rest, deeper, key);
      DropKeepsKind(s, c, rest, deeper, key);
    }
  }

  lemma NewestBehind(rest: seq<Record>, deeper: seq<Record>, n: nat, key: int)
    requires 1 <= n <= 2 && n <= |rest|
    ensures Newest(rest + deeper, key) ==
            if rest[0].key == key then Some(rest[0])
            else if n == 2 && rest[1].key == key then Some(rest[1]) else Newest(rest[n..] + deeper, key)
  {
    assert (rest + deeper)[0] == rest[0] && (rest + deeper)[1..] == rest[1..] + deeper;
    if n == 2 { assert (rest[1..] + deeper)[0] == rest[1] && (rest[1..] + deeper)[1..] == rest[2..] + deeper; }
  }

  /** What lies under a dropped version of the key is older, and a SingleDelete again where that was one. */
  lemma DropKeepsKind(s: Setting, c: Carry, rest: seq<Record>, deeper: seq<Record>, key: int)
    requires ChainState(s, c, rest, deeper, key) && rest != [] && rest[0].key == key && Visit(s, c, rest).out.None?
    ensures var below := Newest(rest[Visit(s, c, rest).used..] + deeper, key);
            below.Some? ==> below.value.sequence <= rest[0].sequence && below.value.kind.SingleDeletion?
    ensures rest[0].kind.SingleDeletion?
  {
    var t := Visit(s, c, rest);
    HistoryPair(rest, deeper, key);
    assert (rest + deeper)[0] == rest[0] && (rest + deeper)[1..] == rest[1..] + deeper;
    StripeIsLeast(s.snapshots, rest[0].sequence);
    assert rest[0].kind.SingleDeletion?;
    if t.used == 2 {
      HistoryTail(rest, deeper, 1, key);
      assert (rest[1..] + deeper)[0] == rest[1] && (rest[1..] + deeper)[1..] == rest[2..] + deeper;
    } else if |rest| > 1 && rest[1].key == key {
      assert (rest[1..] + deeper)[0] == rest[1];
    } else {
      NothingUnder(s, rest, deeper, key);
    }
  }

  lemma NothingUnder(s: Setting, rest: seq<Record>, deeper: seq<Record>, key: int)
    requires Sorted(rest) && rest != [] && rest[0].key == key && (|rest| > 1 ==> rest[1].key != key)
    requires LevelTestHonest(s, deeper, key) && s.plan.Some? && NotBeyond(s.plan.value, key)
    ensures Newest(rest[1..] + deeper, key).None?
  {
    if |rest| > 1 { SortedPair(rest, 0, 1); }
    KeyPassed(rest[1..], key);
    NewestAppend(rest[1..], deeper, key);
    NewestMember(rest[1..], key);
    NewestMember(deeper, key);
  }

  /** A version that is put out stands in the history where it stood, also when its sequence number is squashed. */
  lemma KeptTurn(s: Setting, c: Carry, rest: seq<Record>, first: bool, deeper: seq<Record>, key: int, tail: seq<Record>)
    requires ChainState(s, c, rest, deeper, key) && rest != [] && Visit(s, c, rest).out.Some?
    requires var t := Visit(s, c, rest);
             && tail == Run(s, AfterOutput(t.carry, first), rest[t.used..], false) + deeper
             && SingleDeleteHistory(tail, key) && MayReplace(rest[t.used..] + deeper, tail, key)
    ensures SingleDeleteHistory([Prepare(s, Visit(s, c, rest).out.value)] + tail, key)
    ensures MayReplace(rest + deeper, [Prepare(s, Visit(s, c, rest).out.value)] + tail, key)
  {
    var t := Visit(s, c, rest);
    var head := Prepare(s, t.out.value);
    VisitKeepsCoherence(s, c, rest);
    assert Zeroable(s, t.out.value) && rest[0].key == key ==> Newest(tail, key).None? by {
      if Zeroable(s, t.out.value) && rest[0].key == key { NothingUnderSquashed(s, c, rest, first, deeper, key); }
    }
    hide Run, Visit, JobState, PutsApart, LevelTestHonest, Zeroable;
    NewestBehind(rest, deeper, t.used, key);
    assert ([head] + tail)[0] == head && ([head] + tail)[1..] == tail;
    if rest[0].key == key {
      HistoryPair(rest, deeper, key);
      assert t.used == 1;
      HistoryHead(rest, deeper, key);
    }
  }

  /** What the contract says about the head of a history and the version under it. */
  lemma HistoryHead(rest: seq<Record>, deeper: seq<Record>, key: int)
    requires SingleDeleteHistory(rest + deeper, key) && rest != [] && rest[0].key == key
    ensures var below := Newest(rest[1..] + deeper, key);
            below.Some? ==> below.value.sequence <= rest[0].sequence && (rest[0].kind.Value? ==> below.value.kind.SingleDeletion?)
  {
    assert (rest + deeper)[0] == rest[0] && (rest + deeper)[1..] == rest[1..] + deeper;
  }

  /** Nothing of the key is left under a version whose sequence number is squashed. */
  lemma NothingUnderSquashed(s: Setting, c: Carry, rest: seq<Record>, first: bool, deeper: seq<Record>, key: int)
    requires ChainState(s, c, rest, deeper, key) && rest != [] && rest[0].key == key
    requires Visit(s, c, rest).out.Some? && Zeroable(s, Visit(s, c, rest).out.value)
    ensures var t := Visit(s, c, rest);
            Newest(Run(s, AfterOutput(t.carry, first), rest[t.used..], false) + deeper, key).None?
  {
    var t := Visit(s, c, rest);
    var run := Run(s, AfterOutput(t.carry, first), rest[t.used..], false);
    VisitKeepsCoherence(s, c, rest);
    TombstonesAreNeverZeroed(s, c, rest);
    JobStateNext(s, c, rest, first);
    EarliestStripe(s.snapshots, rest[0].sequence);
    NothingAfterOldestStripe(s, AfterOutput(t.carry, first), rest[t.used..], false);
    assert NotBeyond(s.plan.value, rest[0].key);
    NewestMember(run, key);
    NewestMember(deeper, key);
    NewestAppend(run, deeper, key);
  }

  lemma {:induction false} NoSingleDeletesKept(s: Setting, c: Carry, rest: seq<Record>, first: bool, key: int)
    requires ValidSetting(s) && Coherent(s, c, rest) && NoSingleDeletes(rest, key)
    ensures NoSingleDeletes(Run(s, c, rest, first), key)
    decreases |rest|
  {
    if rest != [] {
      var t, after, next, firstNext := RunTurn(s, c, rest, first);
      VisitKeepsCoherence(s, c, rest);
      assert NoSingleDeletes(next, key);
      NoSingleDeletesKept(s, after, next, firstNext, key);
    }
  }

  // ---- a database as its readers search it ----

  /** How a key is used in the whole database: Put and Delete, or Put and SingleDelete without overwriting. */
  ghost predicate WellUsed(db: seq<Record>, key: int) {
    NoSingleDeletes(db, key) || SingleDeleteHistory(db, key)
  }

  ghost function Versions(db: seq<Record>, key: int): seq<Record> {
    if db == [] then [] else (if db[0].key == key then [db[0]] else []) + Versions(db[1..], key)
  }

  /** For readers and for the contracts only a key's own versions count, in their order. */
  lemma {:induction false} VersionsDecide(db: seq<Record>, key: int, at: nat)
    ensures Visible(Versions(db, key), key, at) == Visible(db, key, at)
    ensures Newest(Versions(db, key), key) == Newest(db, key)
    ensures SingleDeleteHistory(Versions(db, key), key) <==> SingleDeleteHistory(db, key)
    ensures NoSingleDeletes(Versions(db, key), key) <==> NoSingleDeletes(db, key)
  {
    if db != [] {
      VersionsDecide(db[1..], key, at);
      var tail := Versions(db[1..], key);
      assert forall i :: 0 < i < |db| ==> db[i] == db[1..][i - 1];
      assert NoSingleDeletes(db, key) <==> NoSingleDeletes(db[1..], key) && !(db[0].key == key && db[0].kind.SingleDeletion?);
      if db[0].key == key {
        assert ([db[0]] + tail)[0] == db[0] && ([db[0]] + tail)[1..] == tail;
        assert forall i :: 0 < i < |[db[0]] + tail| ==> ([db[0]] + tail)[i] == tail[i - 1];
        assert NoSingleDeletes([db[0]] + tail, key) <==> NoSingleDeletes(tail, key) && !db[0].kind.SingleDeletion?;
      } else {
        assert [] + tail == tail;
      }
    }
  }

  /** A write goes in front; a compaction replaces a stretch of the database, merged by key, by its output. */
  datatype Event =
    | Write(r: Record)
    | Compact(s: Setting, newer: seq<Record>, input: seq<Record>, deeper: seq<Record>)

  ghost predicate SameVersions(a: seq<Record>, b: seq<Record>) {
    forall key :: Versions(a, key) == Versions(b, key)
  }

  ghost predicate Possible(db: seq<Record>, e: Event) {
    match e
    case Write(r) => WellUsed([r] + db, r.key)
    case Compact(s, newer, input, deeper) =>
      && SameVersions(db, newer + input + deeper)
      && JobSetting(s) && Sorted(input) && Sequenced(input) && EveryVersionCounts(s, input)
      && BottommostHonest(s, input) && forall key :: HasKey(input, key) ==> LevelTestHonest(s, deeper, key)
  }

  ghost function After(db: seq<Record>, e: Event): seq<Record> {
    match e
    case Write(r) => [r] + db
    case Compact(s, newer, input, deeper) => newer + Compacted(s, input) + deeper
  }

  /** Newer data does not notice a replacement under it. */
  lemma {:induction false} ReplaceUnder(newer: seq<Record>, before: seq<Record>, after: seq<Record>, key: int)
    requires SingleDeleteHistory(newer + before, key) && SingleDeleteHistory(after, key) && MayReplace(before, after, key)
    ensures SingleDeleteHistory(newer + after, key) && MayReplace(newer + before, newer + after, key)
  {
    if newer == [] {
      assert newer + before == before && newer + after == after;
    } else {
      assert (newer + before)[0] == newer[0] && (newer + before)[1..] == newer[1..] + before;
      assert (newer + after)[0] == newer[0] && (newer + after)[1..] == newer[1..] + after;
      ReplaceUnder(newer[1..], before, after, key);
    }
  }

  /** One compaction, for a key it has or has not among its inputs. */
  lemma CompactionKeepsKey(s: Setting, newer: seq<Record>, input: seq<Record>, deeper: seq<Record>, key: int, at: nat)
    requires JobSetting(s) && Sorted(input) && Sequenced(input) && EveryVersionCounts(s, input) && BottommostHonest(s, input)
    requires (HasKey(input, key) ==> LevelTestHonest(s, deeper, key)) && Live(s.snapshots, at)
    requires WellUsed(newer + input + deeper, key)
    ensures WellUsed(newer + Compacted(s, input) + deeper, key)
    ensures Read(newer + Compacted(s, input) + deeper, key, at) == Read(newer + input + deeper, key, at)
  {
    assert newer + input + deeper == newer + (input + deeper);
    assert newer + Compacted(s, input) + deeper == newer + (Compacted(s, input) + deeper);
    VisibleAppend(newer, input + deeper, key, at);
    VisibleAppend(newer, Compacted(s, input) + deeper, key, at);
    if !HasKey(input, key) {
      UntouchedKey(s, newer, input, deeper, key, at);
    } else if NoSingleDeletes(newer + input + deeper, key) {
      PutDeleteKeyKept(s, newer, input, deeper, key, at);
    } else {
      HistorySuffix(newer, input + deeper, key);
      HonestUncoversNothing(s, input, deeper, key);
      SingleDeleteKeyReads(s, START, input, true, deeper, key, at);
      HistoryIsKept(s, START, input, true, deeper, key);
      ReplaceUnder(newer, input + deeper, Compacted(s, input) + deeper, key);
    }
  }

  lemma PutDeleteKeyKept(s: Setting, newer: seq<Record>, input: seq<Record>, deeper: seq<Record>, key: int, at: nat)
    requires JobSetting(s) && Sorted(input) && Sequenced(input) && EveryVersionCounts(s, input)
    requires LevelTestHonest(s, deeper, key) && Live(s.snapshots, at)
    requires NoSingleDeletes(newer + input + deeper, key)
    ensures NoSingleDeletes(newer + Compacted(s, input) + deeper, key)
    ensures Read(Compacted(s, input) + deeper, key, at) == Read(input + deeper, key, at)
  {
    var db, run := newer + input + deeper, Compacted(s, input);
    assert forall i :: 0 <= i < |newer| ==> newer[i] == db[i];
    assert forall i :: 0 <= i < |input| ==> input[i] == db[|newer| + i];
    assert forall i :: 0 <= i < |deeper| ==> deeper[i] == db[|newer| + |input| + i];
    NoSingleDeletesKept(s, START, input, true, key);
    NewestMember(input, key);
    CompactionPreservesReads(s, input, deeper, key, at);
    hide Read, Run;
    forall i | 0 <= i < |newer + run + deeper| && (newer + run + deeper)[i].key == key
      ensures !(newer + run + deeper)[i].kind.SingleDeletion?
    {
    }
  }

  lemma UntouchedKey(s: Setting, newer: seq<Record>, input: seq<Record>, deeper: seq<Record>, key: int, at: nat)
    requires ValidSetting(s) && Sorted(input) && Sequenced(input) && !HasKey(input, key)
    requires WellUsed(newer + input + deeper, key)
    ensures WellUsed(newer + Compacted(s, input) + deeper, key)
    ensures Read(Compacted(s, input) + deeper, key, at) == Read(input + deeper, key, at)
  {
    hide Run, HasKey, Sorted, Sequenced;
    RunAddsNoKeys(s, START, input, true, key);
    VersionsOfParts(newer, input, deeper, key);
    VersionsOfParts(newer, Compacted(s, input), deeper, key);
    VersionsOfParts([], input, deeper, key);
    VersionsOfParts([], Compacted(s, input), deeper, key);
    assert [] + input + deeper == input + deeper && [] + Compacted(s, input) + deeper == Compacted(s, input) + deeper;
    VersionsDecide(newer + input + deeper, key, at);
    VersionsDecide(newer + Compacted(s, input) + deeper, key, at);
    VersionsDecide(input + deeper, key, at);
    VersionsDecide(Compacted(s, input) + deeper, key, at);
  }

  lemma {:induction false} VersionsAppend(a: seq<Record>, b: seq<Record>, key: int)
    ensures Versions(a + b, key) == Versions(a, key) + Versions(b, key)
  {
    if a == [] {
      assert a + b == b;
    } else {
      assert (a + b)[0] == a[0] && (a + b)[1..] == a[1..] + b;
      VersionsAppend(a[1..], b, key);
      var head := if a[0].key == key then [a[0]] else [];
      assert head + (Versions(a[1..], key) + Versions(b, key)) == head + Versions(a[1..], key) + Versions(b, key);
      assert Versions(a + b, key) == head + Versions((a + b)[1..], key);
    }
  }

  lemma {:induction false} NoVersions(s: seq<Record>, key: int)
    requires !HasKey(s, key)
    ensures Versions(s, key) == []
  {
    if s != [] {
      assert forall i :: 0 <= i < |s[1..]| ==> s[1..][i] == s[i + 1];
      NoVersions(s[1..], key);
    }
  }

  lemma VersionsOfParts(newer: seq<Record>, mid: seq<Record>, deeper: seq<Record>, key: int)
    requires !HasKey(mid, key)
    ensures Versions(newer + mid + deeper, key) == Versions(newer, key) + Versions(deeper, key)
  {
    VersionsAppend(newer + mid, deeper, key);
    VersionsAppend(newer, mid, key);
    NoVersions(mid, key);
  }

  // ---- whole histories of a database ----

  ghost predicate Happens(db: seq<Record>, events: seq<Event>, end: seq<Record>)
    decreases |events|
  {
    if events == [] then end == db
    else Possible(db, events[0]) && Happens(After(db, events[0]), events[1..], end)
  }

  /** The reader stays live in every compaction and is older than every write. */
  ghost predicate Watching(events: seq<Event>, at: nat) {
    forall i :: 0 <= i < |events| ==>
                  match events[i] case Write(r) => at < r.sequence case Compact(s, _, _, _) => Live(s.snapshots, at)
  }

  lemma EventKeepsKey(db: seq<Record>, e: Event, key: int, at: nat)
    requires Possible(db, e) && WellUsed(db, key)
    requires match e case Write(r) => at < r.sequence case Compact(s, _, _, _) => Live(s.snapshots, at)
    ensures WellUsed(After(db, e), key) && Read(After(db, e), key, at) == Read(db, key, at)
  {
    match e
    case Write(r) =>
      assert ([r] + db)[1..] == db;
      if r.key != key { OtherKeyWritten(r, db, key); }
    case Compact(s, newer, input, deeper) =>
      VersionsDecide(db, key, at);
      VersionsDecide(newer + input + deeper, key, at);
      CompactionKeepsKey(s, newer, input, deeper, key, at);
  }

  lemma OtherKeyWritten(r: Record, db: seq<Record>, key: int)
    requires r.key != key && WellUsed(db, key)
    ensures WellUsed([r] + db, key)
  {
    VersionsDecide([r] + db, key, 0);
    VersionsDecide(db, key, 0);
    assert ([r] + db)[1..] == db && Versions([r] + db, key) == [] + Versions(db, key);
  }

  /**
   * Over any sequence of writes and compactions, each with its own snapshots, a reader that stays live keeps
   * reading what it read, for every key that is used within its contract; and the contract keeps holding.
   */
  lemma {:induction false} SnapshotsAreStable(db: seq<Record>, events: seq<Event>, end: seq<Record>, key: int, at: nat)
    requires Happens(db, events, end) && Watching(events, at) && WellUsed(db, key)
    ensures WellUsed(end, key) && Read(end, key, at) == Read(db, key, at)
    decreases |events|
  {
    if events != [] {
      EventKeepsKey(db, events[0], key, at);
      assert forall i :: 0 <= i < |events[1..]| ==> events[1..][i] == events[i + 1];
      SnapshotsAreStable(After(db, events[0]), events[1..], end, key, at);
    }
  }
}
