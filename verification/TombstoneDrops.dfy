/** Exactly when dropping a tombstone uncovers a Put behind the inputs, without trusting the level test. */
module TombstoneDrops {
  import opened Wrappers
  import opened Records
  import opened Snapshots
  import opened LevelFiles
  import opened CompactionPlan
  import opened CompactionSteps
  import opened CompactionReads
  import opened SingleDeleteReads
  import opened CompactionOrder
  import opened CompactionTheorems

  /** What a reader at the oldest live snapshot finds in the input is a tombstone, and the level test lets it go. */
  ghost predicate DropsTombstone(s: Setting, input: seq<Record>, key: int) {
    var seen := Visible(input, key, Earliest(s.snapshots));
    seen.Some? && !seen.value.kind.Value? && Obsolete(s, seen.value)
  }

  /** The data behind the inputs holds no version of the key newer than one among them. */
  ghost predicate DeeperIsOlder(input: seq<Record>, deeper: seq<Record>, key: int) {
    forall i, j :: 0 <= i < |input| && 0 <= j < |deeper| && input[i].key == key && deeper[j].key == key ==>
                     deeper[j].sequence <= input[i].sequence
  }

  /** Every reader that sees an input version of the key sees all deeper ones. */
  lemma DeeperIsSeen(input: seq<Record>, deeper: seq<Record>, key: int, low: nat, at: nat)
    requires DeeperIsOlder(input, deeper, key) && Visible(input, key, low).Some? && low <= at
    ensures Visible(deeper, key, at) == Newest(deeper, key)
  {
    VisibleMember(input, key, low);
    NewestMember(deeper, key);
    var i :| 0 <= i < |input| && input[i] == Visible(input, key, low).value;
    VisibleIsNewest(deeper, key, at);
  }

  /** A version that a later reader finds first and an earlier one can see is what the earlier one finds. */
  lemma {:induction false} SeenEarlier(s: seq<Record>, key: int, early: nat, late: nat)
    requires Sorted(s) && early <= late
    ensures Visible(s, key, late).Some? && Visible(s, key, late).value.sequence <= early ==>
              Visible(s, key, early) == Visible(s, key, late)
  {
    if s != [] && !(s[0].key == key && s[0].sequence <= late) {
      SeenEarlier(s[1..], key, early, late);
    }
  }

  lemma {:induction false} VisibleKind(s: seq<Record>, key: int, at: nat)
    requires NoSingleDeletes(s, key)
    ensures Visible(s, key, at).Some? ==> !Visible(s, key, at).value.kind.SingleDeletion?
  {
    VisibleMember(s, key, at);
  }

  /**
   * The reads of a Put/Delete key survive exactly when no dropped tombstone was covering a Put in the
   * data behind the inputs.
   */
  lemma PutDeleteReadsPreservedIff(s: Setting, input: seq<Record>, deeper: seq<Record>, key: int)
    requires ValidSetting(s) && Sorted(input) && Sequenced(input)
    requires NoSingleDeletes(input, key) && NewestCounts(s, input, key) && DeeperIsOlder(input, deeper, key)
    ensures (forall at :: Live(s.snapshots, at) ==>
               Read(Compacted(s, input) + deeper, key, at) == Read(input + deeper, key, at)) <==>
            !(DropsTombstone(s, input, key) && PutNext(deeper, key))
  {
    var earliest := Earliest(s.snapshots);
    EarliestStripe(s.snapshots, 0);
    assert Live(s.snapshots, earliest);
    VisibleKind(input, key, earliest);
    forall at | Live(s.snapshots, at)
      ensures Read(Compacted(s, input) + deeper, key, at) == Read(input + deeper, key, at) <==>
              !(TombstoneSeen(s, input, key, at) && PutNext(deeper, key))
      ensures TombstoneSeen(s, input, key, at) ==> DropsTombstone(s, input, key)
    {
      PutDeleteReadPreservedIff(s, input, deeper, key, at);
      SeenEarlier(input, key, earliest, at);
    }
  }

  ghost predicate TombstoneSeen(s: Setting, input: seq<Record>, key: int, at: nat) {
    var seen := Visible(input, key, at);
    seen.Some? && seen.value.kind.Deletion? && Obsolete(s, seen.value)
  }

  /** The same for one reader. */
  lemma PutDeleteReadPreservedIff(s: Setting, input: seq<Record>, deeper: seq<Record>, key: int, at: nat)
    requires ValidSetting(s) && Sorted(input) && Sequenced(input) && Live(s.snapshots, at)
    requires NoSingleDeletes(input, key) && NewestCounts(s, input, key) && DeeperIsOlder(input, deeper, key)
    ensures Read(Compacted(s, input) + deeper, key, at) == Read(input + deeper, key, at) <==>
            !(TombstoneSeen(s, input, key, at) && PutNext(deeper, key))
  {
    PutDeleteReads(s, START, input, true, deeper, key, at);
    VisibleAppend(input, deeper, key, at);
    if Visible(input, key, at).Some? { DeeperIsSeen(input, deeper, key, at, at); }
  }

  // ---- keys written with Put and SingleDelete ----

  /** The input seen at the oldest snapshot starts with a SingleDelete, and the loop is about to drop all of it. */
  ghost predicate FallingState(s: Setting, c: Carry, rest: seq<Record>, deeper: seq<Record>, key: int) {
    && JobSetting(s) && Coherent(s, c, rest) && SingleDeleteHistory(rest + deeper, key) && ZeroPutsCount(s, c, rest, key, 0)
    && PutNext(deeper, key) && s.plan.Some? && NotBeyond(s.plan.value, key)
    && (Visible(rest, key, Earliest(s.snapshots)).Some? ==>
          Visible(rest, key, Earliest(s.snapshots)).value.kind.SingleDeletion?)
    && (c.clearNext && c.key == key ==> c.sequence > Earliest(s.snapshots))
  }

  lemma FallingTurn(s: Setting, c: Carry, rest: seq<Record>, first: bool, deeper: seq<Record>, key: int)
    requires FallingState(s, c, rest, deeper, key) && rest != []
    ensures var t := Visit(s, c, rest);
            && (t.out.Some? && t.out.value.key == key ==> t.out.value.sequence > Earliest(s.snapshots))
            && FallingState(s, if t.out.None? then t.carry else AfterOutput(t.carry, first), rest[t.used..], deeper, key)
  {
    var t := Visit(s, c, rest);
    var earliest := Earliest(s.snapshots);
    VisitKeepsCoherence(s, c, rest);
    HistoryTail(rest, deeper, t.used, key);
    ZeroPutsCountNext(s, c, rest, first, deeper, key, 0);
    if rest[0].key != key {
      SkipOthers(rest, t.used, key, earliest);
    } else {
      HistoryPair(rest, deeper, key);
      EarliestStripe(s.snapshots, rest[0].sequence);
      EarliestStripe(s.snapshots, s.writeConflict);
      if rest[0].sequence > earliest { YoungerTurn(s, c, rest, deeper, key); } else { OldestTurn(s, c, rest, deeper, key); }
    }
  }

  /** A version no reader at the oldest snapshot sees takes along only such versions. */
  lemma YoungerTurn(s: Setting, c: Carry, rest: seq<Record>, deeper: seq<Record>, key: int)
    requires ValidSetting(s) && Coherent(s, c, rest) && ZeroPutsCount(s, c, rest, key, 0)
    requires SingleDeleteHistory(rest + deeper, key)
    requires rest != [] && rest[0].key == key && rest[0].sequence > Earliest(s.snapshots)
    ensures Visible(rest[Visit(s, c, rest).used..], key, Earliest(s.snapshots)) == Visible(rest, key, Earliest(s.snapshots))
  {
    var t := Visit(s, c, rest);
    VisitKeepsCoherence(s, c, rest);
    if t.used == 2 {
      HistoryPair(rest, deeper, key);
      assert rest[1].kind.Value? && Stripe(s.snapshots, rest[1].sequence) == 0 ==> SetApart(s, c, rest, 1, 0);
      SameStripeTest(s.snapshots, rest[0].sequence, rest[1].sequence);
      EarliestStripe(s.snapshots, rest[0].sequence);
      EarliestStripe(s.snapshots, rest[1].sequence);
      assert rest[1..][0] == rest[1] && rest[1..][1..] == rest[2..];
    }
  }

  /** A SingleDelete in the oldest stripe goes: with its pair, before another one, or by falling through. */
  lemma OldestTurn(s: Setting, c: Carry, rest: seq<Record>, deeper: seq<Record>, key: int)
    requires FallingState(s, c, rest, deeper, key) && rest != []
    requires rest[0].key == key && rest[0].sequence <= Earliest(s.snapshots)
    ensures Visit(s, c, rest).out.None? && !Visit(s, c, rest).carry.clearNext
    ensures var seen := Visible(rest[Visit(s, c, rest).used..], key, Earliest(s.snapshots));
            seen.Some? ==> seen.value.kind.SingleDeletion?
  {
    var t := Visit(s, c, rest);
    var earliest := Earliest(s.snapshots);
    EarliestStripe(s.snapshots, rest[0].sequence);
    EarliestStripe(s.snapshots, s.writeConflict);
    assert Visible(rest, key, earliest) == Some(rest[0]);
    assert !c.clearNext;
    if |rest| > 1 && rest[1].key == key {
      HistoryPair(rest, deeper, key);
      EarliestStripe(s.snapshots, rest[1].sequence);
      SameStripeTest(s.snapshots, rest[0].sequence, rest[1].sequence);
      if t.used == 2 { NextIsSingleDelete(rest, deeper, key, earliest); }
    } else {
      NoMoreOfKey(rest, key);
      VisibleOnlyIfPresent(rest[1..], key, earliest);
    }
  }

  /** Under an eliminated pair lies a SingleDelete or nothing. */
  lemma NextIsSingleDelete(rest: seq<Record>, deeper: seq<Record>, key: int, at: nat)
    requires Sorted(rest) && SingleDeleteHistory(rest + deeper, key) && |rest| > 1
    requires rest[0].key == key && rest[1].key == key && rest[1].kind.Value? && rest[1].sequence <= at
    ensures Visible(rest[2..], key, at).Some? ==> Visible(rest[2..], key, at).value.kind.SingleDeletion?
  {
    HistoryTail(rest, deeper, 1, key);
    assert rest[1..][0] == rest[1] && rest[1..][1..] == rest[2..];
    if |rest| > 2 && rest[2].key == key {
      HistoryPair(rest[1..], deeper, key);
    } else {
      NoMoreOfKey(rest[1..], key);
      VisibleOnlyIfPresent(rest[2..], key, at);
    }
  }

  /** Then the reader at the oldest snapshot finds nothing of the key in the output. */
  lemma {:induction false} FallsThrough(s: Setting, c: Carry, rest: seq<Record>, first: bool, deeper: seq<Record>, key: int)
    requires FallingState(s, c, rest, deeper, key)
    ensures Visible(Run(s, c, rest, first), key, Earliest(s.snapshots)).None?
    decreases |rest|
  {
    if rest != [] {
      var t, after, next, firstNext := RunTurn(s, c, rest, first);
      FallingTurn(s, c, rest, first, deeper, key);
      FallsThrough(s, after, next, firstNext, deeper, key);
      VisibleAppend(if t.out.None? then [] else [Prepare(s, t.out.value)], Run(s, after, next, firstNext), key, Earliest(s.snapshots));
    }
  }

  /** No version of the key is newer than the first one of its history. */
  lemma {:induction false} HistoryDescends(input: seq<Record>, deeper: seq<Record>, key: int)
    requires SingleDeleteHistory(input + deeper, key)
    ensures forall i :: 0 <= i < |input| && input[i].key == key && Newest(deeper, key).Some? ==>
              Newest(deeper, key).value.sequence <= input[i].sequence
    ensures Newest(input + deeper, key).Some? && Newest(deeper, key).Some? ==>
              Newest(deeper, key).value.sequence <= Newest(input + deeper, key).value.sequence
  {
    if input == [] {
      assert input + deeper == deeper;
    } else {
      assert (input + deeper)[1..] == input[1..] + deeper;
      HistoryDescends(input[1..], deeper, key);
      NewestAppend(input[1..], deeper, key);
      assert forall i :: 0 < i < |input| ==> input[i] == input[1..][i - 1];
    }
  }

  /** The reads of a Put/SingleDelete key survive under exactly the same condition. */
  lemma SingleDeleteReadsPreservedIff(s: Setting, input: seq<Record>, deeper: seq<Record>, key: int)
    requires JobSetting(s) && Sorted(input) && Sequenced(input)
    requires SingleDeleteHistory(input + deeper, key) && ZeroPutsCount(s, START, input, key, 0)
    ensures (forall at :: Live(s.snapshots, at) ==>
               Read(Compacted(s, input) + deeper, key, at) == Read(input + deeper, key, at)) <==>
            !(DropsTombstone(s, input, key) && PutNext(deeper, key))
  {
    var earliest := Earliest(s.snapshots);
    assert Live(s.snapshots, earliest);
    if DropsTombstone(s, input, key) && PutNext(deeper, key) {
      VisibleMember(input, key, earliest);
      SeenIsNoDelete(input, deeper, key, earliest);
      FallsThrough(s, START, input, true, deeper, key);
      VisibleAppend(Compacted(s, input), deeper, key, earliest);
      VisibleAppend(input, deeper, key, earliest);
      HistoryDescends(input, deeper, key);
      VisibleIsNewest(deeper, key, earliest);
      assert Read(Compacted(s, input) + deeper, key, earliest) != Read(input + deeper, key, earliest);
    } else {
      VisibleMember(input, key, earliest);
      forall at | Live(s.snapshots, at)
        ensures Read(Compacted(s, input) + deeper, key, at) == Read(input + deeper, key, at)
      {
        SingleDeleteKeyReads(s, START, input, true, deeper, key, at);
      }
    }
  }

  lemma {:induction false} SeenIsNoDelete(input: seq<Record>, deeper: seq<Record>, key: int, at: nat)
    requires SingleDeleteHistory(input + deeper, key)
    ensures Visible(input, key, at).Some? ==> !Visible(input, key, at).value.kind.Deletion?
  {
    if input != [] {
      assert (input + deeper)[0] == input[0] && (input + deeper)[1..] == input[1..] + deeper;
      SeenIsNoDelete(input[1..], deeper, key, at);
    }
  }

  // ---- the case the condition excludes ----

  const OLD_PUT := Record(7, 3, Value, "stale")

  const NEWER_FILE := File(2, 0, 7, 7, 1, 1)
  const OLDER_FILE := File(1, 0, 7, 7, 1, 1)

  /** A level-style compaction of one level 0 file, with an older level 0 file left behind. */
  const WITHIN_LEVEL0 := Setting([], MAX_SEQUENCE, Some(Plan([[NEWER_FILE, OLDER_FILE], []], 0, false, false, 7)))

  lemma LevelsAreValid()
    ensures JobSetting(WITHIN_LEVEL0)
  {
  }

  lemma TombstoneGoes(kind: ValueType)
    requires !kind.Value?
    ensures Compacted(WITHIN_LEVEL0, [Record(7, 5, kind, "")]) == []
  {
    var s, input := WITHIN_LEVEL0, [Record(7, 5, kind, "")];
    assert input[1..] == [];
    assert NotBeyond(s.plan.value, 7);
    assert Visit(s, START, input).out.None? && Visit(s, START, input).used == 1;
    assert Run(s, Visit(s, START, input).carry, [], true) == [];
  }

  lemma TombstoneWithinContract(kind: ValueType)
    requires !kind.Value?
    ensures UsageContract(WITHIN_LEVEL0, [Record(7, 5, kind, "")], [OLD_PUT], 7)
  {
    var input, deeper := [Record(7, 5, kind, "")], [OLD_PUT];
    assert input[1..] == [] && deeper[1..] == [];
    assert input + deeper == [input[0], OLD_PUT] && (input + deeper)[1..] == deeper;
    assert Newest(input, 7) == Some(input[0]) && Newest(deeper, 7) == Some(OLD_PUT);
    assert SingleDeleteHistory(deeper, 7) by { assert Newest(deeper[1..], 7).None?; }
  }

  /**
   * The level test looks only below the output level. A level-style compaction within level 0 leaves
   * older level 0 files behind, so it drops a Delete or a SingleDelete that still covers a Put there.
   */
  lemma IntraLevel0LosesTombstone(kind: ValueType) returns (input: seq<Record>)
    requires !kind.Value?
    ensures input == [Record(7, 5, kind, "")] && JobSetting(WITHIN_LEVEL0)
    ensures Sorted(input + [OLD_PUT]) && UsageContract(WITHIN_LEVEL0, input, [OLD_PUT], 7)
    ensures Read(input + [OLD_PUT], 7, MAX_SEQUENCE) == None
    ensures Read(Compacted(WITHIN_LEVEL0, input) + [OLD_PUT], 7, MAX_SEQUENCE) == Some("stale")
  {
    hide Run, Compacted, UsageContract, JobSetting;
    LevelsAreValid();
    input := [Record(7, 5, kind, "")];
    TombstoneGoes(kind);
    TombstoneWithinContract(kind);
    assert [] + [OLD_PUT] == [OLD_PUT];
    assert input + [OLD_PUT] == [input[0], OLD_PUT];
    assert [input[0], OLD_PUT][1..] == [OLD_PUT];
  }
}
