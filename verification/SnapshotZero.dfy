/** Exactly when reads survive, a live snapshot at 0 included: the loop takes 0 for "no earlier snapshot". */
module SnapshotZero {
  import opened Wrappers
  import opened Records
  import opened Snapshots
  import opened CompactionSteps
  import opened CompactionReads
  import opened SingleDeleteReads
  import opened CompactionOrder
  import opened CompactionTheorems
  import opened TombstoneDrops

  // ---- keys written with Put and Delete ----

  /** The newest input version of a key sits at sequence 0 while a snapshot at 0 is live. */
  ghost predicate NewestAtZero(s: Setting, input: seq<Record>, key: int) {
    && Newest(input, key).Some? && Newest(input, key).value.sequence == 0
    && Earliest(s.snapshots) == 0
  }

  /** Every version left of the key is at 0 under a snapshot at 0, and looks hidden. */
  ghost predicate AllHidden(s: Setting, c: Carry, rest: seq<Record>, key: int) {
    && ValidSetting(s) && Coherent(s, c, rest) && NoSingleDeletes(rest, key) && Earliest(s.snapshots) == 0
    && (c.hasKey && c.key == key ==> c.snapshot == 0 && !c.clearNext)
    && (forall i :: 0 <= i < |rest| && rest[i].key == key ==> rest[i].sequence == 0)
  }

  lemma HiddenTurn(s: Setting, c: Carry, rest: seq<Record>, first: bool, key: int)
    requires AllHidden(s, c, rest, key) && rest != []
    ensures var t := Visit(s, c, rest);
            && (t.out.Some? ==> t.out.value.key != key)
            && AllHidden(s, if t.out.None? then t.carry else AfterOutput(t.carry, first), rest[t.used..], key)
  {
    VisitKeepsCoherence(s, c, rest);
    EarliestStripe(s.snapshots, 0);
    var next := rest[Visit(s, c, rest).used..];
    assert forall i :: 0 <= i < |next| ==> next[i] == rest[i + Visit(s, c, rest).used];
  }

  /** Such a version looks hidden by the loop's "no previous snapshot" marker: all its versions go. */
  lemma {:induction false} ZeroSnapshotHides(s: Setting, c: Carry, rest: seq<Record>, first: bool, key: int)
    requires AllHidden(s, c, rest, key)
    ensures !HasKey(Run(s, c, rest, first), key)
    decreases |rest|
  {
    if rest != [] {
      var t, after, next, firstNext := RunTurn(s, c, rest, first);
      HiddenTurn(s, c, rest, first, key);
      ZeroSnapshotHides(s, after, next, firstNext, key);
    }
  }

  lemma NewestCountsUnlessZero(s: Setting, input: seq<Record>, key: int)
    requires ValidSetting(s) && Sequenced(input) && !NewestAtZero(s, input, key)
    ensures NewestCounts(s, input, key)
  {
    if Newest(input, key).Some? {
      NewestSequenced(input, key);
      EarliestStripe(s.snapshots, Newest(input, key).value.sequence);
      StripeIsLeast(s.snapshots, Newest(input, key).value.sequence);
    }
  }

  lemma {:induction false} NewestSequenced(s: seq<Record>, key: int)
    requires Sequenced(s) && Newest(s, key).Some?
    ensures Newest(s, key).value.sequence <= MAX_SEQUENCE
  {
    if s[0].key != key { NewestSequenced(s[1..], key); }
  }

  /** In a sorted run no version of a key is newer than its first. */
  lemma {:induction false} NewestIsFirst(s: seq<Record>, key: int)
    requires Sorted(s) && Newest(s, key).Some?
    ensures forall i :: 0 <= i < |s| && s[i].key == key ==> s[i].sequence <= Newest(s, key).value.sequence
  {
    if s[0].key != key {
      NewestIsFirst(s[1..], key);
      assert forall i :: 0 < i < |s| ==> s[i] == s[1..][i - 1];
    } else {
      forall i | 0 < i < |s| && s[i].key == key
        ensures s[i].sequence <= s[0].sequence
      {
        SortedPair(s, 0, i);
      }
    }
  }

  /** The newest input version is at 0 under a snapshot at 0, and deeper data does not answer as it did. */
  ghost predicate LosesNewest(s: Setting, input: seq<Record>, deeper: seq<Record>, key: int) {
    NewestAtZero(s, input, key) && Answer(Newest(input, key).value) != Read(deeper, key, 0)
  }

  /**
   * The reads of a Put/Delete key survive exactly when no dropped tombstone was covering a deeper Put and the
   * newest version is not lost at 0: without deeper data that is, unless a Put sits there.
   */
  lemma PutDeleteReadsSurviveIff(s: Setting, input: seq<Record>, deeper: seq<Record>, key: int)
    requires ValidSetting(s) && Sorted(input) && Sequenced(input)
    requires NoSingleDeletes(input, key) && DeeperIsOlder(input, deeper, key)
    ensures (forall at :: Live(s.snapshots, at) ==>
               Read(Compacted(s, input) + deeper, key, at) == Read(input + deeper, key, at)) <==>
            !(DropsTombstone(s, input, key) && PutNext(deeper, key)) && !LosesNewest(s, input, deeper, key)
  {
    if NewestAtZero(s, input, key) {
      VisibleIsNewest(input, key, 0);
      DeeperIsSeen(input, deeper, key, 0, 0);
      forall at | Live(s.snapshots, at)
        ensures Read(Compacted(s, input) + deeper, key, at) == Read(deeper, key, 0)
        ensures Read(input + deeper, key, at) == Answer(Newest(input, key).value)
      {
        NewestAtZeroReads(s, input, deeper, key, at);
      }
      assert Live(s.snapshots, MAX_SEQUENCE);
    } else {
      NewestCountsUnlessZero(s, input, key);
      PutDeleteReadsPreservedIff(s, input, deeper, key);
    }
  }

  lemma NewestAtZeroReads(s: Setting, input: seq<Record>, deeper: seq<Record>, key: int, at: nat)
    requires ValidSetting(s) && Sorted(input) && Sequenced(input) && Live(s.snapshots, at)
    requires NoSingleDeletes(input, key) && DeeperIsOlder(input, deeper, key) && NewestAtZero(s, input, key)
    ensures Read(Compacted(s, input) + deeper, key, at) == Read(deeper, key, 0)
    ensures Read(input + deeper, key, at) == Answer(Newest(input, key).value)
  {
    NewestIsFirst(input, key);
    ZeroSnapshotHides(s, START, input, true, key);
    VisibleOnlyIfPresent(Compacted(s, input), key, at);
    VisibleAppend(Compacted(s, input), deeper, key, at);
    VisibleAppend(input, deeper, key, at);
    VisibleIsNewest(input, key, at);
    VisibleIsNewest(input, key, 0);
    DeeperIsSeen(input, deeper, key, 0, at);
    DeeperIsSeen(input, deeper, key, 0, 0);
  }

  // ---- keys written with Put and SingleDelete ----

  /** A Put at 0 under a snapshot at 0 with no version of its key above it, or one without a snapshot other than 0 below. */
  ghost predicate HiddenZeroPut(s: Setting, input: seq<Record>, key: int, i: nat)
    requires i < |input|
  {
    && Earliest(s.snapshots) == 0 && input[i].key == key && input[i].sequence == 0 && input[i].kind.Value?
    && (i == 0 || input[i - 1].key != key || Previous(s.snapshots, input[i - 1].sequence) == 0)
  }

  /** The SingleDelete over the Put at `i` is among the output. */
  ghost predicate PairIsKept(rest: seq<Record>, run: seq<Record>, i: nat)
    requires i < |rest|
  {
    i > 0 && rest[i - 1].key == rest[i].key && rest[i - 1] in run
  }

  /** Such a Put is lost, unless it was empty and stays as the blank Put of a retained pair. */
  ghost predicate LosesZeroPut(s: Setting, input: seq<Record>, key: int) {
    exists i :: 0 <= i < |input| && HiddenZeroPut(s, input, key, i) &&
                !(input[i].value == "" && PairIsKept(input, Compacted(s, input), i))
  }

  /** The loop comes to the hidden Put at `i` without having carried its key to it. */
  ghost predicate ZeroPutState(s: Setting, c: Carry, rest: seq<Record>, deeper: seq<Record>, key: int, i: nat) {
    && ValidSetting(s) && Coherent(s, c, rest) && StrictlySorted(rest) && SingleDeleteHistory(rest + deeper, key)
    && i < |rest| && HiddenZeroPut(s, rest, key, i)
    && (i == 0 ==> !(c.hasKey && c.key == key))
  }

  /** The version at `j` is the first of its key, for a loop that carries `c`. */
  ghost predicate FirstOfKey(c: Carry, rest: seq<Record>, j: nat)
    requires j < |rest|
  {
    if j == 0 then Fresh(c, rest[0]) else rest[j - 1].key != rest[j].key
  }

  /** Under a Put at 0 the contract leaves at most a SingleDelete, and that deeper. */
  lemma UnderZeroPut(rest: seq<Record>, deeper: seq<Record>, key: int, i: nat)
    requires StrictlySorted(rest) && SingleDeleteHistory(rest + deeper, key)
    requires i < |rest| && rest[i].key == key && rest[i].sequence == 0 && rest[i].kind.Value?
    ensures !HasKey(rest[i + 1..], key)
    ensures Read(deeper, key, 0).None? && !PutNext(deeper, key)
  {
    assert rest + deeper == rest[..i] + (rest[i..] + deeper);
    HistorySuffix(rest[..i], rest[i..] + deeper, key);
    assert (rest[i..] + deeper)[0] == rest[i] && (rest[i..] + deeper)[1..] == rest[i + 1..] + deeper;
    HistorySuffix(rest[i + 1..], deeper, key);
    if HasKey(rest[i + 1..], key) {
      var j :| 0 <= j < |rest[i + 1..]| && rest[i + 1..][j].key == key;
      assert StrictlyInOrder(rest[i], rest[i + 1 + j]);
    }
    NewestMember(rest[i + 1..], key);
    NewestAppend(rest[i + 1..], deeper, key);
    ReadsAsNothing(deeper, key, 0);
  }

  /** The rest of the run, past the last version of the key. */
  lemma ReadPastKey(s: Setting, c: Carry, rest: seq<Record>, first: bool, deeper: seq<Record>, key: int, at: nat)
    requires ValidSetting(s) && Coherent(s, c, rest) && !HasKey(rest, key)
    ensures !HasKey(Run(s, c, rest, first), key)
    ensures Read(Run(s, c, rest, first) + deeper, key, at) == Read(deeper, key, at)
  {
    RunAddsNoKeys(s, c, rest, first, key);
    VisibleOnlyIfPresent(Run(s, c, rest, first), key, at);
    VisibleAppend(Run(s, c, rest, first), deeper, key, at);
  }

  /** A Put at 0 that the loop meets under no carried version of its key is taken for hidden. */
  lemma LonePutGoes(s: Setting, c: Carry, rest: seq<Record>, first: bool, deeper: seq<Record>, key: int)
    requires ZeroPutState(s, c, rest, deeper, key, 0)
    ensures Read(Run(s, c, rest, first) + deeper, key, 0).None?
  {
    var t, after, next, firstNext := RunTurn(s, c, rest, first);
    EarliestStripe(s.snapshots, 0);
    assert t.out.None? && t.used == 1;
    UnderZeroPut(rest, deeper, key, 0);
    ReadPastKey(s, after, next, firstNext, deeper, key, 0);
    assert [] + Run(s, after, next, firstNext) == Run(s, after, next, firstNext);
  }

  /** A Put at 0 under a SingleDelete that has no snapshot other than 0 below it goes with it, or stays blank. */
  lemma PairedPutGoes(s: Setting, c: Carry, rest: seq<Record>, first: bool, deeper: seq<Record>, key: int)
    requires ZeroPutState(s, c, rest, deeper, key, 1) && rest[0].key == key
    ensures Read(Run(s, c, rest, first) + deeper, key, 0) ==
            if PairIsKept(rest, Run(s, c, rest, first), 1) then Some("") else None
    ensures PairIsKept(rest, Run(s, c, rest, first), 1) <==>
            !(rest[0].sequence <= s.writeConflict || Observe(s, c, rest[0]).outputted)
  {
    var t, after, next, firstNext := RunTurn(s, c, rest, first);
    HistoryPair(rest, deeper, key);
    assert StrictlyInOrder(rest[0], rest[1]);
    assert !c.clearNext && t == VisitSingleDelete(s, Observe(s, c, rest[0]), rest);
    UnderZeroPut(rest, deeper, key, 1);
    if t.out.None? {
      ReadPastKey(s, after, next, firstNext, deeper, key, 0);
      assert [] + Run(s, after, next, firstNext) == Run(s, after, next, firstNext);
    } else {
      BlankPutStays(s, after, next, firstNext, deeper, key);
      var tail := Run(s, after, next, firstNext);
      assert Prepare(s, rest[0]) == rest[0];
      assert ([rest[0]] + tail)[0] == rest[0] && [rest[0]] + tail + deeper == [rest[0]] + (tail + deeper);
      assert ([rest[0]] + (tail + deeper))[1..] == tail + deeper;
    }
  }

  lemma BlankPutStays(s: Setting, c: Carry, rest: seq<Record>, first: bool, deeper: seq<Record>, key: int)
    requires ValidSetting(s) && Coherent(s, c, rest) && c.clearNext
    requires rest != [] && rest[0].key == key && rest[0].sequence == 0 && rest[0].kind.Value?
    ensures Read(Run(s, c, rest, first) + deeper, key, 0) == Some("")
  {
    var t, after, next, firstNext := RunTurn(s, c, rest, first);
    var head, tail := Prepare(s, t.out.value), Run(s, after, next, firstNext);
    assert ([head] + tail + deeper)[0] == head;
  }

  /** Two records used up together are of one key, and what follows a Put used up so is no Put of its key. */
  lemma PutIsNotBehindPair(s: Setting, c: Carry, rest: seq<Record>, deeper: seq<Record>, key: int, i: nat)
    requires ZeroPutState(s, c, rest, deeper, key, i) && i > 0 && !(i == 1 && rest[0].key == key)
    ensures Visit(s, c, rest).used <= i
    ensures Visit(s, c, rest).used == i ==> rest[0].key != key && rest[i - 1].key != key
  {
    VisitKeepsCoherence(s, c, rest);
    if Visit(s, c, rest).used == 2 && i == 2 && rest[0].key == key {
      HistoryTail(rest, deeper, 1, key);
      HistoryPair(rest[1..], deeper, key);
      HistoryPair(rest, deeper, key);
      assert false;
    }
  }

  /** A turn that does not settle the hidden Put leaves it hidden. */
  lemma ZeroPutNext(s: Setting, c: Carry, rest: seq<Record>, first: bool, deeper: seq<Record>, key: int, i: nat)
    requires ZeroPutState(s, c, rest, deeper, key, i) && i > 0 && !(i == 1 && rest[0].key == key)
    ensures var t := Visit(s, c, rest);
            var after := if t.out.None? then t.carry else AfterOutput(t.carry, first);
            && t.used <= i && ZeroPutState(s, after, rest[t.used..], deeper, key, i - t.used)
            && (i == t.used ==> rest[i - 1].key != key)
            && (t.out.Some? && t.out.value.key == key ==> t.out.value.sequence > 0)
            && (FirstOfKey(c, rest, i - 1) && i > t.used ==> FirstOfKey(after, rest[t.used..], i - t.used - 1))
  {
    PutIsNotBehindPair(s, c, rest, deeper, key, i);
    var t := Visit(s, c, rest);
    VisitKeepsCoherence(s, c, rest);
    HistoryTail(rest, deeper, t.used, key);
    assert StrictlyInOrder(rest[0], rest[i]);
    hide Visit, Coherent, SingleDeleteHistory, ValidSetting;
  }

  lemma UnseenTurn(s: Setting, c: Carry, rest: seq<Record>, first: bool, deeper: seq<Record>, key: int, i: nat)
    requires ZeroPutState(s, c, rest, deeper, key, i) && i > 0 && !(i == 1 && rest[0].key == key)
    ensures var t := Visit(s, c, rest);
            var after := if t.out.None? then t.carry else AfterOutput(t.carry, first);
            Read(Run(s, c, rest, first) + deeper, key, 0) ==
            Read(Run(s, after, rest[t.used..], first && t.out.None?) + deeper, key, 0)
  {
    var t, after, next, firstNext := RunTurn(s, c, rest, first);
    VisitKeepsCoherence(s, c, rest);
    ZeroPutNext(s, c, rest, first, deeper, key, i);
    assert Live(s.snapshots, 0) by { EarliestStripe(s.snapshots, 0); }
    assert t.out.Some? ==> t.out.value.sequence <= MAX_SEQUENCE;
    hide ZeroPutState, Run, Read, Visit;
    ReadTurn(s, t.out, Run(s, after, next, firstNext), deeper, key, 0);
  }

  /** The SingleDelete over the hidden Put is not what this turn puts out. */
  lemma MembersBehind(s: Setting, c: Carry, rest: seq<Record>, first: bool, deeper: seq<Record>, key: int, i: nat)
    requires ZeroPutState(s, c, rest, deeper, key, i) && i > 0 && !(i == 1 && rest[0].key == key)
    ensures var t := Visit(s, c, rest);
            var after := if t.out.None? then t.carry else AfterOutput(t.carry, first);
            && t.used <= i
            && (PairIsKept(rest, Run(s, c, rest, first), i) <==>
                PairIsKept(rest[t.used..], Run(s, after, rest[t.used..], first && t.out.None?), i - t.used))
  {
    var t, after, next, firstNext := RunTurn(s, c, rest, first);
    ZeroPutNext(s, c, rest, first, deeper, key, i);
    VisitKeepsCoherence(s, c, rest);
    var tail := Run(s, after, next, firstNext);
    if t.out.None? {
      assert [] + tail == tail;
    } else if i > t.used {
      assert StrictlyInOrder(rest[0], rest[i - 1]);
      assert next[i - t.used - 1] == rest[i - 1];
    }
  }

  /** The reader at 0 finds nothing where a hidden Put was, or the blank Put of a retained pair. */
  lemma {:induction false} ZeroPutGoes(s: Setting, c: Carry, rest: seq<Record>, first: bool, deeper: seq<Record>, key: int, i: nat)
    requires ZeroPutState(s, c, rest, deeper, key, i)
    ensures Read(Run(s, c, rest, first) + deeper, key, 0) ==
            if PairIsKept(rest, Run(s, c, rest, first), i) then Some("") else None
    ensures i > 0 && rest[i - 1].key == key && rest[i - 1].sequence <= s.writeConflict ==>
              !PairIsKept(rest, Run(s, c, rest, first), i)
    ensures i > 0 && rest[i - 1].key == key && rest[i - 1].sequence > s.writeConflict && FirstOfKey(c, rest, i - 1) ==>
              PairIsKept(rest, Run(s, c, rest, first), i)
    decreases |rest|
  {
    hide Visit, Run, Read, Fresh, SingleDeleteHistory, Coherent, StrictlySorted, ValidSetting;
    if i == 0 {
      LonePutGoes(s, c, rest, first, deeper, key);
    } else if i == 1 && rest[0].key == key {
      PairedPutGoes(s, c, rest, first, deeper, key);
    } else {
      var t, after, next, firstNext := RunTurn(s, c, rest, first);
      ZeroPutNext(s, c, rest, first, deeper, key, i);
      ZeroPutGoes(s, after, next, firstNext, deeper, key, i - t.used);
      UnseenTurn(s, c, rest, first, deeper, key, i);
      MembersBehind(s, c, rest, first, deeper, key, i);
    }
  }

  /** Puts at 0 that are not hidden count for every reader, and those under a version of their key for readers past 0. */
  lemma ZeroPutsCountUnlessHidden(s: Setting, input: seq<Record>, key: int, at: nat)
    requires ValidSetting(s) && Sequenced(input) && StrictlySorted(input)
    requires forall i :: 0 <= i < |input| && HiddenZeroPut(s, input, key, i) ==> at > 0 && i > 0 && input[i - 1].key == key
    ensures ZeroPutsCount(s, START, input, key, at)
  {
    forall i | 0 <= i < |input| && input[i].key == key && input[i].kind.Value? && Stripe(s.snapshots, input[i].sequence) == 0
      ensures SetApart(s, START, input, i, at)
    {
      SequencedAt(input, i);
      StripeIsLeast(s.snapshots, input[i].sequence);
      EarliestStripe(s.snapshots, 0);
      if i + 1 < |input| { assert StrictlyInOrder(input[i], input[i + 1]); }
      assert HiddenZeroPut(s, input, key, i) || SetApart(s, START, input, i, at);
    }
  }

  /** The reader at 0 finds the version at 0. */
  lemma {:induction false} ZeroIsVisible(s: seq<Record>, key: int, i: nat)
    requires Sorted(s) && i < |s| && s[i].key == key && s[i].sequence == 0
    requires forall j :: 0 <= j < i && s[j].key == key ==> s[j].sequence > 0
    ensures Visible(s, key, 0) == Some(s[i])
  {
    if i > 0 {
      assert forall j :: 0 <= j < i - 1 ==> s[1..][j] == s[j + 1];
      ZeroIsVisible(s[1..], key, i - 1);
    }
  }

  /** What a hidden Put does to the reads of its key. */
  lemma HiddenPutReads(s: Setting, input: seq<Record>, deeper: seq<Record>, key: int, i: nat)
    requires JobSetting(s) && StrictlySorted(input) && Sequenced(input) && SingleDeleteHistory(input + deeper, key)
    requires i < |input| && HiddenZeroPut(s, input, key, i)
    ensures Live(s.snapshots, 0) && !PutNext(deeper, key)
    ensures Read(input + deeper, key, 0) == Some(input[i].value)
    ensures Read(Compacted(s, input) + deeper, key, 0) ==
            if PairIsKept(input, Compacted(s, input), i) then Some("") else None
    ensures i > 0 && input[i - 1].key == key ==>
              forall at :: Live(s.snapshots, at) && at > 0 ==>
                             Read(Compacted(s, input) + deeper, key, at) == Read(input + deeper, key, at)
  {
    StrictIsSorted(input);
    EarliestStripe(s.snapshots, 0);
    forall j | 0 <= j < i && input[j].key == key
      ensures input[j].sequence > 0
    {
      assert StrictlyInOrder(input[j], input[i]);
    }
    ZeroIsVisible(input, key, i);
    VisibleAppend(input, deeper, key, 0);
    UnderZeroPut(input, deeper, key, i);
    ZeroPutGoes(s, START, input, true, deeper, key, i);
    if i > 0 && input[i - 1].key == key {
      forall at | Live(s.snapshots, at) && at > 0
        ensures Read(Compacted(s, input) + deeper, key, at) == Read(input + deeper, key, at)
      {
        OnlyOneAtZero(s, input, key, i);
        ZeroPutsCountUnlessHidden(s, input, key, at);
        SingleDeleteKeyReads(s, START, input, true, deeper, key, at);
      }
    }
  }

  lemma OnlyOneAtZero(s: Setting, input: seq<Record>, key: int, i: nat)
    requires StrictlySorted(input) && i < |input| && HiddenZeroPut(s, input, key, i)
    ensures forall j :: 0 <= j < |input| && HiddenZeroPut(s, input, key, j) ==> j == i
  {
  }

  /**
   * The reads of a Put/SingleDelete key survive exactly when no SingleDelete falls through over a deeper Put and no
   * Put is lost at 0.
   */
  lemma SingleDeleteReadsSurviveIff(s: Setting, input: seq<Record>, deeper: seq<Record>, key: int)
    requires JobSetting(s) && StrictlySorted(input) && Sequenced(input) && SingleDeleteHistory(input + deeper, key)
    ensures (forall at :: Live(s.snapshots, at) ==>
               Read(Compacted(s, input) + deeper, key, at) == Read(input + deeper, key, at)) <==>
            !(DropsTombstone(s, input, key) && PutNext(deeper, key)) && !LosesZeroPut(s, input, key)
  {
    StrictIsSorted(input);
    if i :| 0 <= i < |input| && HiddenZeroPut(s, input, key, i) {
      HiddenPutReads(s, input, deeper, key, i);
      OnlyOneAtZero(s, input, key, i);
    } else {
      ZeroPutsCountUnlessHidden(s, input, key, 0);
      SingleDeleteReadsPreservedIff(s, input, deeper, key);
    }
  }

  /**
   * When a retained pair keeps its Put, blank: always if the SingleDelete is the key's newest version and younger
   * than the conflict boundary, never if it is not younger.
   */
  lemma PairKeptWhen(s: Setting, input: seq<Record>, deeper: seq<Record>, key: int, i: nat)
    requires ValidSetting(s) && StrictlySorted(input) && Sequenced(input) && SingleDeleteHistory(input + deeper, key)
    requires 0 < i < |input| && HiddenZeroPut(s, input, key, i) && input[i - 1].key == key
    ensures input[i - 1].sequence <= s.writeConflict ==> !PairIsKept(input, Compacted(s, input), i)
    ensures input[i - 1].sequence > s.writeConflict && FirstOfKey(START, input, i - 1) ==>
              PairIsKept(input, Compacted(s, input), i)
  {
    StrictIsSorted(input);
    ZeroPutGoes(s, START, input, true, deeper, key, i);
  }

  // ---- the two cases ----

  const ZERO_PUT := Record(7, 0, Value, "v")

  /** The smallest inputs: the Put alone, and the Put under a SingleDelete. With a snapshot at 0 both lose it. */
  lemma SnapshotZeroLosesPut(writeConflict: nat, alone: bool) returns (s: Setting, input: seq<Record>)
    requires writeConflict == 0 || writeConflict == MAX_SEQUENCE
    ensures s == Setting([0], writeConflict, None) && JobSetting(s)
    ensures input == (if alone then [] else [Record(7, 5, SingleDeletion, "")]) + [ZERO_PUT]
    ensures StrictlySorted(input) && Sequenced(input) && SingleDeleteHistory(input, 7)
    ensures Read(input, 7, 0) == Some("v")
    ensures Read(Compacted(s, input), 7, 0) == if alone || writeConflict > 0 then None else Some("")
  {
    s := Setting([0], writeConflict, None);
    input := (if alone then [] else [Record(7, 5, SingleDeletion, "")]) + [ZERO_PUT];
    var last := |input| - 1;
    assert [ZERO_PUT][1..] == [] && SingleDeleteHistory([ZERO_PUT], 7);
    assert input[1..] == if alone then [] else [ZERO_PUT];
    assert SingleDeleteHistory(input[1..], 7);
    assert HiddenZeroPut(s, input, 7, last);
    assert input + [] == input && Compacted(s, input) + [] == Compacted(s, input);
    HiddenPutReads(s, input, [], 7, last);
    if !alone { PairKeptWhen(s, input, [], 7, last); }
  }
}
