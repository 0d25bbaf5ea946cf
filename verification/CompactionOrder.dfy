/** What zeroing sequence numbers at the bottommost level leaves intact. */
module CompactionOrder {
  import opened Records
  import opened Snapshots
  import opened CompactionPlan
  import opened CompactionSteps

  /** The constructor arguments a compaction job supplies. */
  ghost predicate JobSetting(s: Setting) {
    && ValidSetting(s)
    // The write-conflict boundary is a live snapshot, or absent.
    && Live(s.snapshots, s.writeConflict)
  }

  /** A bottommost compaction leaves nothing deeper under any key of its input. */
  ghost predicate BottommostHonest(s: Setting, rest: seq<Record>) {
    s.plan.Some? && s.plan.value.bottommost ==>
      forall i :: 0 <= i < |rest| ==> NotBeyond(s.plan.value, rest[i].key)
  }

  /** No version sits at sequence 0 under a snapshot at 0. */
  ghost predicate EveryVersionCounts(s: Setting, rest: seq<Record>) {
    forall i :: 0 <= i < |rest| ==> Stripe(s.snapshots, rest[i].sequence) > 0
  }

  /** A retained SingleDelete, and so the record kept under it, is newer than the oldest snapshot. */
  ghost predicate RetainedIsRecent(s: Setting, c: Carry) {
    c.clearNext ==> c.snapshot > Earliest(s.snapshots)
  }

  ghost predicate JobState(s: Setting, c: Carry, rest: seq<Record>) {
    && JobSetting(s) && Coherent(s, c, rest) && BottommostHonest(s, rest)
    && EveryVersionCounts(s, rest) && RetainedIsRecent(s, c)
  }

  lemma JobStateNext(s: Setting, c: Carry, rest: seq<Record>, first: bool)
    requires JobState(s, c, rest) && rest != []
    ensures var t := Visit(s, c, rest);
            && JobState(s, t.carry, rest[t.used..])
            && JobState(s, AfterOutput(t.carry, first), rest[t.used..])
  {
    VisitKeepsCoherence(s, c, rest);
    EarliestStripe(s.snapshots, rest[0].sequence);
    var t := Visit(s, c, rest);
    assert BottommostHonest(s, rest[t.used..]);
    assert EveryVersionCounts(s, rest[t.used..]);
    StripeIsLeast(s.snapshots, s.writeConflict);
    EarliestStripe(s.snapshots, s.writeConflict);
  }

  /** The record handed to `PrepareOutput` with a squashable sequence number is never a tombstone. */
  lemma TombstonesAreNeverZeroed(s: Setting, c: Carry, rest: seq<Record>)
    requires JobState(s, c, rest) && rest != []
    ensures var out := Visit(s, c, rest).out; out.Some? && Zeroable(s, out.value) ==> out.value.kind.Value?
  {
    var r := rest[0];
    EarliestStripe(s.snapshots, r.sequence);
    EarliestStripe(s.snapshots, s.writeConflict);
    assert s.plan.Some? && s.plan.value.bottommost ==> NotBeyond(s.plan.value, r.key);
    if c.clearNext {
      SameStripeTest(s.snapshots, c.sequence, r.sequence);
    } else if r.kind.SingleDeletion? && |rest| > 1 && rest[1].key == r.key {
      SortedPair(rest, 0, 1);
      SameStripeTest(s.snapshots, r.sequence, rest[1].sequence);
      StripeMonotone(s.snapshots, rest[1].sequence, r.sequence);
      EarliestStripe(s.snapshots, rest[1].sequence);
    }
  }

  /** At the bottommost level, a version in the oldest stripe is the last one of its key. */
  lemma {:induction false} NothingAfterOldestStripe(s: Setting, c: Carry, rest: seq<Record>, first: bool)
    requires JobState(s, c, rest) && c.hasKey && !c.clearNext && c.snapshot == Earliest(s.snapshots)
    requires s.plan.Some? && s.plan.value.bottommost
    ensures !HasKey(Run(s, c, rest, first), c.key)
    decreases |rest|
  {
    if rest == [] || rest[0].key != c.key {
      KeyPassed(rest, c.key);
      RunAddsNoKeys(s, c, rest, first, c.key);
      return;
    }
    var t := Visit(s, c, rest);
    var next := rest[t.used..];
    OldestStripeIsDropped(s, c, rest);
    JobStateNext(s, c, rest, first);
    if t.carry.hasKey {
      VisitKeepsCoherence(s, c, rest);
      NothingAfterOldestStripe(s, t.carry, next, first);
    } else {
      if |rest| > 1 { SortedPair(rest, 0, 1); }
      KeyPassed(next, c.key);
      RunAddsNoKeys(s, t.carry, next, first, c.key);
    }
  }

  lemma OldestStripeIsDropped(s: Setting, c: Carry, rest: seq<Record>)
    requires JobState(s, c, rest) && c.hasKey && !c.clearNext && c.snapshot == Earliest(s.snapshots)
    requires s.plan.Some? && s.plan.value.bottommost
    requires rest != [] && rest[0].key == c.key
    ensures var t := Visit(s, c, rest);
            t.out.None? && !t.carry.clearNext && t.carry.snapshot == c.snapshot
    ensures !Visit(s, c, rest).carry.hasKey ==> |rest| == 1 || rest[1].key != c.key
    ensures !Visit(s, c, rest).carry.hasKey ==> Visit(s, c, rest).used == 1
  {
    var r := rest[0];
    EarliestStripe(s.snapshots, c.sequence);
    EarliestStripe(s.snapshots, r.sequence);
    EarliestStripe(s.snapshots, s.writeConflict);
    assert NotBeyond(s.plan.value, r.key);
    if |rest| > 1 && rest[1].key == r.key {
      SortedPair(rest, 0, 1);
      SameStripeTest(s.snapshots, r.sequence, rest[1].sequence);
      EarliestStripe(s.snapshots, rest[1].sequence);
    }
  }

  /** Strict order of the input: the carried version is newer than the rest of its key. */
  ghost predicate StrictlyCoherent(c: Carry, rest: seq<Record>) {
    && StrictlySorted(rest)
    && (c.hasKey && rest != [] && rest[0].key == c.key ==> rest[0].sequence < c.sequence)
  }

  /** Every record of `run` lies at or after the input's first key and below the carried version. */
  ghost predicate Follows(run: seq<Record>, c: Carry, rest: seq<Record>) {
    forall i :: 0 <= i < |run| ==>
                  && rest != [] && rest[0].key <= run[i].key
                  && (c.hasKey && run[i].key == c.key ==> run[i].sequence < c.sequence)
  }

  /** The run is strictly sorted and continues below the carried version. */
  lemma {:induction false} RunStrictlySorted(s: Setting, c: Carry, rest: seq<Record>, first: bool)
    requires JobState(s, c, rest) && StrictlyCoherent(c, rest)
    ensures StrictlySorted(Run(s, c, rest, first)) && Follows(Run(s, c, rest, first), c, rest)
    decreases |rest|
  {
    if rest == [] {
      return;
    }
    var t, after, next, firstNext := RunTurn(s, c, rest, first);
    var tail := Run(s, after, next, firstNext);
    JobStateNext(s, c, rest, first);
    StrictlyCoherentNext(s, c, rest, after);
    RunStrictlySorted(s, after, next, firstNext);
    FollowsEarlier(s, c, rest, after, tail);
    if t.out.Some? {
      var head := Prepare(s, t.out.value);
      forall i | 0 <= i < |tail|
        ensures StrictlyInOrder(head, tail[i])
      {
        HeadBeforeTail(s, c, rest, after, tail, i);
      }
      HeadFollows(s, c, rest);
      StrictCons(head, tail, c, rest);
    } else {
      assert [] + tail == tail;
    }
  }

  lemma StrictlyCoherentNext(s: Setting, c: Carry, rest: seq<Record>, after: Carry)
    requires ValidSetting(s) && Coherent(s, c, rest) && StrictlyCoherent(c, rest) && rest != []
    requires after.(outputted := false) == Visit(s, c, rest).carry.(outputted := false)
    ensures StrictlyCoherent(after, rest[Visit(s, c, rest).used..])
  {
    var next := rest[Visit(s, c, rest).used..];
    VisitKeepsCoherence(s, c, rest);
    assert next != [] ==> StrictlyInOrder(rest[0], next[0]);
  }

  lemma FollowsEarlier(s: Setting, c: Carry, rest: seq<Record>, after: Carry, tail: seq<Record>)
    requires ValidSetting(s) && Coherent(s, c, rest) && StrictlyCoherent(c, rest) && rest != []
    requires after.(outputted := false) == Visit(s, c, rest).carry.(outputted := false)
    requires Follows(tail, after, rest[Visit(s, c, rest).used..])
    ensures Follows(tail, c, rest)
  {
    var next := rest[Visit(s, c, rest).used..];
    VisitKeepsCoherence(s, c, rest);
    assert next != [] ==> StrictlyInOrder(rest[0], next[0]);
    forall i | 0 <= i < |tail|
      ensures rest[0].key <= tail[i].key
      ensures c.hasKey && tail[i].key == c.key ==> tail[i].sequence < c.sequence
    {
      assert tail[i].key >= next[0].key;
    }
  }

  lemma HeadFollows(s: Setting, c: Carry, rest: seq<Record>)
    requires ValidSetting(s) && Coherent(s, c, rest) && StrictlyCoherent(c, rest) && rest != [] && Visit(s, c, rest).out.Some?
    ensures Follows([Prepare(s, Visit(s, c, rest).out.value)], c, rest)
  {
    VisitKeepsCoherence(s, c, rest);
  }

  lemma StrictCons(head: Record, tail: seq<Record>, c: Carry, rest: seq<Record>)
    requires StrictlySorted(tail) && forall i :: 0 <= i < |tail| ==> StrictlyInOrder(head, tail[i])
    requires Follows([head], c, rest) && Follows(tail, c, rest)
    ensures StrictlySorted([head] + tail) && Follows([head] + tail, c, rest)
  {
    assert [head][0] == head;
  }

  lemma HeadBeforeTail(s: Setting, c: Carry, rest: seq<Record>, after: Carry, tail: seq<Record>, i: nat)
    requires JobState(s, c, rest) && StrictlyCoherent(c, rest) && rest != [] && Visit(s, c, rest).out.Some?
    requires after == AfterOutput(Visit(s, c, rest).carry, true) || after == AfterOutput(Visit(s, c, rest).carry, false)
    requires tail == Run(s, after, rest[Visit(s, c, rest).used..], false) && i < |tail|
    requires rest[0].key <= tail[i].key
    requires after.hasKey && tail[i].key == after.key ==> tail[i].sequence < after.sequence
    ensures StrictlyInOrder(Prepare(s, Visit(s, c, rest).out.value), tail[i])
  {
    var t := Visit(s, c, rest);
    var next := rest[t.used..];
    VisitKeepsCoherence(s, c, rest);
    JobStateNext(s, c, rest, true);
    JobStateNext(s, c, rest, false);
    assert tail[i].key == rest[0].key ==> HasKey(tail, rest[0].key);
    if !t.carry.hasKey {
      if |rest| > 1 { SortedPair(rest, 0, 1); }
      KeyPassed(next, rest[0].key);
      RunAddsNoKeys(s, after, next, false, rest[0].key);
    } else if Zeroable(s, t.out.value) {
      TombstonesAreNeverZeroed(s, c, rest);
      EarliestStripe(s.snapshots, rest[0].sequence);
      NothingAfterOldestStripe(s, after, next, false);
    }
  }

  /** The same with a snapshot at 0, where squashing changes nothing. */
  lemma {:induction false} RunStrictlySortedAtZero(s: Setting, c: Carry, rest: seq<Record>, first: bool)
    requires ValidSetting(s) && Coherent(s, c, rest) && StrictlyCoherent(c, rest) && Earliest(s.snapshots) == 0
    ensures StrictlySorted(Run(s, c, rest, first)) && Follows(Run(s, c, rest, first), c, rest)
    decreases |rest|
  {
    if rest == [] {
      return;
    }
    var t, after, next, firstNext := RunTurn(s, c, rest, first);
    var tail := Run(s, after, next, firstNext);
    StrictlyCoherentNext(s, c, rest, after);
    RunStrictlySortedAtZero(s, after, next, firstNext);
    FollowsEarlier(s, c, rest, after, tail);
    if t.out.Some? {
      UnsquashedBeforeTail(s, c, rest, after, tail);
      HeadFollows(s, c, rest);
      StrictCons(Prepare(s, t.out.value), tail, c, rest);
    } else {
      assert [] + tail == tail;
    }
  }

  lemma UnsquashedBeforeTail(s: Setting, c: Carry, rest: seq<Record>, after: Carry, tail: seq<Record>)
    requires ValidSetting(s) && Coherent(s, c, rest) && Earliest(s.snapshots) == 0 && rest != [] && Visit(s, c, rest).out.Some?
    requires after == AfterOutput(Visit(s, c, rest).carry, true) || after == AfterOutput(Visit(s, c, rest).carry, false)
    requires tail == Run(s, after, rest[Visit(s, c, rest).used..], false)
    requires Follows(tail, after, rest[Visit(s, c, rest).used..]) && Follows(tail, c, rest)
    ensures forall i :: 0 <= i < |tail| ==> StrictlyInOrder(Prepare(s, Visit(s, c, rest).out.value), tail[i])
  {
    var t := Visit(s, c, rest);
    var next := rest[t.used..];
    VisitKeepsCoherence(s, c, rest);
    if !t.carry.hasKey {
      if |rest| > 1 { SortedPair(rest, 0, 1); }
      KeyPassed(next, rest[0].key);
      RunAddsNoKeys(s, after, next, false, rest[0].key);
    }
  }
}
