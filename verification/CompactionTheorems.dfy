/** The read guarantees of a whole compaction, and exactly where they stop. */
module CompactionTheorems {
  import opened Wrappers
  import opened Records
  import opened Snapshots
  import opened CompactionPlan
  import opened CompactionSteps
  import opened CompactionReads
  import opened SingleDeleteReads

  ghost function Compacted(s: Setting, input: seq<Record>): seq<Record> {
    Run(s, START, input, true)
  }

  /** How a key may have been written: Put and Delete, or Put and SingleDelete without overwriting. */
  ghost predicate UsageContract(s: Setting, input: seq<Record>, deeper: seq<Record>, key: int) {
    || (NoSingleDeletes(input, key) && NewestCounts(s, input, key))
    || (SingleDeleteHistory(input + deeper, key) && ZeroPutsCount(s, START, input, key, 0))
  }

  /** No live reader of a key written within its contract can tell that the compaction happened. */
  lemma CompactionPreservesReads(s: Setting, input: seq<Record>, deeper: seq<Record>, key: int, at: nat)
    requires ValidSetting(s) && Sorted(input) && Sequenced(input) && Live(s.snapshots, at)
    requires UsageContract(s, input, deeper, key)
    requires LevelTestHonest(s, deeper, key)
    ensures Read(Compacted(s, input) + deeper, key, at) == Read(input + deeper, key, at)
  {
    if NoSingleDeletes(input, key) && NewestCounts(s, input, key) {
      PutDeleteReads(s, START, input, true, deeper, key, at);
      VisibleMember(input, key, at);
      VisibleAppend(input, deeper, key, at);
      VisibleOnlyIfPresent(deeper, key, at);
    } else {
      HonestUncoversNothing(s, input, deeper, key);
      SingleDeleteKeyReads(s, START, input, true, deeper, key, at);
    }
  }

  // ---- write-conflict checking ----

  /** A SingleDelete directly over another one of its key. */
  ghost predicate DoubleSingleDelete(rest: seq<Record>) {
    |rest| > 1 && rest[0].kind.SingleDeletion? && rest[1].kind.SingleDeletion? && rest[1].key == rest[0].key
  }

  /** The newest version of the key is not a SingleDelete over a SingleDelete. */
  ghost predicate NewestStandsAlone(s: seq<Record>, key: int) {
    s == [] || if s[0].key == key then !DoubleSingleDelete(s) else NewestStandsAlone(s[1..], key)
  }

  /** No version of the key sits at sequence 0 under a snapshot at 0. */
  ghost predicate AllCount(s: Setting, rest: seq<Record>, key: int) {
    forall i :: 0 <= i < |rest| && rest[i].key == key ==> Stripe(s.snapshots, rest[i].sequence) > 0
  }

  /** A recent version comes through, or is a SingleDelete that leaves the word to the SingleDelete under it. */
  ghost predicate StandsFor(out: Record, r: Record, writeConflict: nat) {
    out.sequence > writeConflict && (out == r || (out.key == r.key && out.kind.SingleDeletion? && r.kind.SingleDeletion?))
  }

  /**
   * A transaction that began at or after the write-conflict boundary still sees that the key was written after
   * it: the newest version comes through with its sequence number, whatever its kind. Of SingleDeletes in a row
   * a later one may come through instead, and it is after the boundary too.
   */
  lemma {:induction false} NewestSurvivesForConflictCheck(s: Setting, c: Carry, rest: seq<Record>, first: bool, key: int)
    requires ValidSetting(s) && Coherent(s, c, rest) && Live(s.snapshots, s.writeConflict)
    requires !(c.hasKey && c.key == key)
    requires Newest(rest, key).Some? && Newest(rest, key).value.sequence > s.writeConflict
    requires NewestStandsAlone(rest, key) || AllCount(s, rest, key)
    ensures var out := Newest(Run(s, c, rest, first), key);
            out.Some? && StandsFor(out.value, Newest(rest, key).value, s.writeConflict)
    ensures NewestStandsAlone(rest, key) ==> Newest(Run(s, c, rest, first), key) == Newest(rest, key)
    decreases |rest|
  {
    hide Visit, Run, Sorted, Sequenced, ValidSnapshots, ValidPlan;
    if rest[0].key == key {
      RecentVersionSurvives(s, c, rest, first);
    } else {
      var t, after, next, firstNext := RunTurn(s, c, rest, first);
      var head := if t.out.None? then [] else [Prepare(s, t.out.value)];
      NewestAppend(head, Run(s, after, next, firstNext), key);
      VisitKeepsCoherence(s, c, rest);
      SkipOthers(rest, t.used, key, 0);
      StandsAloneNext(rest, t.used, key);
      NewestSurvivesForConflictCheck(s, after, next, firstNext, key);
    }
  }

  lemma StandsAloneNext(rest: seq<Record>, n: nat, key: int)
    requires 1 <= n <= 2 && n <= |rest| && rest[0].key != key && (n == 2 ==> rest[1].key != key)
    ensures NewestStandsAlone(rest, key) <==> NewestStandsAlone(rest[n..], key)
  {
    if n == 2 { assert rest[1..][0] == rest[1] && rest[1..][1..] == rest[2..]; }
  }

  lemma {:induction false} RecentVersionSurvives(s: Setting, c: Carry, rest: seq<Record>, first: bool)
    requires ValidSetting(s) && Coherent(s, c, rest) && Live(s.snapshots, s.writeConflict)
    requires rest != [] && rest[0].sequence > s.writeConflict
    requires Fresh(c, rest[0]) || (rest[0].kind.SingleDeletion? && !c.outputted && !c.clearNext)
    requires DoubleSingleDelete(rest) ==> AllCount(s, rest, rest[0].key)
    ensures var out := Newest(Run(s, c, rest, first), rest[0].key);
            && out.Some? && StandsFor(out.value, rest[0], s.writeConflict)
            && (!DoubleSingleDelete(rest) ==> out == Some(rest[0]))
    decreases |rest|
  {
    var t, after, next, firstNext := RunTurn(s, c, rest, first);
    RecentTurn(s, c, rest);
    if t.out.Some? {
      assert Run(s, c, rest, first)[0] == rest[0];
    } else {
      assert [] + Run(s, after, next, firstNext) == Run(s, after, next, firstNext);
      RecentVersionSurvives(s, after, next, firstNext);
    }
  }

  lemma RecentTurn(s: Setting, c: Carry, rest: seq<Record>)
    requires ValidSetting(s) && Coherent(s, c, rest) && Live(s.snapshots, s.writeConflict)
    requires rest != [] && rest[0].sequence > s.writeConflict
    requires Fresh(c, rest[0]) || (rest[0].kind.SingleDeletion? && !c.outputted && !c.clearNext)
    requires DoubleSingleDelete(rest) ==> AllCount(s, rest, rest[0].key)
    ensures var t := Visit(s, c, rest);
            || (t.out == Some(rest[0]) && Prepare(s, rest[0]) == rest[0])
            || (t.out.None? && t.used == 1 && DoubleSingleDelete(rest) && rest[1].sequence > s.writeConflict
                && !t.carry.outputted && !t.carry.clearNext)
  {
    EarliestStripe(s.snapshots, rest[0].sequence);
    EarliestStripe(s.snapshots, s.writeConflict);
    StripeIsLeast(s.snapshots, rest[0].sequence);
    StripeDecidesVisibility(s.snapshots, rest[0].sequence, s.writeConflict);
    if DoubleSingleDelete(rest) {
      SortedPair(rest, 0, 1);
      SameStripeTest(s.snapshots, rest[0].sequence, rest[1].sequence);
      StripeDecidesVisibility(s.snapshots, rest[1].sequence, s.writeConflict);
    }
  }
}
