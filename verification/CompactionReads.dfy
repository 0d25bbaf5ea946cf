/** Compaction preserves what every live reader sees. */
module CompactionReads {
  import opened Wrappers
  import opened Records
  import opened Snapshots
  import opened CompactionSteps

  // ---- keys written with Put and Delete only ----

  ghost predicate NoSingleDeletes(s: seq<Record>, key: int) {
    forall i :: 0 <= i < |s| && s[i].key == key ==> !s[i].kind.SingleDeletion?
  }

  /** The newest input version of the key is not sitting at sequence 0 under a snapshot at 0. */
  ghost predicate NewestCounts(s: Setting, rest: seq<Record>, key: int) {
    Newest(rest, key).Some? ==> Stripe(s.snapshots, Newest(rest, key).value.sequence) > 0
  }

  ghost function Answer(r: Record): Option<string> {
    if r.kind.Value? then Some(r.value) else None
  }

  /** What compaction makes of a read: the old answer, except that a dropped tombstone is transparent. */
  ghost function ReadAfter(s: Setting, input: seq<Record>, deeper: seq<Record>, key: int, at: nat): Option<string> {
    match Visible(input, key, at)
    case None => Read(deeper, key, at)
    case Some(v) => if v.kind.Deletion? && Obsolete(s, v) then Read(deeper, key, at) else Answer(v)
  }

  /** `out` followed by `tail`, read at `at`, when `out` is a (possibly zeroed) record of the input. */
  lemma ReadThroughOutput(s: Setting, r: Record, tail: seq<Record>, deeper: seq<Record>, key: int, at: nat)
    requires ValidSetting(s) && Live(s.snapshots, at) && r.sequence <= MAX_SEQUENCE
    ensures Read([Prepare(s, r)] + tail + deeper, key, at) ==
            if r.key == key && r.sequence <= at then Answer(r) else Read(tail + deeper, key, at)
  {
    var p := Prepare(s, r);
    EarliestStripe(s.snapshots, r.sequence);
    assert ([p] + tail + deeper)[1..] == tail + deeper;
  }

  /** Every record of `key` in `run` lies in a stripe older than `snapshot`. */
  ghost predicate AllOlder(s: Setting, run: seq<Record>, key: int, snapshot: nat) {
    forall i :: 0 <= i < |run| && run[i].key == key ==>
                  run[i].sequence <= MAX_SEQUENCE && Stripe(s.snapshots, run[i].sequence) < snapshot
  }

  lemma PutDeleteTurn(s: Setting, c: Carry, rest: seq<Record>)
    requires ValidSetting(s) && Coherent(s, c, rest) && c.hasKey && !c.clearNext
    requires rest != [] && rest[0].key == c.key && !rest[0].kind.SingleDeletion?
    ensures var t := Visit(s, c, rest);
            && t.used == 1 && !t.carry.clearNext && t.carry.hasKey && t.carry.key == c.key
            && t.carry.snapshot <= c.snapshot
            && (t.out.Some? ==> t.carry.snapshot < c.snapshot && AllOlder(s, [Prepare(s, t.out.value)], c.key, c.snapshot))
  {
    StripeMonotone(s.snapshots, rest[0].sequence, c.sequence);
    EarliestStripe(s.snapshots, rest[0].sequence);
    EarliestStripe(s.snapshots, 0);
  }

  /** Later versions of the current key that survive lie in strictly older stripes. */
  lemma {:induction false} SurvivorsAreOlder(s: Setting, c: Carry, rest: seq<Record>, first: bool)
    requires ValidSetting(s) && Coherent(s, c, rest) && c.hasKey && NoSingleDeletes(rest, c.key) && !c.clearNext
    ensures AllOlder(s, Run(s, c, rest, first), c.key, c.snapshot)
    decreases |rest|
  {
    if rest == [] || rest[0].key != c.key {
      KeyPassed(rest, c.key);
      RunAddsNoKeys(s, c, rest, first, c.key);
    } else {
      var t, after, next, firstNext := RunTurn(s, c, rest, first);
      PutDeleteTurn(s, c, rest);
      assert NoSingleDeletes(next, c.key);
      SurvivorsAreOlder(s, after, next, firstNext);
      var head := if t.out.None? then [] else [Prepare(s, t.out.value)];
      AllOlderAppend(s, head, Run(s, after, next, firstNext), c.key, after.snapshot, c.snapshot);
    }
  }

  lemma AllOlderAppend(s: Setting, head: seq<Record>, tail: seq<Record>, key: int, low: nat, high: nat)
    requires AllOlder(s, head, key, high) && AllOlder(s, tail, key, low) && low <= high
    ensures AllOlder(s, head + tail, key, high)
  {
  }

  /** Past the oldest stripe's newest version, the run says nothing more about the key. */
  lemma NothingBelowOldestStripe(s: Setting, c: Carry, rest: seq<Record>, first: bool,
                                 deeper: seq<Record>, key: int, at: nat)
    requires ValidSetting(s) && Coherent(s, c, rest) && NoSingleDeletes(rest, key)
    requires c.hasKey && c.key == key && !c.clearNext && c.sequence <= Earliest(s.snapshots)
    ensures Read(Run(s, c, rest, first) + deeper, key, at) == Read(deeper, key, at)
  {
    var run := Run(s, c, rest, first);
    EarliestStripe(s.snapshots, c.sequence);
    SurvivorsAreOlder(s, c, rest, first);
    forall i | 0 <= i < |run|
      ensures run[i].key != key
    {
      if run[i].key == key {
        EarliestStripe(s.snapshots, run[i].sequence);
      }
    }
    VisibleOnlyIfPresent(run, key, at);
    VisibleAppend(run, deeper, key, at);
  }

  /** The part of a read that one turn settles. */
  lemma ReadTurn(s: Setting, out: Option<Record>, tail: seq<Record>, deeper: seq<Record>, key: int, at: nat)
    requires ValidSetting(s) && Live(s.snapshots, at) && (out.Some? ==> out.value.sequence <= MAX_SEQUENCE)
    ensures Read((if out.None? then [] else [Prepare(s, out.value)]) + tail + deeper, key, at) ==
            if out.Some? && out.value.key == key && out.value.sequence <= at then Answer(out.value)
            else Read(tail + deeper, key, at)
  {
    if out.None? {
      assert [] + tail + deeper == tail + deeper;
    } else {
      ReadThroughOutput(s, out.value, tail, deeper, key, at);
    }
  }

  /** Records of other keys are invisible to a reader of `key`. */
  lemma SkipOthers(rest: seq<Record>, n: nat, key: int, at: nat)
    requires 1 <= n <= 2 && n <= |rest| && rest[0].key != key && (n == 2 ==> rest[1].key != key)
    ensures Visible(rest, key, at) == Visible(rest[n..], key, at)
    ensures Newest(rest, key) == Newest(rest[n..], key)
  {
    if n == 2 { assert rest[1..][1..] == rest[2..]; }
  }

  /** A version that a reader would have found, and that is not put out, is an obsolete tombstone. */
  lemma OnlyObsoleteTombstonesVanish(s: Setting, c: Carry, rest: seq<Record>, key: int, at: nat)
    requires ValidSetting(s) && Coherent(s, c, rest) && Live(s.snapshots, at)
    requires rest != [] && rest[0].key == key && rest[0].sequence <= at && !rest[0].kind.SingleDeletion?
    requires Fresh(c, rest[0]) ==> Stripe(s.snapshots, rest[0].sequence) > 0
    requires !Fresh(c, rest[0]) ==> at < c.sequence && !c.clearNext
    requires Visit(s, c, rest).out.None?
    ensures rest[0].kind.Deletion? && Obsolete(s, rest[0])
    ensures Visit(s, c, rest).carry.sequence <= Earliest(s.snapshots) && !Visit(s, c, rest).carry.clearNext
  {
    // Not hidden: the reader sees this version but not the last one, so their stripes differ.
    StripeDecidesVisibility(s.snapshots, rest[0].sequence, at);
    if !Fresh(c, rest[0]) { StripeDecidesVisibility(s.snapshots, c.sequence, at); }
  }

  /** What the read lemma for Put/Delete keys asks of the carry. */
  ghost predicate PutDeleteState(s: Setting, c: Carry, rest: seq<Record>, key: int, at: nat) {
    && ValidSetting(s) && Coherent(s, c, rest) && Live(s.snapshots, at)
    && NoSingleDeletes(rest, key)
    && (!(c.hasKey && c.key == key) ==> NewestCounts(s, rest, key))
    && (c.hasKey && c.key == key ==> at < c.sequence && !c.clearNext)
  }

  /** The state carries over whenever the turn has not settled the read. */
  lemma PutDeleteStateNext(s: Setting, c: Carry, rest: seq<Record>, first: bool, key: int, at: nat)
    requires PutDeleteState(s, c, rest, key, at) && rest != []
    requires rest[0].key != key || rest[0].sequence > at
    ensures var t := Visit(s, c, rest);
            var after := if t.out.None? then t.carry else AfterOutput(t.carry, first);
            PutDeleteState(s, after, rest[t.used..], key, at)
  {
    var t := Visit(s, c, rest);
    VisitKeepsCoherence(s, c, rest);
    assert NoSingleDeletes(rest[t.used..], key);
    if rest[0].key != key {
      SkipOthers(rest, t.used, key, at);
      NoMoreOfKeyOnceLeft(c, rest, key, s);
    }
  }

  /** Read-back of a Put/Delete key, exactly, for any carry and any deeper data. */
  lemma {:induction false} PutDeleteReads(s: Setting, c: Carry, rest: seq<Record>, first: bool,
                                          deeper: seq<Record>, key: int, at: nat)
    requires PutDeleteState(s, c, rest, key, at)
    ensures Read(Run(s, c, rest, first) + deeper, key, at) == ReadAfter(s, rest, deeper, key, at)
    decreases |rest|
  {
    if rest == [] {
      assert Run(s, c, rest, first) + deeper == deeper;
      return;
    }
    var r := rest[0];
    var t, after, next, firstNext := RunTurn(s, c, rest, first);
    ReadTurn(s, t.out, Run(s, after, next, firstNext), deeper, key, at);
    if r.key != key || r.sequence > at {
      PutDeleteStateNext(s, c, rest, first, key, at);
      PutDeleteReads(s, after, next, firstNext, deeper, key, at);
      UnseenByReader(s, c, rest, deeper, key, at);
    } else {
      SettledByReader(s, c, rest, first, deeper, key, at);
    }
  }

  lemma UnseenByReader(s: Setting, c: Carry, rest: seq<Record>, deeper: seq<Record>, key: int, at: nat)
    requires PutDeleteState(s, c, rest, key, at) && rest != []
    requires rest[0].key != key || rest[0].sequence > at
    ensures var t := Visit(s, c, rest);
            && ReadAfter(s, rest, deeper, key, at) == ReadAfter(s, rest[t.used..], deeper, key, at)
            && (t.out.Some? ==> t.out.value.sequence <= MAX_SEQUENCE)
            && (t.out.Some? ==> t.out.value.key != key || t.out.value.sequence > at)
  {
    VisitKeepsCoherence(s, c, rest);
    if rest[0].key != key {
      SkipOthers(rest, Visit(s, c, rest).used, key, at);
    }
  }

  lemma SettledByReader(s: Setting, c: Carry, rest: seq<Record>, first: bool, deeper: seq<Record>, key: int, at: nat)
    requires PutDeleteState(s, c, rest, key, at) && rest != []
    requires rest[0].key == key && rest[0].sequence <= at
    ensures var t := Visit(s, c, rest);
            if t.out.Some? then t.out.value.key == key && t.out.value.sequence <= at &&
                                Answer(t.out.value) == ReadAfter(s, rest, deeper, key, at)
            else Read(Run(s, t.carry, rest[t.used..], first) + deeper, key, at) == ReadAfter(s, rest, deeper, key, at)
  {
    var t := Visit(s, c, rest);
    VisitKeepsCoherence(s, c, rest);
    assert NoSingleDeletes(rest[t.used..], key);
    if t.out.None? {
      OnlyObsoleteTombstonesVanish(s, c, rest, key, at);
      NothingBelowOldestStripe(s, t.carry, rest[t.used..], first, deeper, key, at);
    }
  }

  /** Once the loop has left a key behind, the sorted input has no more of it. */
  lemma NoMoreOfKeyOnceLeft(c: Carry, rest: seq<Record>, key: int, s: Setting)
    requires Coherent(s, c, rest) && rest != [] && rest[0].key != key
    ensures c.hasKey && c.key == key ==> Newest(rest, key).None?
  {
    NewestMember(rest, key);
    if c.hasKey && c.key == key {
      forall i | 0 <= i < |rest|
        ensures rest[i].key != key
      {
        if 0 < i { SortedPair(rest, 0, i); }
      }
    }
  }
}
