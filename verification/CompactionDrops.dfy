/** What a compaction must not keep: eliminated pairs, doubled SingleDeletes, obsolete tombstones, sequence numbers. */
module CompactionDrops {
  import opened Wrappers
  import opened Records
  import opened Snapshots
  import opened LevelFiles
  import opened CompactionPlan
  import opened CompactionSteps
  import opened CompactionReads
  import opened SingleDeleteReads
  import opened CompactionOrder

  // ---- where output comes from ----

  /** Output is an input record, possibly with its sequence number squashed or its value cleared. */
  ghost predicate ComesFrom(s: Setting, o: Record, r: Record) {
    && o.key == r.key && o.kind == r.kind && (o.value == r.value || o.value == "")
    && (|| o.sequence == r.sequence
        || (o.sequence == 0 && s.plan.Some? && s.plan.value.bottommost && r.sequence <= Earliest(s.snapshots)
            && r.key != s.plan.value.largest))
  }

  /** Every output record comes from an input record. */
  lemma {:induction false} OutputComesFromInput(s: Setting, c: Carry, rest: seq<Record>, first: bool, o: Record)
    requires ValidSetting(s) && Coherent(s, c, rest) && o in Run(s, c, rest, first)
    ensures exists r :: r in rest && ComesFrom(s, o, r)
    decreases |rest|
  {
    if rest != [] {
      var t, after, next, firstNext := RunTurn(s, c, rest, first);
      VisitKeepsCoherence(s, c, rest);
      if t.out.Some? && o == Prepare(s, t.out.value) {
        assert rest[0] in rest && ComesFrom(s, o, rest[0]);
      } else {
        OutputComesFromInput(s, after, next, firstNext, o);
        var r :| r in next && ComesFrom(s, o, r);
        assert r in rest;
      }
    }
  }

  /** Squashing, without the guard's own words: what is left unsquashed is too new, or has the largest key. */
  lemma {:induction false} SquashedWherePossible(s: Setting, c: Carry, rest: seq<Record>, first: bool, o: Record)
    requires ValidSetting(s) && Coherent(s, c, rest) && o in Run(s, c, rest, first)
    ensures s.plan.Some? && s.plan.value.bottommost && o.key != s.plan.value.largest ==>
              o.sequence == 0 || o.sequence > Earliest(s.snapshots)
    ensures s.plan.None? || !s.plan.value.bottommost || o.key == s.plan.value.largest ==>
              exists r :: r in rest && r.key == o.key && r.kind == o.kind && r.sequence == o.sequence
    decreases |rest|
  {
    if rest != [] {
      var t, after, next, firstNext := RunTurn(s, c, rest, first);
      VisitKeepsCoherence(s, c, rest);
      if t.out.Some? && o == Prepare(s, t.out.value) {
        assert rest[0] in rest;
      } else {
        SquashedWherePossible(s, after, next, firstNext, o);
        assert forall r :: r in next ==> r in rest;
      }
    }
  }

  // ---- SingleDeletes and what lies right under them ----

  /** No record of the key is put out with a sequence number from `low` to `high`. */
  ghost predicate NoneBetween(run: seq<Record>, key: int, low: nat, high: nat) {
    forall o :: o in run && o.key == key ==> o.sequence < low || o.sequence > high
  }

  /** `rest[i]` is a SingleDelete, and the version right under it is in its stripe. */
  ghost predicate Joined(s: Setting, rest: seq<Record>, i: nat) {
    && i + 1 < |rest| && rest[i].kind.SingleDeletion? && rest[i + 1].key == rest[i].key
    && Stripe(s.snapshots, rest[i + 1].sequence) == Stripe(s.snapshots, rest[i].sequence)
  }

  /** A newer record of the key has been put out, and it was not the first record of the whole run. */
  ghost predicate Marked(run: seq<Record>, first: bool, key: int, sequence: nat) {
    exists p :: (if first then 1 else 0) <= p < |run| && run[p].key == key && run[p].sequence > sequence
  }

  /** The same for a run that continues with the carry `c`. */
  ghost predicate MarkedSoFar(s: Setting, c: Carry, rest: seq<Record>, first: bool, i: nat)
    requires i < |rest|
  {
    || (c.hasKey && c.key == rest[i].key && c.outputted)
    || Marked(Run(s, c, rest, first), first, rest[i].key, rest[i].sequence)
  }

  ghost predicate PairState(s: Setting, c: Carry, rest: seq<Record>, i: nat) {
    ValidSetting(s) && Coherent(s, c, rest) && StrictlySorted(rest) && Joined(s, rest, i)
  }

  /** Before the SingleDelete comes up, a turn puts out newer versions or other keys, and leaves the pair alone. */
  lemma PairNext(s: Setting, c: Carry, rest: seq<Record>, first: bool, i: nat)
    requires PairState(s, c, rest, i) && i > 0
    ensures var t := Visit(s, c, rest);
            var after := if t.out.None? then t.carry else AfterOutput(t.carry, first);
            t.used <= i && PairState(s, after, rest[t.used..], i - t.used)
    ensures rest[0].key == rest[i].key ==> rest[0].sequence > rest[i].sequence
  {
    var t := Visit(s, c, rest);
    VisitKeepsCoherence(s, c, rest);
    assert StrictlyInOrder(rest[0], rest[i]);
    assert t.used <= i;
    var next := rest[t.used..];
    forall j, k | 0 <= j < k < |next|
      ensures StrictlyInOrder(next[j], next[k])
    {
      assert StrictlyInOrder(rest[j + t.used], rest[k + t.used]);
    }
  }

  /** A record that a turn puts out for another version than the pair's lies above the pair, or was squashed. */
  lemma OutputAbove(s: Setting, c: Carry, rest: seq<Record>, first: bool, i: nat)
    requires PairState(s, c, rest, i) && i > 0
    ensures var t := Visit(s, c, rest);
            t.out.Some? && t.out.value.key == rest[i].key ==>
              var o := Prepare(s, t.out.value);
              o.sequence == 0 || o.sequence > rest[i].sequence
    ensures var t := Visit(s, c, rest);
            t.out.Some? && t.out.value.key == rest[i].key && rest[i].sequence > Earliest(s.snapshots) ==>
              Prepare(s, t.out.value) == t.out.value && t.out.value.sequence > rest[i].sequence
  {
    VisitKeepsCoherence(s, c, rest);
    PairNext(s, c, rest, first, i);
  }

  /** Versions of the key behind a place are older than the one there. */
  lemma OlderBehind(rest: seq<Record>, n: nat)
    requires StrictlySorted(rest) && 0 < n <= |rest| && rest[n - 1].sequence > 0
    ensures forall j :: 0 <= j < |rest[n..]| && rest[n..][j].key == rest[n - 1].key ==>
              rest[n..][j].sequence <= rest[n - 1].sequence - 1
  {
    forall j | 0 <= j < |rest[n..]| && rest[n..][j].key == rest[n - 1].key
      ensures rest[n..][j].sequence <= rest[n - 1].sequence - 1
    {
      assert StrictlyInOrder(rest[n - 1], rest[n + j]);
    }
  }

  /** Of two SingleDeletes of one key and stripe in a row the newer one goes. */
  lemma {:induction false} DoubledGoes(s: Setting, c: Carry, rest: seq<Record>, first: bool, i: nat)
    requires PairState(s, c, rest, i) && rest[i + 1].kind.SingleDeletion?
    ensures NoneBetween(Run(s, c, rest, first), rest[i].key, rest[i].sequence, rest[i].sequence)
    decreases |rest|
  {
    var t, after, next, firstNext := RunTurn(s, c, rest, first);
    assert StrictlyInOrder(rest[i], rest[i + 1]);
    if i == 0 {
      SequencedAt(rest, 0);
      SameStripeTest(s.snapshots, rest[0].sequence, rest[1].sequence);
      assert t.out.None? && t.used == 1;
      OlderBehind(rest, 1);
      RunStaysLow(s, after, next, firstNext, rest[0].key, rest[0].sequence - 1);
      assert [] + Run(s, after, next, firstNext) == Run(s, after, next, firstNext);
    } else {
      PairNext(s, c, rest, first, i);
      OutputAbove(s, c, rest, first, i);
      DoubledGoes(s, after, next, firstNext, i - t.used);
      NoneBetweenTurn(s, t.out, Run(s, after, next, firstNext), rest[i].key, rest[i].sequence, rest[i].sequence);
    }
  }

  lemma NoneBetweenTurn(s: Setting, out: Option<Record>, tail: seq<Record>, key: int, low: nat, high: nat)
    requires NoneBetween(tail, key, low, high) && low > 0
    requires out.Some? && out.value.key == key ==>
               Prepare(s, out.value).sequence == 0 || Prepare(s, out.value).sequence > high
    ensures NoneBetween((if out.None? then [] else [Prepare(s, out.value)]) + tail, key, low, high)
  {
  }

  // ---- pairs ----

  /** Whether a newer record of the key has been put out is what the carry says when the pair comes up. */
  lemma MarkedAtPair(s: Setting, c: Carry, rest: seq<Record>, first: bool)
    requires PairState(s, c, rest, 0)
    ensures MarkedSoFar(s, c, rest, first, 0) <==> Observe(s, c, rest[0]).outputted
  {
    forall j | 0 <= j < |rest| && rest[j].key == rest[0].key
      ensures rest[j].sequence <= rest[0].sequence
    {
      if j > 0 { assert StrictlyInOrder(rest[0], rest[j]); }
    }
    RunStaysLow(s, c, rest, first, rest[0].key, rest[0].sequence);
  }

  /** The carry goes on saying it, turn by turn. */
  lemma MarkedNext(s: Setting, c: Carry, rest: seq<Record>, first: bool, i: nat)
    requires PairState(s, c, rest, i) && i > 0
    ensures var t := Visit(s, c, rest);
            var after := if t.out.None? then t.carry else AfterOutput(t.carry, first);
            t.used <= i &&
            var then' := MarkedSoFar(s, after, rest[t.used..], first && t.out.None?, i - t.used);
            && (MarkedSoFar(s, c, rest, first, i) ==> then')
            && (rest[i].sequence > Earliest(s.snapshots) && then' ==> MarkedSoFar(s, c, rest, first, i))
  {
    var t, after, next, firstNext := RunTurn(s, c, rest, first);
    PairNext(s, c, rest, first, i);
    OutputAbove(s, c, rest, first, i);
    CarriedMark(s, c, rest, first, i);
    var run, tail := Run(s, c, rest, first), Run(s, after, next, firstNext);
    var head := if t.out.None? then [] else [Prepare(s, t.out.value)];
    assert run == head + tail;
    hide Visit, Run, PairState;
    MarkedTail(head, tail, first, rest[i].key, rest[i].sequence);
  }

  lemma MarkedTail(head: seq<Record>, tail: seq<Record>, first: bool, key: int, sequence: nat)
    requires |head| <= 1
    ensures Marked(head + tail, first, key, sequence) <==>
            || Marked(tail, first && head == [], key, sequence)
            || (head != [] && !first && head[0].key == key && head[0].sequence > sequence)
  {
    var run := head + tail;
    assert forall p :: 0 <= p < |tail| ==> run[p + |head|] == tail[p];
    assert head != [] ==> run[0] == head[0];
    if p :| (if first && head == [] then 1 else 0) <= p < |tail| && tail[p].key == key && tail[p].sequence > sequence {
      assert run[p + |head|].key == key;
    }
    if p :| (if first then 1 else 0) <= p < |run| && run[p].key == key && run[p].sequence > sequence {
      if p >= |head| { assert tail[p - |head|].key == key; }
    }
  }

  /** The mark that the carry holds after one turn. */
  lemma CarriedMark(s: Setting, c: Carry, rest: seq<Record>, first: bool, i: nat)
    requires PairState(s, c, rest, i) && i > 0
    ensures var t := Visit(s, c, rest);
            var after := if t.out.None? then t.carry else AfterOutput(t.carry, first);
            (after.hasKey && after.key == rest[i].key && after.outputted) <==>
            || (c.hasKey && c.key == rest[i].key && c.outputted)
            || (t.out.Some? && !first && t.out.value.key == rest[i].key)
  {
    VisitKeepsCoherence(s, c, rest);
    assert StrictlyInOrder(rest[0], rest[i]);
    if i > 1 { assert StrictlyInOrder(rest[0], rest[1]) && StrictlyInOrder(rest[1], rest[i]); }
  }

  /** The pair is eliminated: nothing of it, and nothing between, is put out. */
  ghost predicate PairGone(run: seq<Record>, single: Record, ended: Record) {
    NoneBetween(run, single.key, ended.sequence, single.sequence)
  }

  /** The pair is retained: the SingleDelete as it is, the record under it without its value. */
  ghost predicate PairRetained(run: seq<Record>, single: Record, ended: Record) {
    single in run && ended.(value := "") in run
  }

  lemma FateBehind(s: Setting, out: Option<Record>, tail: seq<Record>, single: Record, ended: Record)
    requires ended.sequence > 0
    requires out.Some? && out.value.key == single.key ==>
               Prepare(s, out.value).sequence == 0 || Prepare(s, out.value).sequence > single.sequence
    ensures var run := (if out.None? then [] else [Prepare(s, out.value)]) + tail;
            && (PairGone(tail, single, ended) ==> PairGone(run, single, ended))
            && (PairRetained(tail, single, ended) ==> PairRetained(run, single, ended))
  {
    if PairGone(tail, single, ended) { NoneBetweenTurn(s, out, tail, single.key, ended.sequence, single.sequence); }
  }

  /**
   * The fate of a SingleDelete and the version it ends: both go if no conflict check can ask for them, or if a newer
   * record of the key has been put out; otherwise both stay.
   */
  lemma {:induction false} PairFate(s: Setting, c: Carry, rest: seq<Record>, first: bool, i: nat)
    requires PairState(s, c, rest, i) && !rest[i + 1].kind.SingleDeletion? && rest[i + 1].sequence > 0
    ensures rest[i].sequence <= s.writeConflict || MarkedSoFar(s, c, rest, first, i) ==>
              PairGone(Run(s, c, rest, first), rest[i], rest[i + 1])
    ensures rest[i].sequence > s.writeConflict >= Earliest(s.snapshots) && !MarkedSoFar(s, c, rest, first, i) ==>
              PairRetained(Run(s, c, rest, first), rest[i], rest[i + 1])
    decreases |rest|
  {
    if i == 0 {
      PairComesUp(s, c, rest, first);
    } else {
      var t, after, next, firstNext := RunTurn(s, c, rest, first);
      PairNext(s, c, rest, first, i);
      OutputAbove(s, c, rest, first, i);
      MarkedNext(s, c, rest, first, i);
      hide Visit, Run, MarkedSoFar, PairState, PairGone, PairRetained, Prepare, Earliest;
      PairFate(s, after, next, firstNext, i - t.used);
      FateBehind(s, t.out, Run(s, after, next, firstNext), rest[i], rest[i + 1]);
    }
  }

  lemma PairComesUp(s: Setting, c: Carry, rest: seq<Record>, first: bool)
    requires PairState(s, c, rest, 0) && !rest[1].kind.SingleDeletion? && rest[1].sequence > 0
    ensures rest[0].sequence <= s.writeConflict || MarkedSoFar(s, c, rest, first, 0) ==>
              PairGone(Run(s, c, rest, first), rest[0], rest[1])
    ensures rest[0].sequence > s.writeConflict >= Earliest(s.snapshots) && !MarkedSoFar(s, c, rest, first, 0) ==>
              PairRetained(Run(s, c, rest, first), rest[0], rest[1])
  {
    var t, after, next, firstNext := RunTurn(s, c, rest, first);
    MarkedAtPair(s, c, rest, first);
    SequencedAt(rest, 0);
    SequencedAt(rest, 1);
    assert StrictlyInOrder(rest[0], rest[1]);
    SameStripeTest(s.snapshots, rest[0].sequence, rest[1].sequence);
    EarliestStripe(s.snapshots, rest[0].sequence);
    EarliestStripe(s.snapshots, rest[1].sequence);
    var tail := Run(s, after, next, firstNext);
    if t.out.None? {
      assert t.used == 2;
      OlderBehind(rest, 2);
      RunStaysLow(s, after, next, firstNext, rest[0].key, rest[1].sequence - 1);
      assert [] + tail == tail;
    } else if s.writeConflict >= Earliest(s.snapshots) {
      var t2, after2, next2, firstNext2 := RunTurn(s, after, next, firstNext);
      assert Prepare(s, rest[0]) == rest[0] && Prepare(s, rest[1].(value := "")) == rest[1].(value := "");
      assert t2.out == Some(rest[1].(value := ""));
      assert tail[0] == rest[1].(value := "");
      assert Run(s, c, rest, first)[0] == rest[0] && Run(s, c, rest, first)[1] == tail[0];
    }
  }

  // ---- hidden versions ----

  /** A version that is no SingleDelete lies right under one of its key and stripe that is none either. */
  ghost predicate Hidden(s: Setting, rest: seq<Record>, i: nat) {
    && i + 1 < |rest| && rest[i + 1].key == rest[i].key && rest[i + 1].sequence > 0
    && !rest[i].kind.SingleDeletion? && !rest[i + 1].kind.SingleDeletion?
    && Stripe(s.snapshots, rest[i + 1].sequence) == Stripe(s.snapshots, rest[i].sequence)
  }

  ghost predicate HiddenState(s: Setting, c: Carry, rest: seq<Record>, i: nat) {
    ValidSetting(s) && Coherent(s, c, rest) && StrictlySorted(rest) && Hidden(s, rest, i)
  }

  /** No reader sees such a version, and it is not put out. */
  lemma {:induction false} HiddenGoes(s: Setting, c: Carry, rest: seq<Record>, first: bool, i: nat)
    requires HiddenState(s, c, rest, i)
    ensures NoneBetween(Run(s, c, rest, first), rest[i].key, rest[i + 1].sequence, rest[i + 1].sequence)
    decreases |rest|
  {
    var t, after, next, firstNext := RunTurn(s, c, rest, first);
    HiddenNext(s, c, rest, first, i);
    hide Visit, Run, HiddenState, NoneBetween, Prepare, Stripe;
    if t.used <= i {
      assert next[i - t.used] == rest[i] && next[i + 1 - t.used] == rest[i + 1];
      HiddenGoes(s, after, next, firstNext, i - t.used);
    }
    hide AfterOutput;
    NoneBetweenTurn(s, t.out, Run(s, after, next, firstNext), rest[i].key, rest[i + 1].sequence, rest[i + 1].sequence);
  }

  /** One turn towards the hidden version, or on to it. */
  lemma HiddenNext(s: Setting, c: Carry, rest: seq<Record>, first: bool, i: nat)
    requires HiddenState(s, c, rest, i)
    ensures rest[i + 1].sequence > 0
    ensures var t := Visit(s, c, rest);
            var after := if t.out.None? then t.carry else AfterOutput(t.carry, first);
            var next := rest[t.used..];
            && (t.out.Some? && t.out.value.key == rest[i].key ==>
                  Prepare(s, t.out.value).sequence == 0 || Prepare(s, t.out.value).sequence > rest[i + 1].sequence)
            && if t.used <= i
               then HiddenState(s, after, next, i - t.used)
               else NoneBetween(Run(s, after, next, first && t.out.None?), rest[i].key, rest[i + 1].sequence, rest[i + 1].sequence)
  {
    var t := Visit(s, c, rest);
    VisitKeepsCoherence(s, c, rest);
    StaysStrict(rest, t.used);
    TurnAbove(s, c, rest, i + 1);
    HiddenMoves(s, rest, i, t.used);
    if t.used > i { HiderIsCarried(s, c, rest, i); }
    hide Visit, Run, Stripe, Coherent, StrictlySorted, Hidden, NoneBetween, Prepare, ValidSetting;
    if t.used > i {
      HiddenNow(s, if t.out.None? then t.carry else AfterOutput(t.carry, first), rest[t.used..], first && t.out.None?);
    }
  }

  lemma HiddenMoves(s: Setting, rest: seq<Record>, i: nat, n: nat)
    requires Hidden(s, rest, i) && n <= |rest|
    ensures n <= i ==> Hidden(s, rest[n..], i - n)
    ensures rest[i + 1].sequence > 0 && rest[i].key == rest[i + 1].key && !rest[i + 1].kind.SingleDeletion?
    ensures n == i + 1 ==> rest[n..] != [] && rest[n..][0] == rest[i + 1]
  {
  }

  lemma StaysStrict(rest: seq<Record>, n: nat)
    requires StrictlySorted(rest) && n <= |rest|
    ensures StrictlySorted(rest[n..])
  {
    forall j, k | 0 <= j < k < |rest[n..]|
      ensures StrictlyInOrder(rest[n..][j], rest[n..][k])
    {
      assert StrictlyInOrder(rest[j + n], rest[k + n]);
    }
  }

  /** What a turn puts out lies above every later version, or was squashed. */
  lemma TurnAbove(s: Setting, c: Carry, rest: seq<Record>, i: nat)
    requires StrictlySorted(rest) && 0 < i < |rest|
    ensures var t := Visit(s, c, rest);
            t.out.Some? && t.out.value.key == rest[i].key ==>
              Prepare(s, t.out.value).sequence == 0 || Prepare(s, t.out.value).sequence > rest[i].sequence
  {
    assert StrictlyInOrder(rest[0], rest[i]);
  }

  /** The carry holds the hiding version's stripe when the hidden one comes up. */
  lemma HiderIsCarried(s: Setting, c: Carry, rest: seq<Record>, i: nat)
    requires HiddenState(s, c, rest, i) && Visit(s, c, rest).used > i
    ensures var t := Visit(s, c, rest);
            t.used == i + 1 && t.carry.hasKey && t.carry.key == rest[i + 1].key && !t.carry.clearNext &&
            t.carry.snapshot == Stripe(s.snapshots, rest[i + 1].sequence)
  {
    if i == 1 {
      SequencedAt(rest, 0);
      SequencedAt(rest, 1);
      assert StrictlyInOrder(rest[0], rest[1]) && StrictlyInOrder(rest[1], rest[2]);
      StripeIsLeast(s.snapshots, rest[1].sequence);
      SameStripeTest(s.snapshots, rest[0].sequence, rest[1].sequence);
    }
  }

  lemma HiddenNow(s: Setting, c: Carry, rest: seq<Record>, first: bool)
    requires ValidSetting(s) && Coherent(s, c, rest) && StrictlySorted(rest) && rest != [] && rest[0].sequence > 0
    requires c.hasKey && c.key == rest[0].key && !c.clearNext && c.snapshot == Stripe(s.snapshots, rest[0].sequence)
    requires !rest[0].kind.SingleDeletion?
    ensures NoneBetween(Run(s, c, rest, first), rest[0].key, rest[0].sequence, rest[0].sequence)
  {
    var t, after, next, firstNext := RunTurn(s, c, rest, first);
    assert t.out.None? && t.used == 1;
    VisitKeepsCoherence(s, c, rest);
    OlderBehind(rest, 1);
    RunStaysLow(s, after, next, firstNext, rest[0].key, rest[0].sequence - 1);
    assert [] + Run(s, after, next, firstNext) == Run(s, after, next, firstNext);
  }

  // ---- tombstones ----

  /** A file below the output level may hold the key; for universal compaction, something is left out at all. */
  ghost predicate MayLieDeeper(p: Plan, key: int) {
    if p.universal then !p.bottommost
    else exists l, i :: p.outputLevel < l < |p.levels| && 0 <= i < |p.levels[l]| && Covers(p.levels[l][i], key)
  }

  /** Every tombstone that is put out is newer than the oldest snapshot, or has something deeper to cover. */
  lemma {:induction false} KeptTombstonesAreNeeded(s: Setting, c: Carry, rest: seq<Record>, first: bool, o: Record)
    requires JobState(s, c, rest) && o in Run(s, c, rest, first) && !o.kind.Value?
    ensures s.plan.None? || o.sequence > Earliest(s.snapshots) || MayLieDeeper(s.plan.value, o.key)
    decreases |rest|
  {
    if rest != [] {
      var t, after, next, firstNext := RunTurn(s, c, rest, first);
      JobStateNext(s, c, rest, first);
      if t.out.Some? && o == Prepare(s, t.out.value) {
        TombstoneIsNeeded(s, c, rest);
      } else {
        KeptTombstonesAreNeeded(s, after, next, firstNext, o);
      }
    }
  }

  lemma TombstoneIsNeeded(s: Setting, c: Carry, rest: seq<Record>)
    requires JobState(s, c, rest) && rest != [] && Visit(s, c, rest).out.Some? && !Visit(s, c, rest).out.value.kind.Value?
    ensures var r := Visit(s, c, rest).out.value;
            s.plan.None? || Prepare(s, r).sequence > Earliest(s.snapshots) || MayLieDeeper(s.plan.value, r.key)
  {
    var r := rest[0];
    VisitKeepsCoherence(s, c, rest);
    TombstonesAreNeverZeroed(s, c, rest);
    EarliestStripe(s.snapshots, r.sequence);
    EarliestStripe(s.snapshots, s.writeConflict);
    if c.clearNext {
      SameStripeTest(s.snapshots, c.sequence, r.sequence);
    } else if |rest| > 1 && rest[1].key == r.key {
      SortedPair(rest, 0, 1);
      EarliestStripe(s.snapshots, rest[1].sequence);
      SameStripeTest(s.snapshots, r.sequence, rest[1].sequence);
    }
  }
}
