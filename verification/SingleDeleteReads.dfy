/** Read preservation for keys written with Put and SingleDelete. */
module SingleDeleteReads {
  import opened Wrappers
  import opened Records
  import opened Snapshots
  import opened CompactionPlan
  import opened CompactionSteps
  import opened CompactionReads

  /**
   * The SingleDelete contract over a key's whole stored history, newest version first: no Delete,
   * and a Put is never written over another Put without a SingleDelete in between.
   */
  ghost predicate SingleDeleteHistory(h: seq<Record>, key: int) {
    h == [] || (
      && SingleDeleteHistory(h[1..], key)
      && (h[0].key == key ==>
            && !h[0].kind.Deletion?
            && (Newest(h[1..], key).Some? ==>
                  && Newest(h[1..], key).value.sequence <= h[0].sequence
                  && (h[0].kind.Value? ==> Newest(h[1..], key).value.kind.SingleDeletion?))))
  }

  /**
   * `rest[i]` comes right after a version of its key, and that version has a snapshot other than 0 below it. To a
   * reader past 0 it is enough that `rest[i]` is the last of its key.
   */
  ghost predicate SetApart(s: Setting, c: Carry, rest: seq<Record>, i: nat, at: nat)
    requires i < |rest|
  {
    && (if i == 0 then c.hasKey && c.key == rest[0].key else rest[i - 1].key == rest[i].key)
    && (|| Previous(s.snapshots, if i == 0 then c.sequence else rest[i - 1].sequence) != 0
        || (at > 0 && (i + 1 < |rest| ==> rest[i + 1].key != rest[i].key)))
  }

  /** A Put of the key at sequence 0 under a snapshot at 0 is set apart from the version before it. */
  ghost predicate ZeroPutsCount(s: Setting, c: Carry, rest: seq<Record>, key: int, at: nat) {
    forall i :: 0 <= i < |rest| && rest[i].key == key && rest[i].kind.Value? && Stripe(s.snapshots, rest[i].sequence) == 0 ==>
                  SetApart(s, c, rest, i, at)
  }

  /** When the level test says a key is not beyond the output level, it is not. */
  ghost predicate LevelTestHonest(s: Setting, deeper: seq<Record>, key: int) {
    s.plan.Some? && NotBeyond(s.plan.value, key) ==> !HasKey(deeper, key)
  }

  /** The newest version behind the inputs is a Put. */
  ghost predicate PutNext(deeper: seq<Record>, key: int) {
    Newest(deeper, key).Some? && Newest(deeper, key).value.kind.Value?
  }

  /** A SingleDelete may fall through over a Put behind the inputs only where a Put of the input hides that Put. */
  ghost predicate NothingUncovered(s: Setting, rest: seq<Record>, deeper: seq<Record>, key: int) {
    s.plan.Some? && NotBeyond(s.plan.value, key) && PutNext(deeper, key) ==>
      Visible(rest, key, Earliest(s.snapshots)).Some? ==> Visible(rest, key, Earliest(s.snapshots)).value.kind.Value?
  }

  lemma HonestUncoversNothing(s: Setting, rest: seq<Record>, deeper: seq<Record>, key: int)
    requires LevelTestHonest(s, deeper, key)
    ensures NothingUncovered(s, rest, deeper, key)
  {
    NewestMember(deeper, key);
  }

  ghost predicate SingleDeleteState(s: Setting, c: Carry, rest: seq<Record>, deeper: seq<Record>, key: int, at: nat) {
    && ValidSetting(s) && Coherent(s, c, rest) && Live(s.snapshots, at)
    && SingleDeleteHistory(rest + deeper, key) && ZeroPutsCount(s, c, rest, key, at) && NothingUncovered(s, rest, deeper, key)
    && (c.hasKey && c.key == key && rest != [] && rest[0].key == key && rest[0].kind.Value? && !c.clearNext ==>
          Stripe(s.snapshots, rest[0].sequence) != c.snapshot)
    && (c.clearNext && c.key == key ==> at < c.sequence)
  }

  lemma HistoryTail(rest: seq<Record>, deeper: seq<Record>, n: nat, key: int)
    requires SingleDeleteHistory(rest + deeper, key) && n <= 2 && n <= |rest|
    ensures SingleDeleteHistory(rest[n..] + deeper, key)
  {
    if n > 0 {
      assert (rest + deeper)[1..] == rest[1..] + deeper;
    } else {
      assert rest[0..] == rest;
    }
    if n == 2 {
      assert (rest[1..] + deeper)[1..] == rest[2..] + deeper;
    }
  }

  lemma {:induction false} HistorySuffix(newer: seq<Record>, rest: seq<Record>, key: int)
    requires SingleDeleteHistory(newer + rest, key)
    ensures SingleDeleteHistory(rest, key)
  {
    if newer == [] {
      assert newer + rest == rest;
    } else {
      assert (newer + rest)[1..] == newer[1..] + rest;
      HistorySuffix(newer[1..], rest, key);
    }
  }

  /** What the contract says about a version and the one the look-ahead finds. */
  lemma HistoryPair(rest: seq<Record>, deeper: seq<Record>, key: int)
    requires SingleDeleteHistory(rest + deeper, key) && |rest| > 0 && rest[0].key == key
    ensures !rest[0].kind.Deletion?
    ensures |rest| > 1 && rest[1].key == key ==>
              !rest[1].kind.Deletion? && rest[1].sequence <= rest[0].sequence &&
              (rest[0].kind.Value? ==> rest[1].kind.SingleDeletion?)
  {
    assert (rest + deeper)[1..] == rest[1..] + deeper;
    if |rest| > 1 && rest[1].key == key {
      HistoryTail(rest, deeper, 1, key);
      assert (rest[1..] + deeper)[0] == rest[1];
    }
  }

  lemma {:induction false} HistoryNewest(h: seq<Record>, key: int)
    requires SingleDeleteHistory(h, key) && Newest(h, key).Some?
    ensures !Newest(h, key).value.kind.Deletion?
  {
    if h[0].key != key { HistoryNewest(h[1..], key); }
  }

  /** A SingleDelete at the head of a history, and a Put under it, both read as nothing. */
  lemma ReadsAsNothing(h: seq<Record>, key: int, at: nat)
    requires SingleDeleteHistory(h, key)
    requires Newest(h, key).Some? ==> Newest(h, key).value.kind.SingleDeletion? && Newest(h, key).value.sequence <= at
    ensures Read(h, key, at).None?
  {
    VisibleIsNewest(h, key, at);
  }

  /** One turn later the Puts at 0 are still set apart. */
  lemma ZeroPutsCountNext(s: Setting, c: Carry, rest: seq<Record>, first: bool, deeper: seq<Record>, key: int, at: nat)
    requires ValidSetting(s) && Coherent(s, c, rest) && rest != []
    requires SingleDeleteHistory(rest + deeper, key) && ZeroPutsCount(s, c, rest, key, at)
    ensures var t := Visit(s, c, rest);
            var after := if t.out.None? then t.carry else AfterOutput(t.carry, first);
            ZeroPutsCount(s, after, rest[t.used..], key, at)
  {
    var t := Visit(s, c, rest);
    var next := rest[t.used..];
    VisitKeepsCoherence(s, c, rest);
    assert forall i :: 0 <= i < |next| ==> next[i] == rest[i + t.used];
    if next != [] && next[0].key == key && t.used == 2 && rest[1].key == key {
      HistoryTail(rest, deeper, 1, key);
      HistoryPair(rest[1..], deeper, key);
    }
    var after := if t.out.None? then t.carry else AfterOutput(t.carry, first);
    forall i | 0 <= i < |next| && next[i].key == key && next[i].kind.Value? && Stripe(s.snapshots, next[i].sequence) == 0
      ensures SetApart(s, after, next, i, at)
    {
      assert SetApart(s, c, rest, i + t.used, at);
    }
  }

  lemma SingleDeleteStateNext(s: Setting, c: Carry, rest: seq<Record>, first: bool, deeper: seq<Record>, key: int, at: nat)
    requires SingleDeleteState(s, c, rest, deeper, key, at) && rest != []
    requires var t := Visit(s, c, rest); !(t.out.Some? && t.out.value.key == key && t.out.value.sequence <= at)
    ensures var t := Visit(s, c, rest);
            var after := if t.out.None? then t.carry else AfterOutput(t.carry, first);
            SingleDeleteState(s, after, rest[t.used..], deeper, key, at)
  {
    var t := Visit(s, c, rest);
    var next := rest[t.used..];
    VisitKeepsCoherence(s, c, rest);
    HistoryTail(rest, deeper, t.used, key);
    ZeroPutsCountNext(s, c, rest, first, deeper, key, at);
    if rest[0].key == key {
      HistoryPair(rest, deeper, key);
      if |rest| > 1 && rest[1].key == key {
        SameStripeTest(s.snapshots, rest[0].sequence, rest[1].sequence);
        if t.used == 2 {
          HistoryTail(rest, deeper, 1, key);
          HistoryPair(rest[1..], deeper, key);
        }
      }
    }
    NothingUncoveredNext(s, c, rest, deeper, key, at);
  }

  lemma NoMoreOfKey(rest: seq<Record>, key: int)
    requires Sorted(rest) && rest != [] && rest[0].key == key && (|rest| > 1 ==> rest[1].key != key)
    ensures !HasKey(rest[1..], key)
  {
    if |rest| > 1 { SortedPair(rest, 0, 1); }
    KeyPassed(rest[1..], key);
  }

  /** Past an eliminated pair the oldest snapshot finds what it found before, or the key has ended. */
  lemma PastPair(s: Setting, c: Carry, rest: seq<Record>, deeper: seq<Record>, key: int, at: nat)
    requires SingleDeleteState(s, c, rest, deeper, key, at) && |rest| > 1 && rest[0].key == key
    requires rest[0].kind.SingleDeletion? && Visit(s, c, rest).used == 2
    ensures var earliest := Earliest(s.snapshots);
            || Visible(rest[2..], key, earliest).None?
            || Visible(rest[2..], key, earliest) == Visible(rest, key, earliest)
            || rest[0].sequence <= earliest
  {
    var earliest := Earliest(s.snapshots);
    VisitKeepsCoherence(s, c, rest);
    HistoryPair(rest, deeper, key);
    SameStripeTest(s.snapshots, rest[0].sequence, rest[1].sequence);
    EarliestStripe(s.snapshots, rest[0].sequence);
    EarliestStripe(s.snapshots, rest[1].sequence);
    assert rest[1..][0] == rest[1] && rest[1..][1..] == rest[2..];
    if Stripe(s.snapshots, rest[0].sequence) != Stripe(s.snapshots, rest[1].sequence) {
      assert SetApart(s, c, rest, 1, at);
      SortedTail(rest, 1);
      NoMoreOfKey(rest[1..], key);
      VisibleOnlyIfPresent(rest[2..], key, earliest);
    }
  }

  lemma NothingUncoveredNext(s: Setting, c: Carry, rest: seq<Record>, deeper: seq<Record>, key: int, at: nat)
    requires SingleDeleteState(s, c, rest, deeper, key, at) && rest != []
    requires var t := Visit(s, c, rest); !(t.out.Some? && t.out.value.key == key && t.out.value.sequence <= at)
    ensures NothingUncovered(s, rest[Visit(s, c, rest).used..], deeper, key)
  {
    var t := Visit(s, c, rest);
    var earliest := Earliest(s.snapshots);
    VisitKeepsCoherence(s, c, rest);
    EarliestStripe(s.snapshots, rest[0].sequence);
    if rest[0].key != key {
      SkipOthers(rest, t.used, key, earliest);
    } else {
      HistoryPair(rest, deeper, key);
      if t.used == 2 {
        PastPair(s, c, rest, deeper, key, at);
      } else {
        assert rest[0].sequence > earliest ==> Visible(rest, key, earliest) == Visible(rest[1..], key, earliest);
      }
    }
  }

  /** A turn that puts out nothing the reader would take leaves the read to the rest of the input. */
  lemma UnsettledTurn(s: Setting, c: Carry, rest: seq<Record>, deeper: seq<Record>, key: int, at: nat)
    requires SingleDeleteState(s, c, rest, deeper, key, at) && rest != []
    requires var t := Visit(s, c, rest); !(t.out.Some? && t.out.value.key == key && t.out.value.sequence <= at)
    ensures Read(rest + deeper, key, at) == Read(rest[Visit(s, c, rest).used..] + deeper, key, at)
  {
    VisitKeepsCoherence(s, c, rest);
    if rest[0].key != key {
      SkipOtherKey(rest, deeper, Visit(s, c, rest).used, key, at);
    } else {
      HistoryPair(rest, deeper, key);
      if rest[0].kind.SingleDeletion? {
        UnsettledSingleDelete(s, c, rest, deeper, key, at);
      } else {
        UnsettledPut(s, c, rest, deeper, key, at);
      }
    }
  }

  lemma SkipOtherKey(rest: seq<Record>, deeper: seq<Record>, n: nat, key: int, at: nat)
    requires 1 <= n <= 2 && n <= |rest| && rest[0].key != key && (n == 2 ==> rest[1].key != key)
    ensures Read(rest + deeper, key, at) == Read(rest[n..] + deeper, key, at)
  {
    SkipOthers(rest + deeper, n, key, at);
    assert (rest + deeper)[n..] == rest[n..] + deeper;
  }

  lemma UnsettledPut(s: Setting, c: Carry, rest: seq<Record>, deeper: seq<Record>, key: int, at: nat)
    requires SingleDeleteState(s, c, rest, deeper, key, at) && rest != []
    requires var t := Visit(s, c, rest); !(t.out.Some? && t.out.value.key == key && t.out.value.sequence <= at)
    requires rest[0].key == key && rest[0].kind.Value?
    ensures Read(rest + deeper, key, at) == Read(rest[Visit(s, c, rest).used..] + deeper, key, at)
  {
    hide NothingUncovered, SingleDeleteHistory, ValidPlan, Sorted, Sequenced;
    assert (rest + deeper)[0] == rest[0] && (rest + deeper)[1..] == rest[1..] + deeper;
  }

  lemma UnsettledSingleDelete(s: Setting, c: Carry, rest: seq<Record>, deeper: seq<Record>, key: int, at: nat)
    requires SingleDeleteState(s, c, rest, deeper, key, at) && rest != []
    requires var t := Visit(s, c, rest); !(t.out.Some? && t.out.value.key == key && t.out.value.sequence <= at)
    requires rest[0].key == key && rest[0].kind.SingleDeletion?
    ensures Read(rest + deeper, key, at) == Read(rest[Visit(s, c, rest).used..] + deeper, key, at)
  {
    var t := Visit(s, c, rest);
    var r := rest[0];
    assert (rest + deeper)[1..] == rest[1..] + deeper;
    StripeDecidesVisibility(s.snapshots, r.sequence, at);
    if |rest| > 1 && rest[1].key == key {
      assert (rest[1..] + deeper)[0] == rest[1] && (rest[1..] + deeper)[1..] == rest[2..] + deeper;
      HistoryPair(rest, deeper, key);
      SameStripeTest(s.snapshots, r.sequence, rest[1].sequence);
      StripeDecidesVisibility(s.snapshots, rest[1].sequence, at);
      if t.used == 2 && r.sequence <= at {
        HistoryTail(rest, deeper, 1, key);
        HistoryTail(rest, deeper, 2, key);
        ReadsAsNothing(rest[2..] + deeper, key, at);
      } else if t.used == 2 {
        TestedPairIsSeenTogether(s.snapshots, r.sequence, rest[1].sequence, at);
        assert Visible(rest[1..] + deeper, key, at) == Visible(rest[2..] + deeper, key, at);
      } else if t.out.None? && r.sequence <= at {
        assert Visible(rest[1..] + deeper, key, at) == Some(rest[1]);
      }
    } else if t.out.None? && r.sequence <= at {
      forall i | 0 <= i < |rest[1..]|
        ensures rest[1..][i].key != key
      {
        if i > 0 { SortedPair(rest, 0, 1); SortedPair(rest, 1, i + 1); }
      }
      NewestMember(rest[1..], key);
      NewestAppend(rest[1..], deeper, key);
      HistoryTail(rest, deeper, 1, key);
      if Newest(deeper, key).Some? { HistoryNewest(rest[1..] + deeper, key); }
      ReadsAsNothing(rest[1..] + deeper, key, at);
    }
  }

  /** A record put out where the reader sees it is the one the reader would have found. */
  lemma SettledTurn(s: Setting, c: Carry, rest: seq<Record>, deeper: seq<Record>, key: int, at: nat)
    requires SingleDeleteState(s, c, rest, deeper, key, at) && rest != []
    requires var t := Visit(s, c, rest); t.out.Some? && t.out.value.key == key && t.out.value.sequence <= at
    ensures Read(rest + deeper, key, at) == Answer(Visit(s, c, rest).out.value)
  {
    VisitKeepsCoherence(s, c, rest);
    if c.clearNext {
      HistoryPair(rest, deeper, key);
      TestedPairIsSeenTogether(s.snapshots, c.sequence, rest[0].sequence, at);
      assert false;
    }
  }

  /** What the branch asserts that keeps a record under a retained SingleDelete: it is a Put of the same stripe. */
  lemma KeptRecordIsItsPut(s: Setting, c: Carry, rest: seq<Record>, deeper: seq<Record>)
    requires ValidSetting(s) && Coherent(s, c, rest) && c.clearNext
    requires SingleDeleteHistory(rest + deeper, c.key) && ZeroPutsCount(s, c, rest, c.key, 0)
    ensures rest[0].kind.Value? && Stripe(s.snapshots, rest[0].sequence) == LastSnapshot(c, rest[0])
    ensures Visit(s, c, rest).out == Some(rest[0].(value := ""))
  {
    HistoryPair(rest, deeper, c.key);
    SameStripeTest(s.snapshots, c.sequence, rest[0].sequence);
  }

  /** Put/SingleDelete keys read the same through pair elimination, retention and fall-through. */
  lemma {:induction false} SingleDeleteKeyReads(s: Setting, c: Carry, rest: seq<Record>, first: bool,
                                                deeper: seq<Record>, key: int, at: nat)
    requires SingleDeleteState(s, c, rest, deeper, key, at)
    ensures Read(Run(s, c, rest, first) + deeper, key, at) == Read(rest + deeper, key, at)
    decreases |rest|
  {
    if rest == [] {
      return;
    }
    var t, after, next, firstNext := RunTurn(s, c, rest, first);
    VisitKeepsCoherence(s, c, rest);
    ReadTurn(s, t.out, Run(s, after, next, firstNext), deeper, key, at);
    if t.out.Some? && t.out.value.key == key && t.out.value.sequence <= at {
      SettledTurn(s, c, rest, deeper, key, at);
    } else {
      SingleDeleteStateNext(s, c, rest, first, deeper, key, at);
      SingleDeleteKeyReads(s, after, next, firstNext, deeper, key, at);
      UnsettledTurn(s, c, rest, deeper, key, at);
    }
  }
}
