/** The record loop of a compaction as a function: one visit per turn of the loop. */
module CompactionSteps {
  import opened Wrappers
  import opened Records
  import opened Snapshots
  import opened CompactionPlan

  /** What an iterator is built with. A flush has no plan. */
  datatype Setting = Setting(snapshots: seq<nat>, writeConflict: nat, plan: Option<Plan>)

  /** What the iterator carries from one record to the next. */
  datatype Carry = Carry(hasKey: bool, key: int, sequence: nat, snapshot: nat, outputted: bool, clearNext: bool)

  /** One turn of the loop: the new carry, the record put out, and how many inputs it used up. */
  datatype Turn = Turn(carry: Carry, out: Option<Record>, used: nat)

  const START := Carry(false, 0, 0, 0, false, false)

  ghost predicate ValidSetting(s: Setting) {
    && ValidSnapshots(s.snapshots)
    && (s.plan.Some? ==> ValidPlan(s.plan.value))
  }

  /** A tombstone no live snapshot needs and, by the level test, nothing deeper needs. */
  ghost predicate Obsolete(s: Setting, r: Record) {
    s.plan.Some? && r.sequence <= Earliest(s.snapshots) && NotBeyond(s.plan.value, r.key)
  }

  ghost predicate Fresh(c: Carry, r: Record) {
    !c.hasKey || r.key != c.key
  }

  /** The carry after the bookkeeping every record gets, whatever becomes of it. */
  ghost function Observe(s: Setting, c: Carry, r: Record): Carry {
    Carry(true, r.key, r.sequence, Stripe(s.snapshots, r.sequence), !Fresh(c, r) && c.outputted, c.clearNext)
  }

  ghost function LastSnapshot(c: Carry, r: Record): nat {
    if Fresh(c, r) then 0 else c.snapshot
  }

  ghost function Visit(s: Setting, c: Carry, rest: seq<Record>): (t: Turn)
    requires rest != []
    ensures 1 <= t.used <= |rest|
  {
    var r := rest[0];
    var seen := Observe(s, c, r);
    if c.clearNext then Turn(seen.(clearNext := false), Some(r.(value := "")), 1)
    else if r.kind.SingleDeletion? then VisitSingleDelete(s, seen, rest)
    else if LastSnapshot(c, r) == seen.snapshot then Turn(seen, None, 1)
    else if r.kind.Deletion? && Obsolete(s, r) then Turn(seen, None, 1)
    else Turn(seen, Some(r), 1)
  }

  ghost function VisitSingleDelete(s: Setting, seen: Carry, rest: seq<Record>): (t: Turn)
    requires rest != []
    ensures 1 <= t.used <= |rest|
  {
    var r := rest[0];
    var previous := Previous(s.snapshots, r.sequence);
    if |rest| > 1 && rest[1].key == r.key then
      if previous == 0 || rest[1].sequence > previous then
        if rest[1].kind.SingleDeletion? then Turn(seen, None, 1)
        else if r.sequence <= s.writeConflict || seen.outputted then Turn(seen, None, 2)
        else Turn(seen.(clearNext := true), Some(r), 1)
      else Turn(seen, Some(r), 1)
    else if Obsolete(s, r) then Turn(seen.(hasKey := false), None, 1)
    else Turn(seen.(hasKey := false), Some(r), 1)
  }

  /** `PrepareOutput`: squash the sequence number where every reader already sees the record. */
  ghost function Prepare(s: Setting, r: Record): Record {
    if Zeroable(s, r) then r.(sequence := 0) else r
  }

  ghost predicate Zeroable(s: Setting, r: Record) {
    s.plan.Some? && s.plan.value.bottommost && r.sequence <= Earliest(s.snapshots) && r.key != s.plan.value.largest
  }

  /** `Next` marks the key as put out; the first record, found by `SeekToFirst`, is not marked. */
  ghost function AfterOutput(c: Carry, first: bool): Carry {
    if first then c else c.(outputted := true)
  }

  /** Everything the iterator will put out. */
  ghost function Run(s: Setting, c: Carry, rest: seq<Record>, first: bool): seq<Record>
    decreases |rest|
  {
    if rest == [] then []
    else
      var t := Visit(s, c, rest);
      if t.out.None? then Run(s, t.carry, rest[t.used..], first)
      else [Prepare(s, t.out.value)] + Run(s, AfterOutput(t.carry, first), rest[t.used..], false)
  }

  /** The carry describes the last record seen, and the rest of the input follows it. */
  ghost predicate Aligned(s: Setting, c: Carry, rest: seq<Record>) {
    && (c.hasKey ==> c.snapshot == Stripe(s.snapshots, c.sequence) && c.sequence <= MAX_SEQUENCE)
    && (c.hasKey && rest != [] ==> c.key < rest[0].key || (c.key == rest[0].key && c.sequence >= rest[0].sequence))
    && (c.clearNext ==> c.hasKey && rest != [] && rest[0].key == c.key && !rest[0].kind.SingleDeletion?
                        && !(Previous(s.snapshots, c.sequence) != 0 && rest[0].sequence <= Previous(s.snapshots, c.sequence)))
  }

  ghost predicate Coherent(s: Setting, c: Carry, rest: seq<Record>) {
    Sorted(rest) && Sequenced(rest) && Aligned(s, c, rest)
  }

  lemma VisitKeepsCoherence(s: Setting, c: Carry, rest: seq<Record>)
    requires ValidSetting(s) && Coherent(s, c, rest) && rest != []
    ensures var t := Visit(s, c, rest); Coherent(s, t.carry, rest[t.used..])
    ensures var t := Visit(s, c, rest);
            t.out.Some? ==>
              t.out.value.key == rest[0].key && t.out.value.sequence == rest[0].sequence &&
              t.out.value.kind == rest[0].kind
    ensures Visit(s, c, rest).carry.hasKey ==> Visit(s, c, rest).carry.key == rest[0].key
    ensures 1 <= Visit(s, c, rest).used <= 2
    ensures Visit(s, c, rest).used == 2 ==>
              rest[0].kind.SingleDeletion? && !c.clearNext && rest[1].key == rest[0].key &&
              !rest[1].kind.SingleDeletion?
  {
    var t := Visit(s, c, rest);
    SortedTail(rest, t.used);
    if t.used < |rest| {
      SortedPair(rest, 0, t.used);
    }
    if |rest| > 1 {
      SortedPair(rest, 0, 1);
    }
  }

  /** One turn of `Run`, written out. */
  lemma RunTurn(s: Setting, c: Carry, rest: seq<Record>, first: bool) returns (t: Turn, after: Carry, next: seq<Record>, firstNext: bool)
    requires ValidSetting(s) && Coherent(s, c, rest) && rest != []
    ensures t == Visit(s, c, rest) && next == rest[t.used..] && |next| < |rest|
    ensures after == if t.out.None? then t.carry else AfterOutput(t.carry, first)
    ensures firstNext == (first && t.out.None?)
    ensures Coherent(s, after, next)
    ensures Run(s, c, rest, first) ==
            (if t.out.None? then [] else [Prepare(s, t.out.value)]) + Run(s, after, next, firstNext)
  {
    t := Visit(s, c, rest);
    next := rest[t.used..];
    after := if t.out.None? then t.carry else AfterOutput(t.carry, first);
    firstNext := first && t.out.None?;
    VisitKeepsCoherence(s, c, rest);
  }

  lemma RunOfNothing(s: Setting, c: Carry, first: bool)
    ensures Run(s, c, [], first) == []
  {
  }

  /** Nothing is put out under a key the input does not have. */
  lemma {:induction false} RunKeysComeFromInput(s: Setting, c: Carry, rest: seq<Record>, first: bool, key: int)
    requires ValidSetting(s) && Coherent(s, c, rest) && HasKey(Run(s, c, rest, first), key)
    ensures HasKey(rest, key)
    decreases |rest|
  {
    var t := Visit(s, c, rest);
    VisitKeepsCoherence(s, c, rest);
    var next := rest[t.used..];
    if rest[0].key != key {
      if t.out.None? {
        RunKeysComeFromInput(s, t.carry, next, first, key);
      } else {
        var tail := Run(s, AfterOutput(t.carry, first), next, false);
        var run := Run(s, c, rest, first);
        var i :| 0 <= i < |run| && run[i].key == key;
        assert tail[i - 1].key == key;
        RunKeysComeFromInput(s, AfterOutput(t.carry, first), next, false, key);
      }
      var i :| 0 <= i < |next| && next[i].key == key;
      assert rest[i + t.used].key == key;
    }
  }

  /** Nothing newer is put out under a key than the input has. */
  lemma {:induction false} RunStaysLow(s: Setting, c: Carry, rest: seq<Record>, first: bool, key: int, bound: nat)
    requires ValidSetting(s) && Coherent(s, c, rest)
    requires forall i :: 0 <= i < |rest| && rest[i].key == key ==> rest[i].sequence <= bound
    ensures forall i :: 0 <= i < |Run(s, c, rest, first)| && Run(s, c, rest, first)[i].key == key ==>
              Run(s, c, rest, first)[i].sequence <= bound
    decreases |rest|
  {
    if rest != [] {
      var t, after, next, firstNext := RunTurn(s, c, rest, first);
      VisitKeepsCoherence(s, c, rest);
      RunStaysLow(s, after, next, firstNext, key, bound);
    }
  }

  lemma RunAddsNoKeys(s: Setting, c: Carry, rest: seq<Record>, first: bool, key: int)
    requires ValidSetting(s) && Coherent(s, c, rest) && !HasKey(rest, key)
    ensures !HasKey(Run(s, c, rest, first), key)
  {
    if HasKey(Run(s, c, rest, first), key) {
      RunKeysComeFromInput(s, c, rest, first, key);
    }
  }
}
