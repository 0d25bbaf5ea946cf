/** The compaction iterator itself, proved to put out exactly the run of `CompactionSteps`. */
module CompactionIterators {
  import opened Wrappers
  import opened Records
  import opened Snapshots
  import opened CompactionPlan
  import opened CompactionSteps

  /** Sequential search for the earliest snapshot that sees a sequence number, and the one before it. */
  method FindEarliestVisibleSnapshot(snapshots: seq<nat>, seqno: nat) returns (snapshot: nat, prevSnapshot: nat)
    requires snapshots != [] && ValidSnapshots(snapshots)
    ensures snapshot == Stripe(snapshots, seqno)
    ensures prevSnapshot == Previous(snapshots, seqno)
  {
    var prev := MAX_SEQUENCE;
    for i := 0 to |snapshots|
      invariant i == 0 <==> prev == MAX_SEQUENCE
      invariant i > 0 ==> prev == snapshots[i - 1]
      invariant Stripe(snapshots, seqno) == Stripe(snapshots[i..], seqno)
      invariant Previous(snapshots, seqno) == PreviousFrom(snapshots[i..], seqno, if i == 0 then 0 else prev)
    {
      var cur := snapshots[i];
      assert prev == MAX_SEQUENCE || prev <= cur;
      if cur >= seqno {
        return cur, if prev == MAX_SEQUENCE then 0 else prev;
      }
      assert snapshots[i..][1..] == snapshots[i + 1..];
      prev := cur;
      assert prev < MAX_SEQUENCE;
    }
    return MAX_SEQUENCE, prev;
  }

  class CompactionIterator {
    // Supplied at construction.
    const input: seq<Record>
    const snapshots: seq<nat>
    const earliestWriteConflictSnapshot: nat
    const plan: Option<Plan>
    const visibleAtTip: bool
    const earliestSnapshot: nat

    // The position of the input iterator.
    var pos: nat

    // The current output, and whether the input has already moved past it.
    var valid: bool
    var atNext: bool
    var ikey: Record

    // Carried from record to record.
    var hasCurrentUserKey: bool
    var currentUserKey: int
    var currentUserKeySequence: nat
    var currentUserKeySnapshot: nat
    var hasOutputtedKey: bool
    var clearAndOutputNextKey: bool
    var levelPtrs: seq<nat>

    // Statistics.
    var numRecordDropHidden: nat
    var numRecordDropObsolete: nat

    constructor (input: seq<Record>, snapshots: seq<nat>, earliestWriteConflictSnapshot: nat, plan: Option<Plan>)
      requires ValidSetting(Setting(snapshots, earliestWriteConflictSnapshot, plan))
      requires Sorted(input) && Sequenced(input)
      ensures Valid() && !valid && !atNext
      ensures TheSetting() == Setting(snapshots, earliestWriteConflictSnapshot, plan) && this.input == input
      ensures Carried() == START && Rest() == input && Dropped() == 0
    {
      this.input, this.snapshots, this.plan := input, snapshots, plan;
      this.earliestWriteConflictSnapshot := earliestWriteConflictSnapshot;
      visibleAtTip := |snapshots| == 0;
      earliestSnapshot := if |snapshots| == 0 then MAX_SEQUENCE else snapshots[0];
      pos, valid, atNext, ikey := 0, false, false, Record(0, 0, Value, "");
      hasCurrentUserKey, currentUserKey, currentUserKeySequence, currentUserKeySnapshot := false, 0, 0, 0;
      hasOutputtedKey, clearAndOutputNextKey := false, false;
      numRecordDropHidden, numRecordDropObsolete := 0, 0;
      levelPtrs := if plan.Some? then seq(|plan.value.levels|, i => 0) else [];
    }

    ghost function TheSetting(): Setting {
      Setting(snapshots, earliestWriteConflictSnapshot, plan)
    }

    ghost function Carried(): Carry
      reads this
    {
      Carry(hasCurrentUserKey, currentUserKey, currentUserKeySequence, currentUserKeySnapshot,
            hasOutputtedKey, clearAndOutputNextKey)
    }

    /** The input still to be looked at: a valid output sits on its own record unless it peeked ahead. */
    ghost function Rest(): seq<Record>
      reads this
      requires pos <= |input| && (valid && !atNext ==> pos < |input|)
    {
      if valid && !atNext then input[pos + 1..] else input[pos..]
    }

    /** Everything still to come. */
    ghost function Remaining(): seq<Record>
      reads this
      requires pos <= |input| && (valid && !atNext ==> pos < |input|)
    {
      Run(TheSetting(), Carried(), Rest(), false)
    }

    /** The current output, if there is one, and everything after it. */
    ghost function Pending(): seq<Record>
      reads this
      requires pos <= |input| && (valid && !atNext ==> pos < |input|)
    {
      if valid then [Current()] + Remaining() else []
    }

    lemma PendingIsHeadAndRest()
      requires Valid()
      ensures Pending() == if valid then [ikey] + Remaining() else []
    {
    }

    /** The record the caller sees. */
    ghost function Current(): Record
      reads this
    {
      ikey
    }

    ghost function Dropped(): nat
      reads this
    {
      numRecordDropHidden + numRecordDropObsolete
    }

    ghost predicate Configured() {
      && ValidSetting(TheSetting()) && Sorted(input) && Sequenced(input)
      && visibleAtTip == (snapshots == [])
      && earliestSnapshot == Earliest(snapshots)
    }

    /** The level cursors have passed only files that end before the next key. */
    ghost predicate CursorsBehind(rest: seq<Record>)
      reads this
    {
      plan.Some? ==>
        && |levelPtrs| == |plan.value.levels|
        && (rest == [] || PassedBelow(plan.value, levelPtrs, rest[0].key))
    }

    ghost predicate Valid()
      reads this
      ensures Valid() ==> pos <= |input| && (valid && !atNext ==> pos < |input|)
    {
      && Configured()
      && pos <= |input| && (valid && !atNext ==> pos < |input|)
      && Aligned(TheSetting(), Carried(), Rest())
      && CursorsBehind(Rest())
    }

    /** The plain level test, through the cursors. */
    method KeyIsGoneBelow() returns (absent: bool)
      requires Configured() && plan.Some? && CursorsBehind([ikey])
      modifies this`levelPtrs
      ensures absent <==> NotBeyond(plan.value, ikey.key)
      ensures CursorsBehind([ikey])
    {
      absent, levelPtrs := KeyNotExistsBeyondOutputLevel(plan.value, ikey.key, levelPtrs);
    }

    /** A SingleDelete with no older version of its key in the input. */
    method FallThrough()
      requires Configured() && CursorsBehind([ikey])
      modifies this`hasCurrentUserKey, this`levelPtrs, this`numRecordDropObsolete, this`valid
      ensures CursorsBehind([ikey]) && !hasCurrentUserKey
      ensures valid == (old(valid) || !Obsolete(TheSetting(), ikey))
      ensures numRecordDropObsolete == old(numRecordDropObsolete) + if Obsolete(TheSetting(), ikey) then 1 else 0
    {
      hasCurrentUserKey := false;
      var gone := false;
      if plan.Some? && ikey.sequence <= earliestSnapshot {
        gone := KeyIsGoneBelow();
      }
      if gone {
        numRecordDropObsolete := numRecordDropObsolete + 1;
      } else {
        valid := true;
      }
    }

    /** The SingleDelete branch of the loop, entered with the bookkeeping done and one record to peek at. */
    method VisitTheSingleDelete(prevSnapshot: nat)
      requires Configured() && !valid && !atNext && pos < |input| && !clearAndOutputNextKey
      requires ikey == input[pos] && ikey.kind.SingleDeletion? && prevSnapshot == Previous(snapshots, ikey.sequence)
      requires CursorsBehind([ikey])
      modifies this
      ensures pos <= |input| && valid == atNext && ikey == old(ikey)
      ensures CursorsBehind([ikey])
      ensures var t := VisitSingleDelete(TheSetting(), old(Carried()), input[old(pos)..]);
              && Carried() == t.carry
              && pos == old(pos) + t.used
              && (if valid then t.out == Some(ikey) else t.out.None?)
              && numRecordDropHidden == old(numRecordDropHidden) + t.used - 1
              && numRecordDropObsolete == old(numRecordDropObsolete) + if valid then 0 else 1
    {
      hide Sorted, Sequenced, ValidSnapshots, ValidPlan, PassedBelow, NotBeyond, Stripe, Previous;
      ghost var rest := input[pos..];
      assert rest[0] == ikey && (pos + 1 < |input| ==> rest[1] == input[pos + 1]);
      pos := pos + 1;
      if pos < |input| && input[pos].key == ikey.key {
        var nextIkey := input[pos];
        if prevSnapshot == 0 || nextIkey.sequence > prevSnapshot {
          if nextIkey.kind.SingleDeletion? {
            numRecordDropObsolete := numRecordDropObsolete + 1;
          } else if ikey.sequence <= earliestWriteConflictSnapshot || hasOutputtedKey {
            numRecordDropHidden := numRecordDropHidden + 1;
            numRecordDropObsolete := numRecordDropObsolete + 1;
            pos := pos + 1;
          } else {
            valid := true;
            clearAndOutputNextKey := true;
          }
        } else {
          valid := true;
        }
      } else {
        FallThrough();
      }
      if valid {
        atNext := true;
      }
    }

    /** The bookkeeping at the head of the loop: the current key, its sequence number, its stripe. */
    method NoteRecord() returns (lastSequence: nat, lastSnapshot: nat, prevSnapshot: nat)
      requires Configured() && pos < |input|
      modifies this`ikey, this`hasCurrentUserKey, this`currentUserKey, this`currentUserKeySequence,
               this`currentUserKeySnapshot, this`hasOutputtedKey
      ensures ikey == input[pos]
      ensures Carried() == Observe(TheSetting(), old(Carried()), ikey)
      ensures lastSnapshot == LastSnapshot(old(Carried()), ikey)
      ensures lastSequence == if Fresh(old(Carried()), ikey) then MAX_SEQUENCE else old(currentUserKeySequence)
      ensures prevSnapshot == Previous(snapshots, ikey.sequence)
    {
      ikey := input[pos];
      if !hasCurrentUserKey || ikey.key != currentUserKey {
        currentUserKey := ikey.key;
        hasCurrentUserKey := true;
        hasOutputtedKey := false;
        currentUserKeySequence := MAX_SEQUENCE;
        currentUserKeySnapshot := 0;
      }
      lastSequence := currentUserKeySequence;
      currentUserKeySequence := ikey.sequence;
      lastSnapshot := currentUserKeySnapshot;
      prevSnapshot := 0;
      if visibleAtTip {
        currentUserKeySnapshot := earliestSnapshot;
      } else {
        currentUserKeySnapshot, prevSnapshot := FindEarliestVisibleSnapshot(snapshots, ikey.sequence);
      }
    }

    /** The branches for a record that is not a SingleDelete: hidden, obsolete, or put out. */
    method KeepOrDrop(lastSequence: nat, lastSnapshot: nat)
      requires Configured() && !valid && !atNext && pos < |input| && CursorsBehind([ikey])
      requires lastSnapshot == currentUserKeySnapshot ==> lastSequence >= currentUserKeySequence
      modifies this`valid, this`pos, this`numRecordDropHidden, this`numRecordDropObsolete, this`levelPtrs
      ensures CursorsBehind([ikey])
      ensures valid <==> !(lastSnapshot == currentUserKeySnapshot) && !(ikey.kind.Deletion? && Obsolete(TheSetting(), ikey))
      ensures pos == old(pos) + if valid then 0 else 1
      ensures numRecordDropHidden == old(numRecordDropHidden) + if lastSnapshot == currentUserKeySnapshot then 1 else 0
      ensures Dropped() == old(Dropped()) + if valid then 0 else 1
    {
      if lastSnapshot == currentUserKeySnapshot {
        assert lastSequence >= currentUserKeySequence;
        numRecordDropHidden := numRecordDropHidden + 1;
        pos := pos + 1;
      } else {
        var gone := false;
        if plan.Some? && ikey.kind.Deletion? && ikey.sequence <= earliestSnapshot {
          gone := KeyIsGoneBelow();
        }
        if gone {
          numRecordDropObsolete := numRecordDropObsolete + 1;
          pos := pos + 1;
        } else {
          valid := true;
        }
      }
    }

    /** One turn of the loop in `NextFromInput`. */
    method VisitRecord()
      requires Valid() && !valid && !atNext && pos < |input|
      modifies this
      ensures Valid() && (atNext ==> valid)
      ensures var t := Visit(TheSetting(), old(Carried()), old(Rest()));
              && Carried() == t.carry
              && Rest() == old(Rest())[t.used..]
              && (if valid then t.out == Some(Current()) && t.used == 1 else t.out.None?)
              && Dropped() == old(Dropped()) + if valid then 0 else t.used
    {
      hide Sorted, Sequenced, ValidSnapshots, ValidPlan, PassedBelow, NotBeyond, Stripe, Previous;
      ghost var rest := Rest();
      ghost var t := Visit(TheSetting(), Carried(), rest);
      SortedTail(input, pos);
      VisitKeepsCoherence(TheSetting(), Carried(), rest);
      var lastSequence, lastSnapshot, prevSnapshot := NoteRecord();
      if clearAndOutputNextKey {
        ikey := ikey.(value := "");
        valid := true;
        clearAndOutputNextKey := false;
      } else if ikey.kind.SingleDeletion? {
        VisitTheSingleDelete(prevSnapshot);
      } else {
        KeepOrDrop(lastSequence, lastSnapshot);
      }
      assert Rest() == rest[t.used..];
      CursorsStayBehind(rest, t.used);
    }

    /** What the loop has left to produce: the found record and its successors, or a run still to be searched. */
    ghost function Outcome(first: bool): seq<Record>
      reads this
      requires pos <= |input| && (valid && !atNext ==> pos < |input|)
    {
      if valid
      then [Prepare(TheSetting(), Current())] + Run(TheSetting(), AfterOutput(Carried(), first), Rest(), false)
      else Run(TheSetting(), Carried(), Rest(), first)
    }

    /** Processes the input until the next record to put out, before `PrepareOutput`. */
    method NextFromInput(ghost first: bool)
      requires Configured() && pos <= |input|
      requires Aligned(TheSetting(), Carried(), input[pos..]) && CursorsBehind(input[pos..])
      modifies this
      ensures Valid()
      ensures Outcome(first) == Run(TheSetting(), old(Carried()), old(input[pos..]), first)
      ensures !valid ==> pos == |input| && Outcome(first) == []
      ensures Dropped() + |Rest()| + (if valid then 1 else 0) == old(Dropped() + |input[pos..]|)
    {
      hide Run, Visit, Sorted, Sequenced, ValidSnapshots, ValidPlan, PassedBelow;
      atNext := false;
      valid := false;
      ghost var all := Outcome(first);
      while !valid && pos < |input|
        invariant Valid() && (!valid ==> !atNext)
        invariant Outcome(first) == all
        invariant Dropped() + |Rest()| + (if valid then 1 else 0) == old(Dropped() + |input[pos..]|)
        decreases !valid, |Rest()|
      {
        SortedTail(input, pos);
        ghost var t, after, next, firstNext := RunTurn(TheSetting(), Carried(), Rest(), first);
        VisitRecord();
      }
      RunOfNothing(TheSetting(), Carried(), first);
    }

    /** Squashes the sequence number where every reader already sees the record. */
    method PrepareOutput()
      requires Configured()
      modifies this`ikey
      ensures valid ==> ikey == Prepare(TheSetting(), old(ikey))
      ensures !valid ==> ikey == old(ikey)
    {
      if plan.Some? && plan.value.bottommost && valid && ikey.sequence <= earliestSnapshot &&
         plan.value.largest != ikey.key
      {
        ikey := ikey.(sequence := 0);
      }
    }

    /** Readies what `NextFromInput` found; `Next`, unlike `SeekToFirst`, also marks the key as put out. */
    method Present(first: bool)
      requires Valid() && (!valid ==> Outcome(first) == [])
      modifies this`ikey, this`hasOutputtedKey
      ensures Valid() && Pending() == old(Outcome(first))
    {
      hide Run, Sorted, Sequenced, ValidSnapshots, ValidPlan, PassedBelow, Stripe, Previous;
      if valid && !first {
        hasOutputtedKey := true;
      }
      PrepareOutput();
    }

    method SeekToFirst()
      requires Valid() && !valid && !atNext
      modifies this
      ensures Valid()
      ensures Run(TheSetting(), old(Carried()), old(Rest()), true) == Pending()
      ensures Dropped() + |Rest()| + (if valid then 1 else 0) == old(Dropped() + |Rest()|)
    {
      hide Run, Sorted, Sequenced, ValidSnapshots, ValidPlan, PassedBelow, Stripe, Previous;
      NextFromInput(true);
      Present(true);
    }

    method Next()
      requires Valid() && valid
      modifies this
      ensures Valid()
      ensures old(Remaining()) == Pending()
      ensures Dropped() + |Rest()| + (if valid then 1 else 0) == old(Dropped() + |Rest()|)
    {
      hide Run, Sorted, Sequenced, ValidSnapshots, ValidPlan, PassedBelow, Stripe, Previous;
      if !atNext {
        pos := pos + 1;
      }
      NextFromInput(false);
      Present(false);
    }

    lemma CursorsStayBehind(rest: seq<Record>, n: nat)
      requires Configured() && Sorted(rest) && 1 <= n <= |rest|
      requires CursorsBehind([rest[0]])
      ensures CursorsBehind(rest[n..])
    {
      if n < |rest| {
        SortedPair(rest, 0, n);
      }
    }
  }

  /** The records below `end` at the front of an output stream. */
  ghost function Before(s: seq<Record>, end: Option<int>): seq<Record> {
    if s == [] || (end.Some? && s[0].key >= end.value) then [] else [s[0]] + Before(s[1..], end)
  }

  /** The input from the first record at or after `start`. */
  ghost function From(s: seq<Record>, start: Option<int>): seq<Record> {
    if s == [] || start.None? || s[0].key >= start.value then s else From(s[1..], start)
  }

  lemma {:induction false} FromIsSuffix(s: seq<Record>, start: Option<int>)
    requires Sorted(s) && Sequenced(s)
    ensures Sorted(From(s, start)) && Sequenced(From(s, start))
  {
    if s != [] && start.Some? && s[0].key < start.value {
      FromIsSuffix(s[1..], start);
    }
  }

  /** Positions the input at the start key of a subcompaction. */
  method Seek(input: seq<Record>, start: Option<int>) returns (sought: seq<Record>)
    ensures sought == From(input, start)
  {
    sought := input;
    while start.Some? && |sought| > 0 && sought[0].key < start.value
      invariant From(input, start) == From(sought, start)
    {
      sought := sought[1..];
    }
  }

  /** The records taken so far are below the end key, and more may follow. */
  ghost predicate Taken(run: seq<Record>, taken: seq<Record>, pending: seq<Record>, end: Option<int>) {
    run == taken + pending && Before(run, end) == taken + Before(pending, end)
  }

  lemma TakenNothing(run: seq<Record>, end: Option<int>)
    ensures Taken(run, [], run, end)
  {
  }

  lemma TakenOneMore(run: seq<Record>, taken: seq<Record>, head: Record, rest: seq<Record>, end: Option<int>)
    requires Taken(run, taken, [head] + rest, end) && !(end.Some? && head.key >= end.value)
    ensures Taken(run, taken + [head], rest, end)
  {
    assert ([head] + rest)[1..] == rest;
  }

  lemma TakenAll(run: seq<Record>, taken: seq<Record>, pending: seq<Record>, end: Option<int>)
    requires Taken(run, taken, pending, end)
    requires pending == [] || (end.Some? && pending[0].key >= end.value)
    ensures taken == Before(run, end)
  {
  }

  /** Takes what the iterator yields until it ends or reaches the end key. */
  method TakeUntil(cIter: CompactionIterator, end: Option<int>, ghost run: seq<Record>) returns (outputs: seq<Record>)
    requires cIter.Valid() && run == cIter.Pending()
    modifies cIter
    ensures outputs == Before(run, end)
  {
    hide *;
    outputs := [];
    TakenNothing(run, end);
    while cIter.valid
      invariant cIter.Valid() && Taken(run, outputs, cIter.Pending(), end)
      decreases |cIter.Pending()|
    {
      cIter.PendingIsHeadAndRest();
      if end.Some? && cIter.ikey.key >= end.value {
        break;
      }
      TakenOneMore(run, outputs, cIter.ikey, cIter.Remaining(), end);
      outputs := outputs + [cIter.ikey];
      cIter.Next();
    }
    cIter.PendingIsHeadAndRest();
    TakenAll(run, outputs, cIter.Pending(), end);
  }

  /** The record loop of one subcompaction: seek to the start key, stop at the end key. */
  method CompactKeyRange(input: seq<Record>, snapshots: seq<nat>, writeConflict: nat, plan: Option<Plan>,
                         start: Option<int>, end: Option<int>) returns (outputs: seq<Record>)
    requires ValidSetting(Setting(snapshots, writeConflict, plan)) && Sorted(input) && Sequenced(input)
    ensures outputs == Before(Run(Setting(snapshots, writeConflict, plan), START, From(input, start), true), end)
  {
    FromIsSuffix(input, start);
    var sought := Seek(input, start);
    var cIter := new CompactionIterator(sought, snapshots, writeConflict, plan);
    cIter.SeekToFirst();
    outputs := TakeUntil(cIter, end, Run(Setting(snapshots, writeConflict, plan), START, sought, true));
  }
}
