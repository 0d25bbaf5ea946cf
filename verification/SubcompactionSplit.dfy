/** Running a compaction range by range yields what one pass would have yielded. */
module SubcompactionSplit {
  import opened Wrappers
  import opened Records
  import opened Snapshots
  import opened CompactionPlan
  import opened CompactionSteps
  import opened SingleDeleteReads
  import opened CompactionTheorems
  import opened CompactionIterators
  import opened Subcompactions

  ghost function StartOf(boundaries: seq<int>, i: nat): Option<int>
    requires i <= |boundaries|
  {
    if i == 0 then None else Some(boundaries[i - 1])
  }

  ghost function EndOf(boundaries: seq<int>, i: nat): Option<int>
    requires i <= |boundaries|
  {
    if i == |boundaries| then None else Some(boundaries[i])
  }

  /** What one subcompaction puts out. */
  ghost function RangeOutput(s: Setting, input: seq<Record>, start: Option<int>, end: Option<int>): seq<Record> {
    Before(Run(s, START, From(input, start), true), end)
  }

  /** The outputs of subcompactions `i` and later, in key order. */
  ghost function SplitFrom(s: Setting, input: seq<Record>, boundaries: seq<int>, i: nat): seq<Record>
    requires i <= |boundaries|
    decreases |boundaries| - i
  {
    RangeOutput(s, input, StartOf(boundaries, i), EndOf(boundaries, i)) +
    if i == |boundaries| then [] else SplitFrom(s, input, boundaries, i + 1)
  }

  lemma SplitStep(s: Setting, input: seq<Record>, boundaries: seq<int>, i: nat, outputs: seq<Record>)
    requires i <= |boundaries|
    ensures outputs + SplitFrom(s, input, boundaries, i) ==
            outputs + RangeOutput(s, input, StartOf(boundaries, i), EndOf(boundaries, i)) +
            if i == |boundaries| then [] else SplitFrom(s, input, boundaries, i + 1)
  {
    hide Run, Before, From;
    var part := RangeOutput(s, input, StartOf(boundaries, i), EndOf(boundaries, i));
    var later := if i == |boundaries| then [] else SplitFrom(s, input, boundaries, i + 1);
    assert outputs + (part + later) == outputs + part + later;
  }

  /** The whole job: one subcompaction per range, outputs kept in range order. */
  method RunSubcompactions(input: seq<Record>, snapshots: seq<nat>, writeConflict: nat, plan: Option<Plan>,
                           boundaries: seq<int>) returns (outputs: seq<Record>)
    requires ValidSetting(Setting(snapshots, writeConflict, plan)) && Sorted(input) && Sequenced(input)
    ensures outputs == SplitFrom(Setting(snapshots, writeConflict, plan), input, boundaries, 0)
  {
    hide Run, Before, From, ValidSetting, Sorted, Sequenced, SplitFrom;
    ghost var s := Setting(snapshots, writeConflict, plan);
    ghost var all := SplitFrom(s, input, boundaries, 0);
    outputs := [];
    for i := 0 to |boundaries| + 1
      invariant i <= |boundaries| ==> all == outputs + SplitFrom(s, input, boundaries, i)
      invariant i == |boundaries| + 1 ==> all == outputs
    {
      var start := if i == 0 then None else Some(boundaries[i - 1]);
      var end := if i == |boundaries| then None else Some(boundaries[i]);
      SplitStep(s, input, boundaries, i, outputs);
      var part := CompactKeyRange(input, snapshots, writeConflict, plan, start, end);
      outputs := outputs + part;
    }
  }

  // ---- key order of a run ----

  ghost predicate KeysAscend(s: seq<Record>) {
    |s| > 1 ==> s[0].key <= s[1].key && KeysAscend(s[1..])
  }

  lemma {:induction false} RunKeysAscend(s: Setting, c: Carry, rest: seq<Record>, first: bool)
    requires ValidSetting(s) && Coherent(s, c, rest)
    ensures KeysAscend(Run(s, c, rest, first))
    ensures Run(s, c, rest, first) != [] ==> rest != [] && rest[0].key <= Run(s, c, rest, first)[0].key
    decreases |rest|
  {
    if rest == [] {
      return;
    }
    var t, after, next, firstNext := RunTurn(s, c, rest, first);
    VisitKeepsCoherence(s, c, rest);
    if next != [] { SortedPair(rest, 0, t.used); }
    RunKeysAscend(s, after, next, firstNext);
    var tail := Run(s, after, next, firstNext);
    if t.out.Some? {
      assert ([Prepare(s, t.out.value)] + tail)[1..] == tail;
    } else {
      assert [] + tail == tail;
    }
  }

  // ---- cutting a run ----

  /** A key the loop has not just been at is met as by a fresh iterator. */
  lemma FreshStart(s: Setting, c: Carry, b: seq<Record>, first: bool)
    requires !c.clearNext && (b != [] ==> Fresh(c, b[0]))
    ensures Run(s, c, b, first) == Run(s, START, b, first)
  {
    if b != [] { assert Visit(s, c, b) == Visit(s, START, b); }
  }

  /** One turn does not look past its key. */
  lemma VisitPrefix(s: Setting, c: Carry, a: seq<Record>, b: seq<Record>)
    requires a != [] && (b != [] ==> forall i :: 0 <= i < |a| ==> a[i].key != b[0].key)
    ensures Visit(s, c, a + b) == Visit(s, c, a)
  {
    assert (a + b)[0] == a[0];
    assert |a| > 1 ==> (a + b)[1] == a[1];
    assert |a| == 1 && b != [] ==> (a + b)[1] == b[0];
  }

  /** `Run` over `a` and then `b`: one run after the other, sharing only the mark of the first output. */
  ghost predicate Appends(s: Setting, c: Carry, a: seq<Record>, b: seq<Record>, first: bool) {
    Run(s, c, a + b, first) == Run(s, c, a, first) + Run(s, START, b, first && Run(s, c, a, first) == [])
  }

  lemma AppendsTurn(s: Setting, c: Carry, a: seq<Record>, b: seq<Record>, first: bool)
    requires a != [] && Visit(s, c, a + b) == Visit(s, c, a)
    requires var t := Visit(s, c, a);
             Appends(s, if t.out.None? then t.carry else AfterOutput(t.carry, first), a[t.used..], b, first && t.out.None?)
    ensures Appends(s, c, a, b, first)
  {
    var t := Visit(s, c, a);
    assert (a + b)[t.used..] == a[t.used..] + b;
    if t.out.Some? {
      var after, head := AfterOutput(t.carry, first), [Prepare(s, t.out.value)];
      assert Run(s, c, a + b, first) == head + Run(s, after, a[t.used..] + b, false);
      assert Run(s, c, a, first) == head + Run(s, after, a[t.used..], false);
      hide Visit, Run;
      Regroup(head, Run(s, after, a[t.used..], false), Run(s, START, b, false));
    }
  }

  lemma Regroup(a: seq<Record>, b: seq<Record>, c: seq<Record>)
    ensures a + (b + c) == a + b + c
  {
  }

  /** Two stretches of a sorted input that share no key. */
  ghost predicate KeysApart(s: Setting, c: Carry, a: seq<Record>, b: seq<Record>) {
    && ValidSetting(s) && Coherent(s, c, a + b)
    && (b != [] ==> Fresh(c, b[0]) && forall i :: 0 <= i < |a| ==> a[i].key != b[0].key)
  }

  lemma TurnKeepsApart(s: Setting, c: Carry, a: seq<Record>, b: seq<Record>, first: bool)
    requires KeysApart(s, c, a, b) && a != []
    ensures Visit(s, c, a + b) == Visit(s, c, a)
    ensures var t := Visit(s, c, a);
            KeysApart(s, if t.out.None? then t.carry else AfterOutput(t.carry, first), a[t.used..], b)
  {
    VisitPrefix(s, c, a, b);
    VisitKeepsCoherence(s, c, a + b);
    hide Visit;
    var t := Visit(s, c, a);
    assert (a + b)[t.used..] == a[t.used..] + b && (a + b)[0] == a[0];
  }

  /** This holds for any two key-disjoint stretches of a sorted input. */
  lemma {:induction false} RunAppends(s: Setting, c: Carry, a: seq<Record>, b: seq<Record>, first: bool)
    requires ValidSetting(s) && Coherent(s, c, a + b)
    requires b != [] ==> Fresh(c, b[0]) && forall i :: 0 <= i < |a| ==> a[i].key != b[0].key
    ensures Appends(s, c, a, b, first)
  {
    ApartAppends(s, c, a, b, first);
  }

  lemma {:induction false} ApartAppends(s: Setting, c: Carry, a: seq<Record>, b: seq<Record>, first: bool)
    requires KeysApart(s, c, a, b)
    ensures Appends(s, c, a, b, first)
    decreases |a|
  {
    if a == [] {
      assert a + b == b;
      FreshStart(s, c, b, first);
    } else {
      TurnKeepsApart(s, c, a, b, first);
      var t := Visit(s, c, a);
      hide Visit, Run, Appends, KeysApart;
      ApartAppends(s, if t.out.None? then t.carry else AfterOutput(t.carry, first), a[t.used..], b, first && t.out.None?);
      AppendsTurn(s, c, a, b, first);
    }
  }

  // ---- when the mark of the first output matters ----

  /** A SingleDelete that marks or retains: the next version is its pair, and transactions may still need it. */
  ghost predicate OpenPair(s: Setting, rest: seq<Record>) {
    && |rest| > 1 && rest[0].kind.SingleDeletion? && rest[0].sequence > s.writeConflict
    && rest[1].key == rest[0].key && !rest[1].kind.SingleDeletion?
    && (Previous(s.snapshots, rest[0].sequence) == 0 || rest[1].sequence > Previous(s.snapshots, rest[0].sequence))
  }

  /** Before putting out another version of the carried key, the loop comes to such a pair. */
  ghost predicate PairUnder(s: Setting, c: Carry, rest: seq<Record>)
    decreases |rest|
  {
    && rest != [] && !Fresh(c, rest[0]) && !c.clearNext
    && (OpenPair(s, rest) ||
        (Visit(s, c, rest).out.None? && PairUnder(s, Visit(s, c, rest).carry, rest[Visit(s, c, rest).used..])))
  }

  /** Such a pair lies under the first record that is put out. */
  ghost predicate PairUnderFirst(s: Setting, c: Carry, rest: seq<Record>)
    decreases |rest|
  {
    && rest != []
    && var t := Visit(s, c, rest);
       if t.out.None? then PairUnderFirst(s, t.carry, rest[t.used..]) else PairUnder(s, t.carry, rest[t.used..])
  }

  /** The sequence number it carries is not looked at by the loop. */
  lemma CarriedSequence(s: Setting, c: Carry, sequence: nat, rest: seq<Record>)
    ensures Run(s, c, rest, false) == Run(s, c.(sequence := sequence), rest, false)
  {
    if rest != [] { assert Visit(s, c, rest) == Visit(s, c.(sequence := sequence), rest); }
  }

  /** The carries after the pair: retained, and eliminated. */
  ghost function AfterRetained(s: Setting, rest: seq<Record>): Carry
    requires |rest| > 1
  {
    Carry(true, rest[1].key, rest[1].sequence, Stripe(s.snapshots, rest[1].sequence), true, false)
  }

  ghost function AfterEliminated(s: Setting, rest: seq<Record>): Carry
    requires |rest| > 1
  {
    Carry(true, rest[0].key, rest[0].sequence, Stripe(s.snapshots, rest[0].sequence), true, false)
  }

  lemma PairRetained(s: Setting, c: Carry, rest: seq<Record>)
    requires !c.outputted && !c.clearNext && OpenPair(s, rest)
    ensures Run(s, c, rest, false) ==
            [Prepare(s, rest[0]), Prepare(s, rest[1].(value := ""))] + Run(s, AfterRetained(s, rest), rest[2..], false)
  {
    var t := Visit(s, c, rest);
    assert t.out == Some(rest[0]) && t.used == 1;
    var after := AfterOutput(t.carry, false);
    var u := Visit(s, after, rest[1..]);
    assert u.out == Some(rest[1].(value := "")) && u.used == 1;
    assert AfterOutput(u.carry, false) == AfterRetained(s, rest);
    assert rest[1..][1..] == rest[2..];
  }

  lemma PairEliminated(s: Setting, c: Carry, rest: seq<Record>)
    requires c.outputted && !c.clearNext && OpenPair(s, rest) && !Fresh(c, rest[0])
    ensures Run(s, c, rest, false) == Run(s, AfterEliminated(s, rest), rest[2..], false)
  {
    assert Visit(s, c, rest) == Turn(AfterEliminated(s, rest), None, 2);
  }

  /** Retaining the pair and eliminating it never lead to the same output. */
  lemma PairMakesDifference(s: Setting, c: Carry, rest: seq<Record>)
    requires ValidSetting(s) && Coherent(s, c, rest) && !c.outputted && !c.clearNext
    requires OpenPair(s, rest) && !Fresh(c, rest[0])
    ensures Run(s, c, rest, false) != Run(s, c.(outputted := true), rest, false)
  {
    PairRetained(s, c, rest);
    PairEliminated(s, c.(outputted := true), rest);
    var kept, gone := AfterRetained(s, rest), AfterEliminated(s, rest);
    SortedPair(rest, 0, 1);
    if kept.snapshot == gone.snapshot {
      CarriedSequence(s, kept, gone.sequence, rest[2..]);
    } else {
      VisitKeepsCoherence(s, c.(outputted := true), rest);
      OnlyZeroBelow(s, rest);
      RunStaysLow(s, gone, rest[2..], false, rest[0].key, 0);
      assert Run(s, c, rest, false)[0] == rest[0];
    }
  }

  /** The pair can lie in two stripes only when its older half sits at 0 under a snapshot at 0. */
  lemma OnlyZeroBelow(s: Setting, rest: seq<Record>)
    requires ValidSetting(s) && Sorted(rest) && Sequenced(rest) && OpenPair(s, rest)
    requires Stripe(s.snapshots, rest[0].sequence) != Stripe(s.snapshots, rest[1].sequence)
    ensures rest[0].sequence > 0 && Prepare(s, rest[0]) == rest[0]
    ensures forall i :: 0 <= i < |rest[2..]| && rest[2..][i].key == rest[0].key ==> rest[2..][i].sequence == 0
  {
    SortedPair(rest, 0, 1);
    StripeIsLeast(s.snapshots, rest[1].sequence);
    SameStripeTest(s.snapshots, rest[0].sequence, rest[1].sequence);
    EarliestStripe(s.snapshots, rest[1].sequence);
    forall i | 0 <= i < |rest[2..]| && rest[2..][i].key == rest[0].key
      ensures rest[2..][i].sequence == 0
    {
      SortedPair(rest, 1, i + 2);
    }
  }

  /** Whether the key put out last is marked changes the rest of the output exactly over such a pair. */
  lemma {:induction false} MarkedIff(s: Setting, c: Carry, rest: seq<Record>)
    requires ValidSetting(s) && Coherent(s, c, rest) && !c.outputted
    ensures Run(s, c, rest, false) == Run(s, c.(outputted := true), rest, false) <==> !PairUnder(s, c, rest)
    decreases |rest|
  {
    if rest == [] {
    } else if Fresh(c, rest[0]) || c.clearNext {
      var t, u := Visit(s, c, rest), Visit(s, c.(outputted := true), rest);
      assert t.out == u.out && t.used == u.used && t.carry.(outputted := true) == u.carry.(outputted := true);
      assert t.out.None? ==> t.carry == u.carry;
    } else if OpenPair(s, rest) {
      PairMakesDifference(s, c, rest);
    } else {
      var t := Visit(s, c, rest);
      assert Visit(s, c.(outputted := true), rest) == t.(carry := t.carry.(outputted := true));
      VisitKeepsCoherence(s, c, rest);
      if t.out.None? { MarkedIff(s, t.carry, rest[t.used..]); }
    }
  }

  /** Marking the first record put out changes the output exactly when an open pair lies under it. */
  lemma {:induction false} FirstMarkIff(s: Setting, c: Carry, rest: seq<Record>)
    requires ValidSetting(s) && Coherent(s, c, rest) && !c.outputted
    ensures Run(s, c, rest, true) == Run(s, c, rest, false) <==> !PairUnderFirst(s, c, rest)
    decreases |rest|
  {
    if rest != [] {
      var t := Visit(s, c, rest);
      VisitKeepsCoherence(s, c, rest);
      assert !t.carry.outputted;
      if t.out.None? {
        FirstMarkIff(s, t.carry, rest[t.used..]);
      } else {
        MarkedIff(s, t.carry, rest[t.used..]);
        var tail, marked := Run(s, t.carry, rest[t.used..], false), Run(s, AfterOutput(t.carry, false), rest[t.used..], false);
        assert Run(s, c, rest, true) == [Prepare(s, t.out.value)] + tail;
        assert Run(s, c, rest, false) == [Prepare(s, t.out.value)] + marked;
        assert Run(s, c, rest, true)[1..] == tail && Run(s, c, rest, false)[1..] == marked;
      }
    }
  }

  // ---- seeking and stopping ----

  /** Seeking cuts a sorted input in two: what lies below the start key, and the rest. */
  lemma {:induction false} SeekSplits(input: seq<Record>, start: int) returns (below: seq<Record>)
    requires Sorted(input) && Sequenced(input)
    ensures input == below + From(input, Some(start))
    ensures Sorted(below) && Sequenced(below) && forall i :: 0 <= i < |below| ==> below[i].key < start
    ensures From(input, Some(start)) != [] ==> start <= From(input, Some(start))[0].key
  {
    if input == [] || input[0].key >= start {
      below := [];
    } else {
      var rest := SeekSplits(input[1..], start);
      below := [input[0]] + rest;
      assert below[1..] == rest;
      if |below| > 1 { assert input[1] == rest[0]; }
    }
  }

  lemma {:induction false} SeekTwice(input: seq<Record>, first: Option<int>, second: int)
    requires first.Some? ==> first.value <= second
    ensures From(From(input, first), Some(second)) == From(input, Some(second))
  {
    if input != [] && first.Some? && input[0].key < first.value {
      SeekTwice(input[1..], first, second);
    }
  }

  /** `Before` keeps exactly a stretch that lies below the end key when something at or past it follows. */
  lemma {:induction false} BeforeTakes(a: seq<Record>, b: seq<Record>, end: int)
    requires forall i :: 0 <= i < |a| ==> a[i].key < end
    requires b != [] ==> end <= b[0].key
    ensures Before(a + b, Some(end)) == a
  {
    if a == [] {
      assert a + b == b;
    } else {
      assert (a + b)[1..] == a[1..] + b;
      BeforeTakes(a[1..], b, end);
    }
  }

  lemma {:induction false} BeforeNoEnd(s: seq<Record>)
    ensures Before(s, None) == s
  {
    if s != [] { BeforeNoEnd(s[1..]); }
  }

  lemma RunStaysBelow(s: Setting, rest: seq<Record>, first: bool, end: int)
    requires ValidSetting(s) && Sorted(rest) && Sequenced(rest)
    requires forall i :: 0 <= i < |rest| ==> rest[i].key < end
    ensures forall i :: 0 <= i < |Run(s, START, rest, first)| ==> Run(s, START, rest, first)[i].key < end
  {
    var run := Run(s, START, rest, first);
    forall i | 0 <= i < |run|
      ensures run[i].key < end
    {
      RunKeysComeFromInput(s, START, rest, first, run[i].key);
    }
  }

  /** A stretch below a key and one from it on: the run is one after the other, and stops there exactly. */
  lemma RunOfTwo(s: Setting, a: seq<Record>, b: seq<Record>, first: bool, cut: int)
    requires ValidSetting(s) && Sorted(a + b) && Sequenced(a + b)
    requires Sorted(a) && Sequenced(a) && Sorted(b) && Sequenced(b)
    requires (forall i :: 0 <= i < |a| ==> a[i].key < cut) && (b != [] ==> cut <= b[0].key)
    ensures var below := Run(s, START, a, first);
            && Run(s, START, a + b, first) == below + Run(s, START, b, first && below == [])
            && Before(Run(s, START, a + b, first), Some(cut)) == below
            && (forall i :: 0 <= i < |below| ==> below[i].key < cut)
  {
    hide Run, Visit, Before, KeysAscend;
    var below := Run(s, START, a, first);
    var above := first && below == [];
    RunAppends(s, START, a, b, first);
    RunStaysBelow(s, a, first, cut);
    RunKeysAscend(s, START, b, above);
    BeforeTakes(below, Run(s, START, b, above), cut);
  }

  /** One cut, any input: past the cut the run goes on as from a fresh iterator, except for the mark. */
  lemma OneCut(s: Setting, from: seq<Record>, first: bool, cut: int)
    requires ValidSetting(s) && Sorted(from) && Sequenced(from)
    ensures var below := Before(Run(s, START, from, first), Some(cut));
            Run(s, START, from, first) == below + Run(s, START, From(from, Some(cut)), first && below == [])
  {
    var a := SeekSplits(from, cut);
    FromIsSuffix(from, Some(cut));
    RunOfTwo(s, a, From(from, Some(cut)), first, cut);
  }

  /** A cut is harmless exactly when nothing was put out below it or no open pair lies under the first output above it. */
  lemma OneCutIff(s: Setting, from: seq<Record>, cut: int)
    requires ValidSetting(s) && Sorted(from) && Sequenced(from)
    ensures var below, above := Before(Run(s, START, from, true), Some(cut)), From(from, Some(cut));
            Run(s, START, from, true) == below + Run(s, START, above, true) <==>
            (below == [] || !PairUnderFirst(s, START, above))
  {
    var below, above := Before(Run(s, START, from, true), Some(cut)), From(from, Some(cut));
    OneCut(s, from, true, cut);
    FromIsSuffix(from, Some(cut));
    FirstMarkIff(s, START, above);
    SameTail(below, Run(s, START, above, true), Run(s, START, above, below == []));
  }

  lemma SameTail(head: seq<Record>, a: seq<Record>, b: seq<Record>)
    ensures head + a == head + b <==> a == b
  {
    assert (head + a)[|head|..] == a && (head + b)[|head|..] == b;
  }

  /** The input records of subcompaction `i`. */
  ghost function Piece(input: seq<Record>, boundaries: seq<int>, i: nat): seq<Record>
    requires i <= |boundaries|
  {
    Before(From(input, StartOf(boundaries, i)), EndOf(boundaries, i))
  }

  lemma PieceAndRest(input: seq<Record>, boundaries: seq<int>, i: nat)
    requires Sorted(input) && Sequenced(input) && Increasing(boundaries) && i < |boundaries|
    ensures var from, next := From(input, StartOf(boundaries, i)), From(input, StartOf(boundaries, i + 1));
            && from == Piece(input, boundaries, i) + next
            && Sorted(from) && Sequenced(from) && Sorted(next) && Sequenced(next)
            && (next != [] ==> boundaries[i] <= next[0].key)
    ensures var piece := Piece(input, boundaries, i);
            Sorted(piece) && Sequenced(piece) && forall j :: 0 <= j < |piece| ==> piece[j].key < boundaries[i]
  {
    var from := From(input, StartOf(boundaries, i));
    FromIsSuffix(input, StartOf(boundaries, i));
    FromIsSuffix(input, StartOf(boundaries, i + 1));
    SeekTwice(input, StartOf(boundaries, i), boundaries[i]);
    var below := SeekSplits(from, boundaries[i]);
    BeforeTakes(below, From(from, Some(boundaries[i])), boundaries[i]);
  }

  lemma LastPiece(input: seq<Record>, boundaries: seq<int>)
    requires Sorted(input) && Sequenced(input)
    ensures Piece(input, boundaries, |boundaries|) == From(input, StartOf(boundaries, |boundaries|))
    ensures Sorted(Piece(input, boundaries, |boundaries|)) && Sequenced(Piece(input, boundaries, |boundaries|))
  {
    FromIsSuffix(input, StartOf(boundaries, |boundaries|));
    BeforeNoEnd(From(input, StartOf(boundaries, |boundaries|)));
  }

  /** Range by range from `i` on: no open pair under the first output of a range that is not the first to put out. */
  ghost predicate HarmlessFrom(s: Setting, input: seq<Record>, boundaries: seq<int>, i: nat, first: bool)
    requires i <= |boundaries|
    decreases |boundaries| - i
  {
    var piece := Piece(input, boundaries, i);
    && (first || !PairUnderFirst(s, START, piece))
    && (i < |boundaries| ==> HarmlessFrom(s, input, boundaries, i + 1, first && Run(s, START, piece, first) == []))
  }

  /** A range puts out the run over its own records. */
  lemma RangeIsRunOfPiece(s: Setting, input: seq<Record>, boundaries: seq<int>, i: nat)
    requires ValidSetting(s) && Sorted(input) && Sequenced(input) && Increasing(boundaries) && i < |boundaries|
    ensures RangeOutput(s, input, StartOf(boundaries, i), EndOf(boundaries, i)) == Run(s, START, Piece(input, boundaries, i), true)
  {
    hide Run, Before, From, Visit, Sorted, Sequenced, Piece;
    PieceAndRest(input, boundaries, i);
    RunOfTwo(s, Piece(input, boundaries, i), From(input, StartOf(boundaries, i + 1)), true, boundaries[i]);
  }

  /** A pass from the start of a range is the run over that range, then the rest. */
  lemma PassOverPiece(s: Setting, input: seq<Record>, boundaries: seq<int>, i: nat, first: bool)
    requires ValidSetting(s) && Sorted(input) && Sequenced(input) && Increasing(boundaries) && i < |boundaries|
    ensures var mid, next := Run(s, START, Piece(input, boundaries, i), first), From(input, StartOf(boundaries, i + 1));
            var above := Run(s, START, next, first && mid == []);
            && Run(s, START, From(input, StartOf(boundaries, i)), first) == mid + above
            && (forall j :: 0 <= j < |mid| ==> mid[j].key < boundaries[i])
            && (above != [] ==> boundaries[i] <= above[0].key)
  {
    hide Run, Before, From, Visit, Sorted, Sequenced, Piece, KeysAscend;
    var piece, next := Piece(input, boundaries, i), From(input, StartOf(boundaries, i + 1));
    PieceAndRest(input, boundaries, i);
    RunOfTwo(s, piece, next, first, boundaries[i]);
    RunKeysAscend(s, START, next, first && Run(s, START, piece, first) == []);
  }

  /** Range `i` and the later ones, against a pass over the same input that may or may not mark its first output. */
  lemma SplitStepIff(s: Setting, input: seq<Record>, boundaries: seq<int>, i: nat, first: bool)
    requires ValidSetting(s) && Sorted(input) && Sequenced(input) && Increasing(boundaries) && i < |boundaries|
    ensures var piece := Piece(input, boundaries, i);
            var above := first && Run(s, START, piece, first) == [];
            SplitFrom(s, input, boundaries, i) == Run(s, START, From(input, StartOf(boundaries, i)), first) <==>
            && Run(s, START, piece, true) == Run(s, START, piece, first)
            && SplitFrom(s, input, boundaries, i + 1) == Run(s, START, From(input, StartOf(boundaries, i + 1)), above)
  {
    hide Run, Before, From, Visit, Sorted, Sequenced, Piece, KeysAscend, RangeOutput;
    var piece, next := Piece(input, boundaries, i), From(input, StartOf(boundaries, i + 1));
    var c := Run(s, START, piece, first);
    RangeIsRunOfPiece(s, input, boundaries, i);
    PassOverPiece(s, input, boundaries, i, true);
    PassOverPiece(s, input, boundaries, i, first);
    SplitStartsAtBoundary(s, input, boundaries, i + 1);
    SameParts(Run(s, START, piece, true), SplitFrom(s, input, boundaries, i + 1),
              c, Run(s, START, next, first && c == []), boundaries[i]);
  }

  lemma {:induction false} SplitFromIff(s: Setting, input: seq<Record>, boundaries: seq<int>, i: nat, first: bool)
    requires ValidSetting(s) && Sorted(input) && Sequenced(input) && Increasing(boundaries) && i <= |boundaries|
    ensures SplitFrom(s, input, boundaries, i) == Run(s, START, From(input, StartOf(boundaries, i)), first) <==>
            HarmlessFrom(s, input, boundaries, i, first)
    decreases |boundaries| - i
  {
    hide Run, Before, From, Visit, Sorted, Sequenced, PairUnderFirst, Piece;
    var piece := Piece(input, boundaries, i);
    if i == |boundaries| {
      LastPiece(input, boundaries);
      BeforeNoEnd(Run(s, START, piece, true));
      FirstMarkIff(s, START, piece);
    } else {
      PieceAndRest(input, boundaries, i);
      FirstMarkIff(s, START, piece);
      SplitStepIff(s, input, boundaries, i, first);
      hide SplitFrom;
      SplitFromIff(s, input, boundaries, i + 1, first && Run(s, START, piece, first) == []);
    }
  }

  /** Two outputs agree exactly when they agree below the cut and from it on. */
  lemma SameParts(a: seq<Record>, b: seq<Record>, c: seq<Record>, d: seq<Record>, cut: int)
    requires (forall i :: 0 <= i < |a| ==> a[i].key < cut) && (b != [] ==> cut <= b[0].key)
    requires (forall i :: 0 <= i < |c| ==> c[i].key < cut) && (d != [] ==> cut <= d[0].key)
    ensures a + b == c + d <==> a == c && b == d
  {
    BeforeTakes(a, b, cut);
    BeforeTakes(c, d, cut);
    SameTail(a, b, d);
  }

  lemma SplitStartsAtBoundary(s: Setting, input: seq<Record>, boundaries: seq<int>, i: nat)
    requires ValidSetting(s) && Sorted(input) && Sequenced(input) && Increasing(boundaries) && 0 < i <= |boundaries|
    ensures var split := SplitFrom(s, input, boundaries, i); split != [] ==> boundaries[i - 1] <= split[0].key
  {
    var split := SplitFrom(s, input, boundaries, i);
    if split != [] && split[0].key < boundaries[i - 1] {
      assert HasKey(split, split[0].key);
      LaterRangesAreHigher(s, input, boundaries, i, split[0].key);
    }
  }

  /** What the unsplit pass puts out below range `i`. */
  ghost function OutputBelow(s: Setting, input: seq<Record>, boundaries: seq<int>, i: nat): seq<Record>
    requires i <= |boundaries|
  {
    if i == 0 then [] else Before(Compacted(s, input), Some(boundaries[i - 1]))
  }

  lemma {:induction false} BeforeAllBelow(s: seq<Record>, end: int)
    ensures forall i :: 0 <= i < |Before(s, Some(end))| ==> Before(s, Some(end))[i].key < end
  {
    if s != [] { BeforeAllBelow(s[1..], end); }
  }

  /** The unsplit pass is what it puts out below range `i`, followed by the pass over the rest. */
  lemma OutputAtRange(s: Setting, input: seq<Record>, boundaries: seq<int>, i: nat)
    requires ValidSetting(s) && Sorted(input) && Sequenced(input) && Increasing(boundaries) && i < |boundaries|
    ensures var below := OutputBelow(s, input, boundaries, i);
            && Compacted(s, input) == below + Run(s, START, From(input, StartOf(boundaries, i)), below == [])
            && forall j :: 0 <= j < |below| ==> below[j].key < boundaries[i]
  {
    hide Run, Before, Visit, Sorted, Sequenced;
    if i > 0 {
      OneCut(s, input, true, boundaries[i - 1]);
      BeforeAllBelow(Compacted(s, input), boundaries[i - 1]);
    } else {
      assert [] + Compacted(s, input) == Compacted(s, input);
    }
  }

  lemma OutputOfPiece(s: Setting, input: seq<Record>, boundaries: seq<int>, i: nat)
    requires ValidSetting(s) && Sorted(input) && Sequenced(input) && Increasing(boundaries) && i < |boundaries|
    ensures var below := OutputBelow(s, input, boundaries, i);
            OutputBelow(s, input, boundaries, i + 1) == below + Run(s, START, Piece(input, boundaries, i), below == [])
  {
    var below := OutputBelow(s, input, boundaries, i);
    assert OutputBelow(s, input, boundaries, i + 1) == Before(Compacted(s, input), Some(boundaries[i]));
    hide Run, Before, From, Visit, Sorted, Sequenced, Piece, OutputBelow, Compacted;
    var mid := Run(s, START, Piece(input, boundaries, i), below == []);
    var above := Run(s, START, From(input, StartOf(boundaries, i + 1)), below == [] && mid == []);
    OutputAtRange(s, input, boundaries, i);
    PassOverPiece(s, input, boundaries, i, below == []);
    hide StartOf, EndOf;
    assert Compacted(s, input) == below + (mid + above);
    JoinedBefore(below, mid, above, boundaries[i]);
  }

  lemma JoinedBefore(a: seq<Record>, b: seq<Record>, c: seq<Record>, cut: int)
    requires forall i :: 0 <= i < |a| ==> a[i].key < cut
    requires forall i :: 0 <= i < |b| ==> b[i].key < cut
    requires c != [] ==> cut <= c[0].key
    ensures Before(a + (b + c), Some(cut)) == a + b
  {
    Regroup(a, b, c);
    BeforeTakes(a + b, c, cut);
  }

  lemma {:induction false} HarmlessMeans(s: Setting, input: seq<Record>, boundaries: seq<int>, i: nat)
    requires ValidSetting(s) && Sorted(input) && Sequenced(input) && Increasing(boundaries) && i <= |boundaries|
    ensures HarmlessFrom(s, input, boundaries, i, OutputBelow(s, input, boundaries, i) == []) <==>
            forall j :: i <= j <= |boundaries| && OutputBelow(s, input, boundaries, j) != [] ==>
                          !PairUnderFirst(s, START, Piece(input, boundaries, j))
    decreases |boundaries| - i
  {
    hide Run, Before, Piece, PairUnderFirst, Sorted, Sequenced, Compacted;
    if i < |boundaries| {
      OutputOfPiece(s, input, boundaries, i);
      hide OutputBelow;
      HarmlessMeans(s, input, boundaries, i + 1);
    }
  }

  /**
   * The concatenated subcompaction outputs are the unsplit output exactly when no range has an open
   * SingleDelete pair under its first output while something is put out below the range.
   */
  lemma SplitEqualsUnsplitIff(s: Setting, input: seq<Record>, boundaries: seq<int>)
    requires ValidSetting(s) && Sorted(input) && Sequenced(input) && Increasing(boundaries)
    ensures SplitFrom(s, input, boundaries, 0) == Compacted(s, input) <==>
            forall i :: 0 < i <= |boundaries| && Before(Compacted(s, input), Some(boundaries[i - 1])) != [] ==>
                          !PairUnderFirst(s, START, Piece(input, boundaries, i))
  {
    SplitFromIff(s, input, boundaries, 0, true);
    HarmlessMeans(s, input, boundaries, 0);
    assert forall i :: 0 < i <= |boundaries| ==>
             OutputBelow(s, input, boundaries, i) == Before(Compacted(s, input), Some(boundaries[i - 1]));
  }

  ghost predicate OnlyPutsAndDeletes(s: seq<Record>) {
    forall i :: 0 <= i < |s| ==> !s[i].kind.SingleDeletion?
  }

  lemma {:induction false} NoPairWithoutSingleDelete(s: Setting, c: Carry, rest: seq<Record>)
    requires OnlyPutsAndDeletes(rest)
    ensures !PairUnder(s, c, rest) && !PairUnderFirst(s, c, rest)
    decreases |rest|
  {
    if rest != [] {
      var t := Visit(s, c, rest);
      NoPairWithoutSingleDelete(s, t.carry, rest[t.used..]);
    }
  }

  /** For inputs of Puts and Deletes the outputs always agree. */
  lemma SplitEqualsUnsplit(s: Setting, input: seq<Record>, boundaries: seq<int>)
    requires ValidSetting(s) && Sorted(input) && Sequenced(input) && Increasing(boundaries) && OnlyPutsAndDeletes(input)
    ensures SplitFrom(s, input, boundaries, 0) == Compacted(s, input)
  {
    SplitEqualsUnsplitIff(s, input, boundaries);
    forall i | 0 < i <= |boundaries|
      ensures !PairUnderFirst(s, START, Piece(input, boundaries, i))
    {
      hide SplitFrom, Run, Before, Piece, PairUnderFirst;
      PieceIsPart(input, boundaries, i);
      NoPairWithoutSingleDelete(s, START, Piece(input, boundaries, i));
    }
  }

  lemma PieceIsPart(input: seq<Record>, boundaries: seq<int>, i: nat)
    requires Sorted(input) && Sequenced(input) && 0 < i <= |boundaries| && OnlyPutsAndDeletes(input)
    ensures OnlyPutsAndDeletes(Piece(input, boundaries, i))
  {
    hide Before, From, Sorted, Sequenced;
    var below := SeekSplits(input, boundaries[i - 1]);
    var from := From(input, StartOf(boundaries, i));
    assert forall j :: 0 <= j < |from| ==> from[j] == input[j + |below|];
    BeforeIsPrefix(from, EndOf(boundaries, i));
  }

  lemma {:induction false} BeforeIsPrefix(s: seq<Record>, end: Option<int>)
    ensures Before(s, end) <= s
  {
    if s != [] && !(end.Some? && s[0].key >= end.value) { BeforeIsPrefix(s[1..], end); }
  }

  // ---- an input the condition excludes ----

  // A key whose newest Put sits on top of a SingleDelete pair, after another key.
  const OTHER := Record(1, 40, Value, "a")
  const NEWEST := Record(5, 30, Value, "b")
  const SINGLE := Record(5, 20, SingleDeletion, "")
  const OLDEST := Record(5, 10, Value, "c")
  const SPLIT_SETTING := Setting([5], 5, Some(Plan([[], [], []], 1, false, false, 5)))

  lemma SampleIsSorted()
    ensures Sorted([OTHER, NEWEST, SINGLE, OLDEST]) && Sequenced([OTHER, NEWEST, SINGLE, OLDEST])
  {
    var pair := [SINGLE, OLDEST];
    assert pair[1..] == [OLDEST] && Sorted([OLDEST]) && Sequenced([OLDEST]) by { assert [OLDEST][1..] == []; }
    var tail := [NEWEST, SINGLE, OLDEST];
    assert tail[1..] == pair && Sorted(pair) && Sequenced(pair);
    assert [OTHER, NEWEST, SINGLE, OLDEST][1..] == tail && Sorted(tail) && Sequenced(tail);
  }

  lemma SampleHasPair()
    ensures PairUnderFirst(SPLIT_SETTING, START, [NEWEST, SINGLE, OLDEST])
  {
    var s, tail := SPLIT_SETTING, [NEWEST, SINGLE, OLDEST];
    var t := Visit(s, START, tail);
    assert t.out == Some(NEWEST) && tail[1..] == [SINGLE, OLDEST];
    assert OpenPair(s, [SINGLE, OLDEST]);
  }

  /**
   * With SingleDeletes the outputs may differ: `SeekToFirst` does not mark the first key of a range
   * as put out, so a pair that the unsplit pass eliminates is kept by the range that starts with it.
   */
  lemma SplitCanKeepSingleDeletes()
    ensures ValidSetting(SPLIT_SETTING)
    ensures Sorted([OTHER, NEWEST, SINGLE, OLDEST]) && Sequenced([OTHER, NEWEST, SINGLE, OLDEST])
    ensures SplitFrom(SPLIT_SETTING, [OTHER, NEWEST, SINGLE, OLDEST], [5], 0) !=
            Compacted(SPLIT_SETTING, [OTHER, NEWEST, SINGLE, OLDEST])
  {
    var s, input, tail := SPLIT_SETTING, [OTHER, NEWEST, SINGLE, OLDEST], [NEWEST, SINGLE, OLDEST];
    SampleIsSorted();
    SampleHasPair();
    assert Visit(s, START, input).out == Some(OTHER);
    assert Compacted(s, input)[0] == Prepare(s, OTHER);
    assert input[1..] == tail && From(input, Some(5)) == tail;
    LastPiece(input, [5]);
    SplitEqualsUnsplitIff(s, input, [5]);
    assert Before(Compacted(s, input), Some([5][0])) != [];
  }

  // ---- every input: the split output reads as the input did ----

  lemma {:induction false} BeforeKeepsLower(s: seq<Record>, end: int, key: int, at: nat)
    requires KeysAscend(s) && key < end
    ensures Visible(Before(s, Some(end)), key, at) == Visible(s, key, at)
  {
    if s == [] {
    } else if s[0].key >= end {
      AllAbove(s, key);
      VisibleOnlyIfPresent(s, key, at);
    } else {
      assert ([s[0]] + Before(s[1..], Some(end)))[1..] == Before(s[1..], Some(end));
      BeforeKeepsLower(s[1..], end, key, at);
    }
  }

  lemma {:induction false} AllAbove(s: seq<Record>, key: int)
    requires KeysAscend(s) && (s != [] ==> key < s[0].key)
    ensures !HasKey(s, key)
  {
    if s != [] {
      AllAbove(s[1..], key);
      assert forall i :: 0 < i < |s| ==> s[i] == s[1..][i - 1];
    }
  }

  lemma {:induction false} BeforeIsBelow(s: seq<Record>, end: int, key: int)
    requires end <= key
    ensures !HasKey(Before(s, Some(end)), key)
  {
    if s != [] && s[0].key < end {
      BeforeIsBelow(s[1..], end, key);
      var tail := Before(s[1..], Some(end));
      assert forall i :: 0 < i < |[s[0]] + tail| ==> ([s[0]] + tail)[i] == tail[i - 1];
    }
  }

  lemma {:induction false} BeforeHasKey(s: seq<Record>, end: Option<int>, key: int)
    ensures HasKey(Before(s, end), key) ==> HasKey(s, key)
  {
    if s != [] && !(end.Some? && s[0].key >= end.value) {
      BeforeHasKey(s[1..], end, key);
      var tail := Before(s[1..], end);
      assert forall i :: 0 < i < |[s[0]] + tail| ==> ([s[0]] + tail)[i] == tail[i - 1];
      if HasKey(s[1..], key) {
        var i :| 0 <= i < |s[1..]| && s[1..][i].key == key;
        assert s[i + 1].key == key;
      }
      assert s[0].key == key ==> HasKey(s, key);
    }
  }

  /** Ranges from a boundary on put out nothing below it. */
  lemma {:induction false} LaterRangesAreHigher(s: Setting, input: seq<Record>, boundaries: seq<int>, i: nat, key: int)
    requires ValidSetting(s) && Sorted(input) && Sequenced(input)
    requires Increasing(boundaries) && 0 < i <= |boundaries| && key < boundaries[i - 1]
    ensures !HasKey(SplitFrom(s, input, boundaries, i), key)
    decreases |boundaries| - i
  {
    var from := From(input, StartOf(boundaries, i));
    var below := SeekSplits(input, boundaries[i - 1]);
    FromIsSuffix(input, StartOf(boundaries, i));
    KeyPassed(from, key);
    RunAddsNoKeys(s, START, from, true, key);
    BeforeHasKey(Run(s, START, from, true), EndOf(boundaries, i), key);
    if i < |boundaries| {
      LaterRangesAreHigher(s, input, boundaries, i + 1, key);
    }
  }

  lemma ReadInFront(a: seq<Record>, b: seq<Record>, deeper: seq<Record>, key: int, at: nat)
    ensures !HasKey(a, key) ==> Read(a + b + deeper, key, at) == Read(b + deeper, key, at)
    ensures !HasKey(b, key) ==> Read(a + b + deeper, key, at) == Read(a + deeper, key, at)
  {
    VisibleOnlyIfPresent(a, key, at);
    VisibleOnlyIfPresent(b, key, at);
    VisibleAppend(a + b, deeper, key, at);
    VisibleAppend(a, b, key, at);
    VisibleAppend(a, deeper, key, at);
    VisibleAppend(b, deeper, key, at);
  }

  /** Dropping other keys from the front of the input changes nothing for a key's contract or reads. */
  lemma {:induction false} ContractFrom(s: Setting, below: seq<Record>, rest: seq<Record>, deeper: seq<Record>, key: int, at: nat)
    requires UsageContract(s, below + rest, deeper, key) && !HasKey(below, key)
    ensures UsageContract(s, rest, deeper, key)
    ensures Read(below + rest + deeper, key, at) == Read(rest + deeper, key, at)
  {
    if below == [] {
      assert below + rest == rest;
    } else {
      var all := below + rest;
      assert all[0] == below[0] && below[0].key != key;
      assert all[1..] == below[1..] + rest && (all + deeper)[1..] == all[1..] + deeper;
      assert forall i :: 0 <= i < |all[1..]| ==> all[1..][i] == all[i + 1];
      assert forall i :: 0 <= i < |below[1..]| ==> below[1..][i] == below[i + 1];
      ContractFrom(s, below[1..], rest, deeper, key, at);
    }
  }

  /** Reads survive any split into increasing ranges, SingleDeletes included. */
  lemma SplitPreservesReads(s: Setting, input: seq<Record>, deeper: seq<Record>, boundaries: seq<int>, key: int, at: nat)
    requires ValidSetting(s) && Sorted(input) && Sequenced(input) && Live(s.snapshots, at)
    requires UsageContract(s, input, deeper, key) && LevelTestHonest(s, deeper, key)
    requires Increasing(boundaries)
    ensures Read(SplitFrom(s, input, boundaries, 0) + deeper, key, at) == Read(input + deeper, key, at)
  {
    SplitReadsFrom(s, input, deeper, boundaries, 0, key, at);
  }

  lemma {:induction false} SplitReadsFrom(s: Setting, input: seq<Record>, deeper: seq<Record>, boundaries: seq<int>,
                                          i: nat, key: int, at: nat)
    requires ValidSetting(s) && Sorted(input) && Sequenced(input) && Live(s.snapshots, at)
    requires UsageContract(s, input, deeper, key) && LevelTestHonest(s, deeper, key)
    requires Increasing(boundaries) && i <= |boundaries| && (i > 0 ==> boundaries[i - 1] <= key)
    ensures Read(SplitFrom(s, input, boundaries, i) + deeper, key, at) == Read(input + deeper, key, at)
    decreases |boundaries| - i
  {
    var from := From(input, StartOf(boundaries, i));
    var run := Run(s, START, from, true);
    var part := RangeOutput(s, input, StartOf(boundaries, i), EndOf(boundaries, i));
    var later := if i == |boundaries| then [] else SplitFrom(s, input, boundaries, i + 1);
    if i < |boundaries| && boundaries[i] <= key {
      BeforeIsBelow(run, boundaries[i], key);
      ReadInFront(part, later, deeper, key, at);
      SplitReadsFrom(s, input, deeper, boundaries, i + 1, key, at);
    } else {
      if i < |boundaries| { LaterRangesAreHigher(s, input, boundaries, i + 1, key); }
      ReadInFront(part, later, deeper, key, at);
      OneRangeReads(s, input, deeper, StartOf(boundaries, i), EndOf(boundaries, i), key, at);
    }
  }

  /** A single range answers for the keys inside it. */
  lemma OneRangeReads(s: Setting, input: seq<Record>, deeper: seq<Record>, start: Option<int>, end: Option<int>,
                      key: int, at: nat)
    requires ValidSetting(s) && Sorted(input) && Sequenced(input) && Live(s.snapshots, at)
    requires UsageContract(s, input, deeper, key) && LevelTestHonest(s, deeper, key)
    requires (start.Some? ==> start.value <= key) && (end.Some? ==> key < end.value)
    ensures Read(RangeOutput(s, input, start, end) + deeper, key, at) == Read(input + deeper, key, at)
  {
    var from := From(input, start);
    FromIsSuffix(input, start);
    var run := Run(s, START, from, true);
    if start.Some? {
      var below := SeekSplits(input, start.value);
      ContractFrom(s, below, from, deeper, key, at);
    }
    CompactionPreservesReads(s, from, deeper, key, at);
    RunKeysAscend(s, START, from, true);
    if end.Some? { BeforeKeepsLower(run, end.value, key, at); } else { BeforeNoEnd(run); }
    VisibleAppend(run, deeper, key, at);
    VisibleAppend(Before(run, end), deeper, key, at);
  }
}
