/** The clock hand of a CLOCK cache shard: what a sweep makes of the handles, and when it makes room. */
module ClockSweeps {
  import opened Wrappers
  import opened ClockFlags

  datatype CacheKey = CacheKey(key: string, hash: nat)

  datatype Handle = Handle(key: CacheKey, value: Option<string>, charge: nat, flags: Flags)

  /** An entry handed to its deleter. */
  datatype Deleted = Deleted(key: CacheKey, value: Option<string>)

  // ---- charges ----

  function Charge(h: Handle, pinnedOnly: bool): nat {
    if (if pinnedOnly then h.flags.refs > 0 else Live(h.flags)) then h.charge else 0
  }

  /** Total charge of the live handles, or of the referenced ones only. */
  function Total(list: seq<Handle>, pinnedOnly: bool): nat {
    if list == [] then 0 else Total(list[..|list| - 1], pinnedOnly) + Charge(list[|list| - 1], pinnedOnly)
  }

  lemma {:induction false} TotalUpdate(list: seq<Handle>, i: nat, h: Handle, pinnedOnly: bool)
    requires i < |list|
    ensures Total(list[i := h], pinnedOnly) + Charge(list[i], pinnedOnly) == Total(list, pinnedOnly) + Charge(h, pinnedOnly)
    ensures Total(list, pinnedOnly) >= Charge(list[i], pinnedOnly)
  {
    var n := |list| - 1;
    if i == n {
      assert list[i := h][..n] == list[..n];
    } else {
      assert list[i := h][..n] == list[..n][i := h];
      TotalUpdate(list[..n], i, h, pinnedOnly);
    }
  }

  lemma {:induction false} PinnedWithinUsage(list: seq<Handle>)
    ensures Total(list, true) <= Total(list, false)
  {
    if list != [] { PinnedWithinUsage(list[..|list| - 1]); }
  }

  /** When nothing is cached any more, what is live is what is referenced. */
  lemma {:induction false} LiveIsPinned(list: seq<Handle>)
    requires forall i :: 0 <= i < |list| ==> !list[i].flags.inCache
    ensures Total(list, true) == Total(list, false)
  {
    if list != [] {
      var n := |list| - 1;
      assert forall i :: 0 <= i < n ==> list[..n][i] == list[i];
      LiveIsPinned(list[..n]);
    }
  }

  /** Without zero charges, an idle usage counter means there is no live handle. */
  lemma {:induction false} NothingLive(list: seq<Handle>)
    requires Total(list, false) == 0 && forall i :: 0 <= i < |list| && Live(list[i].flags) ==> list[i].charge > 0
    ensures forall i :: 0 <= i < |list| ==> !Live(list[i].flags)
  {
    if list != [] {
      var n := |list| - 1;
      assert forall i :: 0 <= i < n ==> list[..n][i] == list[i];
      NothingLive(list[..n]);
    }
  }

  // ---- what one eviction pass may do to a handle ----

  predicate Evictable(f: Flags) {
    f.inCache && f.refs == 0
  }

  function Emptied(h: Handle): Handle {
    Handle(CacheKey("", h.key.hash), None, h.charge, CLEAR)
  }

  /** Either only the usage bit was cleared, or an unreferenced cached entry was emptied. */
  ghost predicate Aged(before: Handle, after: Handle) {
    || after == before
    || after == before.(flags := before.flags.(usage := false))
    || (Evictable(before.flags) && after == Emptied(before))
  }

  /** What one examination makes of a handle. */
  function Examined(h: Handle): Handle {
    if h.flags == Flags(true, false, 0) then Emptied(h) else h.(flags := h.flags.(usage := false))
  }

  function NextHand(hand: nat, n: nat): nat {
    if hand + 1 >= n then 0 else hand + 1
  }

  function HandAfter(head: nat, calls: nat, n: nat): (hand: nat)
    requires head < n
    ensures hand < n
  {
    if calls == 0 then head else NextHand(HandAfter(head, calls - 1, n), n)
  }

  /** The handles after the clock hand has examined `calls` of them. */
  function SweptList(list: seq<Handle>, head: nat, calls: nat): (r: seq<Handle>)
    requires head < |list|
    ensures |r| == |list|
  {
    if calls == 0 then list
    else
      var p := SweptList(list, head, calls - 1);
      var hand := HandAfter(head, calls - 1, |list|);
      p[hand := Examined(p[hand])]
  }

  /** The entries those examinations hand to their deleters, in order. */
  ghost function EvictedBy(list: seq<Handle>, head: nat, calls: nat): seq<Deleted>
    requires head < |list|
  {
    if calls == 0 then []
    else
      var h := SweptList(list, head, calls - 1)[HandAfter(head, calls - 1, |list|)];
      EvictedBy(list, head, calls - 1) + if h.flags == Flags(true, false, 0) then [Deleted(h.key, h.value)] else []
  }

  /** How far `i` is ahead of the clock hand. */
  function Ahead(i: nat, head: nat, n: nat): nat
    requires i < n && head < n
  {
    if i >= head then i - head else i + n - head
  }

  /** Where the loop stands: the list as swept so far, the hand, and the round. */
  ghost predicate AtPoint(list0: seq<Handle>, head: nat, calls: nat, list: seq<Handle>, hand: nat, second: bool) {
    && head < |list0| && calls < 2 * |list0|
    && list == SweptList(list0, head, calls) && hand == HandAfter(head, calls, |list0|)
    && second == (calls >= |list0|)
  }

  lemma PointIsSwept(list0: seq<Handle>, head: nat, calls: nat, list: seq<Handle>, hand: nat, second: bool)
    requires AtPoint(list0, head, calls, list, hand, second)
    ensures head < |list0| && list == SweptList(list0, head, calls) && hand == HandAfter(head, calls, |list0|)
  {
  }

  lemma EvictedNext(list0: seq<Handle>, head: nat, calls: nat, list: seq<Handle>, hand: nat, second: bool, earlier: seq<Deleted>)
    requires AtPoint(list0, head, calls, list, hand, second)
    ensures hand < |list|
    ensures earlier + EvictedBy(list0, head, calls + 1) ==
            earlier + EvictedBy(list0, head, calls) +
            if list[hand].flags == Flags(true, false, 0) then [Deleted(list[hand].key, list[hand].value)] else []
  {
    var more := if list[hand].flags == Flags(true, false, 0) then [Deleted(list[hand].key, list[hand].value)] else [];
    assert earlier + (EvictedBy(list0, head, calls) + more) == earlier + EvictedBy(list0, head, calls) + more;
  }

  lemma NextPoint(list0: seq<Handle>, head: nat, calls: nat, list: seq<Handle>, hand: nat, second: bool, charge: nat, capacity: nat)
    requires AtPoint(list0, head, calls, list, hand, second)
    requires NoRoomBefore(list0, head, calls, charge, capacity) && Total(list, false) + charge > capacity
    ensures hand < |list| == |list0| && NoRoomBefore(list0, head, calls + 1, charge, capacity)
    ensures var after, next := list[hand := Examined(list[hand])], if hand + 1 >= |list| then 0 else hand + 1;
            if next == head && second then calls + 1 == 2 * |list0| && after == SweptList(list0, head, calls + 1)
            else AtPoint(list0, head, calls + 1, after, next, second || next == head) && calls + 1 < 2 * |list0|
  {
    HandPosition(head, calls, |list0|);
    HandPosition(head, calls + 1, |list0|);
    hide Total, Examined;
  }

  /** At none of the first `calls` points of the sweep does the charge fit. */
  ghost predicate NoRoomBefore(list: seq<Handle>, head: nat, calls: nat, charge: nat, capacity: nat)
    requires head < |list|
  {
    forall k :: 0 <= k < calls ==> Total(SweptList(list, head, k), false) + charge > capacity
  }

  /**
   * How room is made: the sweep stops at the first point within two rounds where the charge fits,
   * and gives up after exactly two rounds. An idle cache is not swept at all.
   */
  ghost predicate RoomMade(before: seq<Handle>, head: nat, usage: nat, charge: nat, capacity: nat,
                           success: bool, calls: nat, after: seq<Handle>) {
    if usage == 0 then calls == 0 && success == (charge <= capacity) && after == before
    else
      && head < |before|
      && after == SweptList(before, head, calls) && NoRoomBefore(before, head, calls, charge, capacity)
      && (if success then calls < 2 * |before| && Total(after, false) + charge <= capacity else calls == 2 * |before|)
  }

  /** Nothing is evicted in vain: one examination earlier the charge did not fit. */
  lemma NoExaminationInVain(before: seq<Handle>, head: nat, usage: nat, charge: nat, capacity: nat, calls: nat, after: seq<Handle>)
    requires RoomMade(before, head, usage, charge, capacity, true, calls, after) && calls > 0
    ensures head < |before| && Total(SweptList(before, head, calls - 1), false) + charge > capacity
    ensures Total(after, false) + charge <= capacity
  {
  }

  lemma FailedSweep(before: seq<Handle>, head: nat, usage: nat, charge: nat, capacity: nat, calls: nat, after: seq<Handle>)
    requires RoomMade(before, head, usage, charge, capacity, false, calls, after) && usage > 0
    ensures forall i :: 0 <= i < |after| ==> !Evictable(after[i].flags)
  {
    hide SweptList, NoRoomBefore, Total;
    TwoRoundsEvictAll(before, head);
    assert calls == 2 * |before|;
    assert after == SweptList(before, head, 2 * |before|);
  }

  /** Failure means that nothing cached is left without references, except for entries of no charge. */
  lemma FailureMeansAllPinned(before: seq<Handle>, head: nat, charge: nat, capacity: nat, calls: nat, after: seq<Handle>, i: nat)
    requires RoomMade(before, head, Total(before, false), charge, capacity, false, calls, after)
    requires forall k :: 0 <= k < |before| && Live(before[k].flags) ==> before[k].charge > 0
    requires i < |after|
    ensures !Evictable(after[i].flags)
  {
    hide SweptList, NoRoomBefore, Total;
    if Total(before, false) == 0 {
      NothingLive(before);
    } else {
      FailedSweep(before, head, Total(before, false), charge, capacity, calls, after);
    }
  }

  lemma SweepStart(list: seq<Handle>, head: nat, charge: nat, capacity: nat)
    requires head < |list| || list == []
    ensures Total(list, false) > 0 ==>
              list != [] && SweptList(list, head, 0) == list && HandAfter(head, 0, |list|) == head &&
              NoRoomBefore(list, head, 0, charge, capacity) && AtPoint(list, head, 0, list, head, false) &&
              EvictedBy(list, head, 0) == []
  {
  }

  lemma {:induction false} HandPosition(head: nat, calls: nat, n: nat)
    requires head < n && calls <= 2 * n
    ensures HandAfter(head, calls, n) ==
            if head + calls >= 2 * n then head + calls - 2 * n else if head + calls >= n then head + calls - n else head + calls
    ensures HandAfter(head, calls, n) == head <==> calls == 0 || calls == n || calls == 2 * n
  {
    if calls > 0 { HandPosition(head, calls - 1, n); }
  }

  /** What the hand has dealt with: usage cleared in the first round, evicted in the second. */
  ghost predicate Swept(list: seq<Handle>, head: nat, calls: nat)
    requires head < |list|
  {
    && (forall i :: 0 <= i < |list| && Ahead(i, head, |list|) < calls ==> !list[i].flags.usage)
    && (forall i :: 0 <= i < |list| && Ahead(i, head, |list|) + |list| < calls ==> !Evictable(list[i].flags))
  }

  lemma {:induction false} SweepProgress(list: seq<Handle>, head: nat, calls: nat)
    requires head < |list| && calls <= 2 * |list|
    ensures Swept(SweptList(list, head, calls), head, calls)
  {
    if calls > 0 {
      SweepProgress(list, head, calls - 1);
      HandPosition(head, calls - 1, |list|);
      var p := SweptList(list, head, calls - 1);
      var hand := HandAfter(head, calls - 1, |list|);
      var q := p[hand := Examined(p[hand])];
      hide SweptList, HandAfter;
      forall i | 0 <= i < |q|
        ensures Ahead(i, head, |q|) < calls ==> !q[i].flags.usage
        ensures Ahead(i, head, |q|) + |q| < calls ==> !Evictable(q[i].flags)
      {
        assert i != hand ==> q[i] == p[i];
      }
    }
  }

  /** Two rounds leave no cached entry without references. */
  lemma TwoRoundsEvictAll(list: seq<Handle>, head: nat)
    requires head < |list|
    ensures var after := SweptList(list, head, 2 * |list|); forall i :: 0 <= i < |after| ==> !Evictable(after[i].flags)
  {
    SweepProgress(list, head, 2 * |list|);
    var after := SweptList(list, head, 2 * |list|);
    forall i | 0 <= i < |after|
      ensures !Evictable(after[i].flags)
    {
      assert Ahead(i, head, |after|) + |after| < 2 * |list|;
    }
  }

  /** A sweep only clears usage bits and empties cached entries nobody refers to. */
  lemma {:induction false} SweepOnlyAges(list: seq<Handle>, head: nat, calls: nat, i: nat)
    requires head < |list| && i < |list|
    ensures Aged(list[i], SweptList(list, head, calls)[i])
    ensures list[i].flags.refs > 0 || !list[i].flags.inCache ==>
              SweptList(list, head, calls)[i] in {list[i], list[i].(flags := list[i].flags.(usage := false))}
  {
    if calls > 0 { SweepOnlyAges(list, head, calls - 1, i); }
  }

  /** A recently used entry survives the first round: nothing whose usage bit is set goes before `|list|` calls. */
  lemma {:induction false} SecondChance(list: seq<Handle>, head: nat, calls: nat, i: nat)
    requires head < |list| && i < |list| && calls <= |list| && list[i].flags.usage
    ensures SweptList(list, head, calls)[i] ==
            if Ahead(i, head, |list|) < calls then list[i].(flags := list[i].flags.(usage := false)) else list[i]
  {
    if calls > 0 {
      SecondChance(list, head, calls - 1, i);
      HandPosition(head, calls - 1, |list|);
    }
  }

  // ---- exactly when a sweep makes room ----

  /** A handle after so many examinations. */
  function ExaminedTimes(h: Handle, times: nat): Handle {
    if times == 0 then h else Examined(ExaminedTimes(h, times - 1))
  }

  /** How often the first `calls` examinations come to handle `i`. */
  function Visits(i: nat, head: nat, n: nat, calls: nat): nat
    requires i < n && head < n
  {
    if Ahead(i, head, n) + n < calls then 2 else if Ahead(i, head, n) < calls then 1 else 0
  }

  /** Within two rounds every handle is examined once a round, in the order of the hand. */
  lemma {:induction false} SweptHandle(list: seq<Handle>, head: nat, calls: nat, i: nat)
    requires head < |list| && i < |list| && calls <= 2 * |list|
    ensures SweptList(list, head, calls)[i] == ExaminedTimes(list[i], Visits(i, head, |list|, calls))
  {
    if calls > 0 {
      SweptHandle(list, head, calls - 1, i);
      HandPosition(head, calls - 1, |list|);
    }
  }

  /** An examination never adds to the charge. */
  lemma {:induction false} SweepShrinks(list: seq<Handle>, head: nat, early: nat, late: nat)
    requires head < |list| && early <= late
    ensures Total(SweptList(list, head, late), false) <= Total(SweptList(list, head, early), false)
  {
    if early < late {
      SweepShrinks(list, head, early, late - 1);
      var p := SweptList(list, head, late - 1);
      var hand := HandAfter(head, late - 1, |list|);
      TotalUpdate(p, hand, Examined(p[hand]), false);
    }
  }

  /** The charge of the handle just behind the hand if it needs a second examination to go: the sweep comes too late for it. */
  function SparedCharge(list: seq<Handle>, head: nat): nat
    requires head < |list| || list == []
  {
    if list == [] then 0
    else
      var last := list[if head == 0 then |list| - 1 else head - 1];
      if last.flags == Flags(true, true, 0) then last.charge else 0
  }

  /** Two lists whose charges agree but for an extra at one place. */
  lemma {:induction false} TotalsDiffer(a: seq<Handle>, b: seq<Handle>, at: nat, extra: nat)
    requires |a| == |b|
    requires forall i :: 0 <= i < |a| ==> Charge(a[i], false) == Charge(b[i], true) + if i == at then extra else 0
    ensures Total(a, false) == Total(b, true) + if at < |a| then extra else 0
  {
    if a != [] {
      var n := |a| - 1;
      assert forall i :: 0 <= i < n ==> a[..n][i] == a[i] && b[..n][i] == b[i];
      TotalsDiffer(a[..n], b[..n], at, extra);
    }
  }

  /** One examination short of two rounds, what is left is what is referenced, and perhaps the handle behind the hand. */
  lemma LastChance(list: seq<Handle>, head: nat)
    requires head < |list|
    ensures Total(SweptList(list, head, 2 * |list| - 1), false) == Total(list, true) + SparedCharge(list, head)
  {
    var n := |list|;
    var after := SweptList(list, head, 2 * n - 1);
    var last := if head == 0 then n - 1 else head - 1;
    forall i | 0 <= i < n
      ensures Charge(after[i], false) == Charge(list[i], true) + if i == last then SparedCharge(list, head) else 0
    {
      SweptHandle(list, head, 2 * n - 1, i);
      assert Visits(i, head, n, 2 * n - 1) == if i == last then 1 else 2;
      assert ExaminedTimes(list[i], 1) == Examined(list[i]) && ExaminedTimes(list[i], 2) == Examined(Examined(list[i]));
    }
    TotalsDiffer(after, list, last, SparedCharge(list, head));
  }

  /** Both rounds together leave exactly what is referenced. */
  lemma TwoRoundsLeavePinned(list: seq<Handle>, head: nat)
    requires head < |list|
    ensures Total(SweptList(list, head, 2 * |list|), false) == Total(list, true)
  {
    var n := |list|;
    var after := SweptList(list, head, 2 * n);
    forall i | 0 <= i < n
      ensures Charge(after[i], false) == Charge(list[i], true)
    {
      SweptHandle(list, head, 2 * n, i);
      assert ExaminedTimes(list[i], 1) == Examined(list[i]) && ExaminedTimes(list[i], 2) == Examined(Examined(list[i]));
    }
    TotalsDiffer(after, list, n, 0);
  }

  /** Eviction succeeds exactly when the charge fits beside the referenced entries and the one the sweep spares. */
  lemma SuccessIff(before: seq<Handle>, head: nat, charge: nat, capacity: nat, success: bool, calls: nat, after: seq<Handle>)
    requires head < |before| || before == []
    requires RoomMade(before, head, Total(before, false), charge, capacity, success, calls, after)
    ensures success <==> Total(before, true) + SparedCharge(before, head) + charge <= capacity
  {
    hide SweptList, Total, SparedCharge, HandAfter, NoRoomBefore;
    if Total(before, false) == 0 {
      NothingIsSpared(before, head);
    } else {
      LastChance(before, head);
      if success {
        SweepShrinks(before, head, calls, 2 * |before| - 1);
      } else {
        NoRoomAtLast(before, head, charge, capacity);
      }
    }
  }

  lemma NoRoomAtLast(list: seq<Handle>, head: nat, charge: nat, capacity: nat)
    requires head < |list| && NoRoomBefore(list, head, 2 * |list|, charge, capacity)
    ensures Total(SweptList(list, head, 2 * |list| - 1), false) + charge > capacity
  {
  }

  lemma NothingIsSpared(list: seq<Handle>, head: nat)
    requires (head < |list| || list == []) && Total(list, false) == 0
    ensures Total(list, true) == 0 && SparedCharge(list, head) == 0
  {
    PinnedWithinUsage(list);
    if list != [] {
      var last := if head == 0 then |list| - 1 else head - 1;
      TotalUpdate(list, last, list[last], false);
    }
  }

  /** Failure is reported although there is room exactly when only the spared entry was in the way. */
  lemma FailureWithRoomIff(before: seq<Handle>, head: nat, charge: nat, capacity: nat, success: bool, calls: nat, after: seq<Handle>)
    requires head < |before| || before == []
    requires RoomMade(before, head, Total(before, false), charge, capacity, success, calls, after)
    ensures !success && Total(after, false) + charge <= capacity <==>
            Total(before, true) + charge <= capacity < Total(before, true) + SparedCharge(before, head) + charge
  {
    SuccessIff(before, head, charge, capacity, success, calls, after);
    if Total(before, false) == 0 {
      NothingIsSpared(before, head);
    } else if !success {
      TwoRoundsLeavePinned(before, head);
    }
  }

  /** For instance with one entry, used since last seen, when room is wanted for another of its size. */
  lemma RoomFoundTooLate(success: bool, calls: nat, after: seq<Handle>)
    requires RoomMade([USED], 0, Total([USED], false), 1, 1, success, calls, after)
    ensures !success && Total(after, false) + 1 <= 1
  {
    assert [USED][..0] == [] && Total([], true) == 0;
    assert Total([USED], true) == Total([], true) + Charge(USED, true);
    assert SparedCharge([USED], 0) == 1;
    FailureWithRoomIff([USED], 0, 1, 1, success, calls, after);
  }

  const USED := Handle(CacheKey("k", 0), Some("v"), 1, Flags(true, true, 0))
}
