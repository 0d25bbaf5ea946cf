/** The intrusive two-pool LRU list of a cache shard, proved against two sequences. */
module LruLists {
  import opened Wrappers
  import opened LruHandles

  // ---- sequences of handles ----

  /** Total charge. */
  function Charge(s: seq<LRUHandle>): nat {
    if s == [] then 0 else s[0].charge + Charge(s[1..])
  }

  /** `s` with every occurrence of `e` left out. */
  function Minus(s: seq<LRUHandle>, e: LRUHandle): seq<LRUHandle> {
    if s == [] then [] else if s[0] == e then Minus(s[1..], e) else [s[0]] + Minus(s[1..], e)
  }

  lemma {:induction false} ChargeAppend(s: seq<LRUHandle>, t: seq<LRUHandle>)
    ensures Charge(s + t) == Charge(s) + Charge(t)
  {
    if s == [] {
      assert s + t == t;
    } else {
      assert (s + t)[1..] == s[1..] + t;
      ChargeAppend(s[1..], t);
    }
  }

  lemma ChargePush(s: seq<LRUHandle>, e: LRUHandle)
    ensures Charge(s + [e]) == Charge(s) + e.charge
  {
    ChargeAppend(s, [e]);
  }

  lemma {:induction false} MinusMembers(s: seq<LRUHandle>, e: LRUHandle)
    ensures forall i :: 0 <= i < |Minus(s, e)| ==> Minus(s, e)[i] in s && Minus(s, e)[i] != e
    ensures forall i :: 0 <= i < |s| && s[i] != e ==> s[i] in Minus(s, e)
  {
    if s != [] {
      MinusMembers(s[1..], e);
      assert s == [s[0]] + s[1..];
    }
  }

  lemma {:induction false} MinusAbsent(s: seq<LRUHandle>, e: LRUHandle)
    requires e !in s
    ensures Minus(s, e) == s
  {
    if s != [] {
      assert s == [s[0]] + s[1..];
      MinusAbsent(s[1..], e);
    }
  }

  lemma {:induction false} MinusAt(s: seq<LRUHandle>, e: LRUHandle, k: nat)
    requires Distinct(s) && k < |s| && s[k] == e
    ensures Minus(s, e) == Cut(s, k) && |Minus(s, e)| == |s| - 1
    ensures Charge(Minus(s, e)) + e.charge == Charge(s)
  {
    assert s == [s[0]] + s[1..];
    if k == 0 {
      MinusAbsent(s[1..], e);
    } else {
      MinusAt(s[1..], e, k - 1);
      assert s[1..][..k - 1] + s[1..][k..] == s[1..k] + s[k + 1..];
      assert s[..k] == [s[0]] + s[1..k];
    }
  }

  // ---- the ring of `next` and `prev` pointers ----

  function Succ(i: nat, n: nat): nat {
    if i + 1 == n then 0 else i + 1
  }

  function Pred(i: nat, n: nat): int {
    if i == 0 then n - 1 else i - 1
  }

  ghost predicate Forwards(ring: seq<LRUHandle>)
    reads ring`next
  {
    forall i :: 0 <= i < |ring| ==> ring[i].next == ring[Succ(i, |ring|)]
  }

  ghost predicate Backwards(ring: seq<LRUHandle>)
    reads ring`prev
  {
    forall i :: 0 <= i < |ring| ==> ring[i].prev == ring[Pred(i, |ring|)]
  }

  /** `next` runs through the handles of `ring` in order and back to its start, `prev` the other way. */
  ghost predicate Circular(ring: seq<LRUHandle>)
    reads ring`next, ring`prev
  {
    |ring| > 0 && Distinct(ring) && Forwards(ring) && Backwards(ring)
  }

  function Cut(ring: seq<LRUHandle>, k: nat): seq<LRUHandle>
    requires k < |ring|
  {
    ring[..k] + ring[k + 1..]
  }

  function Put(ring: seq<LRUHandle>, k: nat, e: LRUHandle): seq<LRUHandle>
    requires k < |ring|
  {
    ring[..k + 1] + [e] + ring[k + 1..]
  }

  lemma OnlyAt(ring: seq<LRUHandle>, k: nat)
    requires Distinct(ring) && k < |ring|
    ensures forall i :: 0 <= i < |ring| && i != k ==> ring[i] != ring[k]
  {
  }

  lemma CircularDistinct(ring: seq<LRUHandle>)
    requires Circular(ring)
    ensures Distinct(ring)
  {
  }

  lemma RingLinks(ring: seq<LRUHandle>, k: nat)
    requires Circular(ring) && k < |ring|
    ensures ring[k].next == ring[Succ(k, |ring|)] && ring[0].prev == ring[|ring| - 1]
  {
  }

  lemma BehindPred(ring: seq<LRUHandle>, k: nat)
    requires Circular(ring) && 0 < k < |ring|
    ensures Distinct(ring) && ring[k].prev == ring[k - 1]
  {
  }

  /** Where the handle at `a` is found after the one at `k` is cut out; its predecessor takes over if it is that one. */
  lemma CutKeepsAnchor(ring: seq<LRUHandle>, k: nat, a: nat)
    requires Circular(ring) && 0 < k < |ring| && a < |ring|
    ensures ring[a] == ring[k] <==> a == k
    ensures ring[k].prev == ring[k - 1] && |Cut(ring, k)| == |ring| - 1
    ensures if k <= a then Cut(ring, k)[a - 1] == (if a == k then ring[k - 1] else ring[a]) else Cut(ring, k)[a] == ring[a]
  {
    BehindPred(ring, k);
    CutAt(ring, k);
    OnlyAt(ring, k);
  }

  lemma CutAt(ring: seq<LRUHandle>, k: nat)
    requires k < |ring|
    ensures |Cut(ring, k)| == |ring| - 1
    ensures forall i :: 0 <= i < |ring| - 1 ==> Cut(ring, k)[i] == ring[if i < k then i else i + 1]
    ensures Distinct(ring) ==> Distinct(Cut(ring, k))
  {
  }

  lemma PutAt(ring: seq<LRUHandle>, k: nat, e: LRUHandle)
    requires k < |ring|
    ensures |Put(ring, k, e)| == |ring| + 1
    ensures forall i :: 0 <= i <= |ring| ==> Put(ring, k, e)[i] == if i == k + 1 then e else ring[if i <= k then i else i - 1]
    ensures Distinct(ring) && e !in ring ==> Distinct(Put(ring, k, e))
  {
  }

  lemma PutLast(ring: seq<LRUHandle>, e: LRUHandle)
    requires ring != []
    ensures Put(ring, |ring| - 1, e) == ring + [e]
  {
  }

  lemma PutBetween(a: seq<LRUHandle>, b: seq<LRUHandle>, e: LRUHandle)
    requires a != []
    ensures Put(a + b, |a| - 1, e) == a + [e] + b
  {
  }

  /** The `next` writes that take the `k`-th handle out of its ring. */
  method UnlinkNext(ghost ring: seq<LRUHandle>, ghost k: nat, e: LRUHandle, next: LRUHandle, prev: LRUHandle)
    requires Forwards(ring) && Distinct(ring) && 0 < k < |ring|
    requires e == ring[k] && prev == ring[k - 1] && next == ring[Succ(k, |ring|)]
    modifies ring`next
    ensures Forwards(Cut(ring, k)) && e.next == null
  {
    CutAt(ring, k);
    OnlyAt(ring, k - 1);
    OnlyAt(ring, k);
    hide Cut, Distinct;
    ghost var r, n := Cut(ring, k), |ring| - 1;
    prev.next := next;
    e.next := null;
    forall i | 0 <= i < n ensures r[i].next == r[Succ(i, n)] {
      assert r[i] == ring[if i < k then i else i + 1];
    }
  }

  /** The `prev` writes. */
  method UnlinkPrev(ghost ring: seq<LRUHandle>, ghost k: nat, e: LRUHandle, next: LRUHandle, prev: LRUHandle)
    requires Backwards(ring) && Distinct(ring) && 0 < k < |ring|
    requires e == ring[k] && prev == ring[k - 1] && next == ring[Succ(k, |ring|)]
    modifies ring`prev
    ensures Backwards(Cut(ring, k)) && e.prev == null
  {
    CutAt(ring, k);
    OnlyAt(ring, k);
    OnlyAt(ring, Succ(k, |ring|));
    hide Cut, Distinct;
    ghost var r, n := Cut(ring, k), |ring| - 1;
    next.prev := prev;
    e.prev := null;
    forall i | 0 <= i < n ensures r[i].prev == r[Pred(i, n)] {
      assert r[i] == ring[if i < k then i else i + 1];
    }
  }

  /** The pointer writes that take the `k`-th handle out of its ring. */
  method Unlink(ghost ring: seq<LRUHandle>, ghost k: nat, e: LRUHandle)
    requires Circular(ring) && 0 < k < |ring| && ring[k] == e
    modifies ring`next, ring`prev
    ensures Circular(Cut(ring, k)) && e.next == null && e.prev == null
  {
    CutAt(ring, k);
    RingLinks(ring, k);
    BehindPred(ring, k);
    hide Cut, Distinct, Forwards, Backwards;
    var next, prev := e.next, e.prev;
    UnlinkPrev(ring, k, e, next, prev);
    UnlinkNext(ring, k, e, next, prev);
  }

  /** The two `next` writes of an insertion behind the `k`-th handle. */
  method LinkNext(ghost ring: seq<LRUHandle>, ghost k: nat, e: LRUHandle, next: LRUHandle, prev: LRUHandle)
    requires Forwards(ring) && Distinct(ring) && k < |ring| && e !in ring && prev == ring[k] && next == ring[Succ(k, |ring|)]
    modifies ring`next, e`next
    ensures Forwards(Put(ring, k, e))
  {
    PutAt(ring, k, e);
    OnlyAt(ring, k);
    hide Put, Distinct;
    ghost var r, n := Put(ring, k, e), |ring| + 1;
    e.next := next;
    prev.next := e;
    forall i | 0 <= i < n ensures r[i].next == r[Succ(i, n)] {
      if i != k && i != k + 1 {
        var j := if i < k then i else i - 1;
        assert r[i] == ring[j] && old(ring[j].next) == ring[Succ(j, |ring|)];
      }
    }
  }

  /** The two `prev` writes. */
  method LinkPrev(ghost ring: seq<LRUHandle>, ghost k: nat, e: LRUHandle, next: LRUHandle, prev: LRUHandle)
    requires Backwards(ring) && Distinct(ring) && k < |ring| && e !in ring && prev == ring[k] && next == ring[Succ(k, |ring|)]
    modifies ring`prev, e`prev
    ensures Backwards(Put(ring, k, e))
  {
    PutAt(ring, k, e);
    OnlyAt(ring, Succ(k, |ring|));
    hide Put, Distinct;
    ghost var r, n := Put(ring, k, e), |ring| + 1;
    e.prev := prev;
    next.prev := e;
    forall i | 0 <= i < n ensures r[i].prev == r[Pred(i, n)] {
      if i != k + 1 && Pred(i, n) != k + 1 {
        var j := if i <= k then i else i - 1;
        assert r[i] == ring[j] && old(ring[j].prev) == ring[Pred(j, |ring|)];
      }
    }
  }

  /** The pointer writes that put a handle behind the `k`-th of a ring. */
  method LinkBehind(ghost ring: seq<LRUHandle>, ghost k: nat, e: LRUHandle, next: LRUHandle, prev: LRUHandle)
    requires Circular(ring) && k < |ring| && e !in ring && prev == ring[k] && next == ring[Succ(k, |ring|)]
    modifies ring`next, ring`prev, e`next, e`prev
    ensures Circular(Put(ring, k, e))
  {
    PutAt(ring, k, e);
    hide Put, Distinct, Forwards, Backwards;
    LinkNext(ring, k, e, next, prev);
    LinkPrev(ring, k, e, next, prev);
  }

  // ---- the two pools ----

  predicate Exceeds(charge: nat, capacity: real) {
    charge as real > capacity
  }

  lemma NothingExceeds(capacity: real)
    requires capacity >= 0.0
    ensures !Exceeds(0, capacity)
  {
  }

  /** High-priority entries, oldest first, join the low-priority pool until the rest fits. */
  function Overflow(low: seq<LRUHandle>, high: seq<LRUHandle>, capacity: real): (seq<LRUHandle>, seq<LRUHandle>)
    decreases |high|
  {
    if high != [] && Exceeds(Charge(high), capacity) then Overflow(low + [high[0]], high[1..], capacity) else (low, high)
  }

  /** Overflowing keeps the list and its order, ends within capacity, and moves no entry that could have stayed. */
  lemma {:induction false} OverflowFits(low: seq<LRUHandle>, high: seq<LRUHandle>, capacity: real)
    requires capacity >= 0.0
    ensures Overflow(low, high, capacity).0 + Overflow(low, high, capacity).1 == low + high
    ensures low <= Overflow(low, high, capacity).0 && |Overflow(low, high, capacity).1| <= |high|
    ensures Charge(Overflow(low, high, capacity).1) as real <= capacity
    ensures forall k :: 0 <= k < |high| - |Overflow(low, high, capacity).1| ==> Charge(high[k..]) as real > capacity
    decreases |high|
  {
    if high != [] && Exceeds(Charge(high), capacity) {
      OverflowFits(low + [high[0]], high[1..], capacity);
      assert low + [high[0]] + high[1..] == low + high;
      forall k | 0 <= k < |high| - |Overflow(low, high, capacity).1| ensures Charge(high[k..]) as real > capacity {
        if k > 0 { assert high[1..][k - 1..] == high[k..]; } else { assert high[0..] == high; }
      }
    }
  }

  /** The position of an entry in the ring, and what cutting it out leaves of the pools. */
  lemma CutPools(lru: LRUHandle, low: seq<LRUHandle>, high: seq<LRUHandle>, e: LRUHandle) returns (k: nat)
    requires Distinct([lru] + low + high) && e in low + high
    ensures 0 < k < 1 + |low| + |high| && ([lru] + low + high)[k] == e
    ensures Cut([lru] + low + high, k) == [lru] + Minus(low, e) + Minus(high, e)
    ensures if k <= |low| then e in low && |Minus(low, e)| == |low| - 1 && Minus(high, e) == high
            else e in high && Minus(low, e) == low
    ensures e in low ==> Charge(low) == Charge(Minus(low, e)) + e.charge
    ensures e in high ==> Charge(high) == Charge(Minus(high, e)) + e.charge
  {
    PartsDistinct(lru, low, high);
    hide Distinct, Minus, Charge, Cut;
    if e in low {
      var j :| 0 <= j < |low| && low[j] == e;
      k := j + 1;
      CutLow(lru, low, high, e, j);
    } else {
      var j :| 0 <= j < |high| && high[j] == e;
      k := 1 + |low| + j;
      CutHigh(lru, low, high, e, j);
    }
  }

  lemma PartsDistinct(lru: LRUHandle, low: seq<LRUHandle>, high: seq<LRUHandle>)
    requires Distinct([lru] + low + high)
    ensures Distinct(low) && Distinct(high)
    ensures forall i :: 0 <= i < |low| ==> low[i] !in high
  {
    var ring := [lru] + low + high;
    assert forall i :: 0 <= i < |low| ==> low[i] == ring[1 + i];
    assert forall i :: 0 <= i < |high| ==> high[i] == ring[1 + |low| + i];
  }

  lemma CutMiddle(a: seq<LRUHandle>, b: seq<LRUHandle>, c: seq<LRUHandle>, j: nat)
    requires j < |b|
    ensures Cut(a + b + c, |a| + j) == a + Cut(b, j) + c
  {
  }

  lemma CutLast(a: seq<LRUHandle>, b: seq<LRUHandle>, j: nat)
    requires j < |b|
    ensures Cut(a + b, |a| + j) == a + Cut(b, j)
  {
  }

  lemma CutLow(lru: LRUHandle, low: seq<LRUHandle>, high: seq<LRUHandle>, e: LRUHandle, j: nat)
    requires Distinct(low) && j < |low| && low[j] == e && e !in high
    ensures Cut([lru] + low + high, j + 1) == [lru] + Minus(low, e) + Minus(high, e)
    ensures |Minus(low, e)| == |low| - 1 && Minus(high, e) == high
    ensures Charge(low) == Charge(Minus(low, e)) + e.charge
  {
    MinusAt(low, e, j);
    MinusAbsent(high, e);
    hide Minus, Charge;
    CutMiddle([lru], low, high, j);
  }

  lemma CutHigh(lru: LRUHandle, low: seq<LRUHandle>, high: seq<LRUHandle>, e: LRUHandle, j: nat)
    requires Distinct(high) && j < |high| && high[j] == e && e !in low
    ensures Cut([lru] + low + high, 1 + |low| + j) == [lru] + Minus(low, e) + Minus(high, e)
    ensures Minus(low, e) == low && |Minus(high, e)| == |high| - 1
    ensures Charge(high) == Charge(Minus(high, e)) + e.charge
  {
    hide *;
    MinusAt(high, e, j);
    MinusAbsent(low, e);
    CutLast([lru] + low, high, j);
    assert |[lru] + low| == 1 + |low|;
  }

  /** Every entry carries the flag of its pool. */
  ghost predicate Pooled(low: seq<LRUHandle>, high: seq<LRUHandle>)
    reads low`inHighPriPool, high`inHighPriPool
  {
    && (forall h :: h in low ==> !h.inHighPriPool)
    && (forall h :: h in high ==> h.inHighPriPool && h.isHighPri)
  }

  lemma PooledMinus(low: seq<LRUHandle>, high: seq<LRUHandle>, e: LRUHandle)
    requires Pooled(low, high) && e in low + high
    ensures Pooled(Minus(low, e), Minus(high, e)) && (e.inHighPriPool <==> e in high)
  {
    MinusMembers(low, e);
    MinusMembers(high, e);
  }

  /** The list part of a shard: a dummy head, the low-priority pool behind it, then the high-priority pool. */
  class LruList {
    const lru: LRUHandle
    var lowPri: LRUHandle
    var lruUsage: nat
    var highUsage: nat
    var highRatio: real
    var highCapacity: real
    ghost var low: seq<LRUHandle>
    ghost var high: seq<LRUHandle>

    ghost function Ring(): seq<LRUHandle>
      reads `low, `high
    {
      [lru] + low + high
    }

    /** Everything but the total charge. */
    ghost predicate Shaped()
      reads `lowPri, `highUsage, `highCapacity, `highRatio, `low, `high, lru`next, lru`prev, low`next, low`prev, low`inHighPriPool, high`next, high`prev, high`inHighPriPool
    {
      && Circular(Ring()) && lowPri == Ring()[|low|]
      && highUsage == Charge(high)
      && Pooled(low, high) && highCapacity >= 0.0 && highRatio >= 0.0
    }

    ghost predicate Valid()
      reads this, lru`next, lru`prev, low`next, low`prev, low`inHighPriPool, high`next, high`prev, high`inHighPriPool
    {
      Shaped() && lruUsage == Charge(low) + Charge(high)
    }

    /** The high-priority pool keeps to its size. */
    predicate Fits()
      reads `highUsage, `highCapacity
    {
      !Exceeds(highUsage, highCapacity)
    }

    constructor (highRatio: real, highCapacity: real)
      requires highRatio >= 0.0 && highCapacity >= 0.0
      ensures Valid() && low == [] && high == [] && fresh(lru)
      ensures this.highRatio == highRatio && this.highCapacity == highCapacity
    {
      var head := new LRUHandle([], 0, 0, false, 0);
      lru, lowPri, lruUsage, highUsage := head, head, 0, 0;
      this.highRatio, this.highCapacity := highRatio, highCapacity;
      low, high := [], [];
      new;
      lru.next, lru.prev := lru, lru;
    }

    lemma RingAt(i: nat)
      requires i < |Ring()|
      ensures |Ring()| == 1 + |low| + |high|
      ensures Ring()[i] == if i == 0 then lru else if i <= |low| then low[i - 1] else high[i - 1 - |low|]
    {
    }

    /** `lru.next` is the oldest entry, or the dummy head of an empty list. */
    lemma OldestIsNext()
      requires Valid()
      ensures lru.next == if low + high == [] then lru else (low + high)[0]
      ensures low + high != [] ==> (low + high)[0] != lru
    {
      RingLinks(Ring(), 0);
      RingAt(0);
      if low + high != [] {
        RingAt(1);
        assert (low + high)[0] == Ring()[1];
        OnlyAt(Ring(), 0);
      }
    }

    /** Taking the oldest entry out leaves the rest in order, each in its pool. */
    lemma OldestOut()
      requires Valid() && low + high != []
      ensures Minus(low, (low + high)[0]) == (if low != [] then low[1..] else [])
      ensures Minus(high, (low + high)[0]) == (if low != [] then high else high[1..])
      ensures Minus(low, (low + high)[0]) + Minus(high, (low + high)[0]) == (low + high)[1..]
    {
      CircularDistinct(Ring());
      PartsDistinct(lru, low, high);
      var e := (low + high)[0];
      if low != [] {
        MinusAt(low, e, 0);
        MinusAbsent(high, e);
      } else {
        MinusAt(high, e, 0);
      }
    }

    lemma MembersDistinct()
      requires Valid()
      ensures Distinct(low + high)
    {
      CircularDistinct(Ring());
      PartsDistinct(lru, low, high);
    }

    /** The handle behind the low-priority end is the oldest high-priority entry. */
    lemma OldestHigh()
      requires Shaped() && high != []
      ensures lowPri.next == high[0] && Ring()[|low| + 1] == high[0]
      ensures forall h :: h in high[1..] ==> h in high && h != high[0]
    {
      RingAt(|low|);
      RingAt(|low| + 1);
      RingLinks(Ring(), |low|);
      OnlyAt(Ring(), |low| + 1);
      forall i | 0 < i < |high| ensures high[i] != high[0] { RingAt(1 + |low| + i); }
    }

    lemma ChargeMoves()
      requires high != []
      ensures Charge(low + [high[0]]) + Charge(high[1..]) == Charge(low) + Charge(high)
      ensures Charge(high[1..]) == Charge(high) - high[0].charge
    {
      ChargePush(low, high[0]);
    }

    /** The oldest high-priority entry becomes the newest low-priority one. */
    method OverflowOne()
      requires Shaped() && high != []
      modifies this`lowPri, this`highUsage, this`low, this`high, high`inHighPriPool
      ensures Shaped() && low == old(low) + [old(high)[0]] && high == old(high)[1..]
      ensures Charge(low) + Charge(high) == old(Charge(low) + Charge(high))
    {
      ghost var ring, x := Ring(), high[0];
      OldestHigh();
      ChargeMoves();
      hide Circular, Forwards, Backwards, Distinct, Charge;
      lowPri := lowPri.next;
      lowPri.inHighPriPool := false;
      highUsage := highUsage - lowPri.charge;
      low, high := low + [x], high[1..];
      assert Ring() == ring;
    }

    /** Overflows the oldest high-priority entries; the dummy head is never reached. */
    method MaintainPoolSize()
      requires Shaped()
      modifies this`lowPri, this`highUsage, this`low, this`high, high`inHighPriPool
      ensures Shaped() && (low, high) == Overflow(old(low), old(high), highCapacity) && Fits()
      ensures low + high == old(low + high) && Charge(low) + Charge(high) == old(Charge(low) + Charge(high))
    {
      hide Circular, Distinct, Forwards, Backwards, Exceeds;
      NothingExceeds(highCapacity);
      while Exceeds(highUsage, highCapacity)
        invariant Shaped() && low + high == old(low + high)
        invariant Charge(low) + Charge(high) == old(Charge(low) + Charge(high))
        invariant |high| <= |old(high)| && high == old(high)[|old(high)| - |high|..]
        invariant Overflow(low, high, highCapacity) == Overflow(old(low), old(high), highCapacity)
        decreases |high|
      {
        OverflowOne();
      }
    }

    /** The pointers after an entry is taken out; the pools are yet to be described. */
    method TakeOut(e: LRUHandle, ghost k: nat)
      requires Circular(Ring()) && 0 < k < |Ring()| && Ring()[k] == e && lowPri == Ring()[|low|]
      modifies this`lowPri, lru`next, lru`prev, low`next, low`prev, high`next, high`prev
      ensures e.next == null && e.prev == null && Circular(Cut(Ring(), k))
      ensures lowPri == Cut(Ring(), k)[if k <= |low| then |low| - 1 else |low|]
    {
      hide Distinct, Forwards, Backwards, Circular, Cut, Succ;
      ghost var ring := Ring();
      assert |low| < |ring|;
      CutKeepsAnchor(ring, k, |low|);
      if lowPri == e {
        lowPri := e.prev;
      }
      Unlink(ring, k, e);
    }

    method Remove(e: LRUHandle)
      requires Valid() && e in low + high
      modifies this`lowPri, this`lruUsage, this`highUsage, this`low, this`high
      modifies lru`next, lru`prev, low`next, low`prev, high`next, high`prev
      ensures Valid() && e.next == null && e.prev == null
      ensures low == Minus(old(low), e) && high == Minus(old(high), e)
      ensures lruUsage == old(lruUsage) - e.charge && (old(Fits()) ==> Fits())
    {
      hide Distinct, Forwards, Backwards, Circular, Minus, Charge, Cut, Succ, Pooled;
      CircularDistinct(Ring());
      ghost var k := CutPools(lru, low, high, e);
      RingAt(k);
      TakeOut(e, k);
      PooledMinus(low, high, e);
      lruUsage := lruUsage - e.charge;
      if e.inHighPriPool {
        highUsage := highUsage - e.charge;
      }
      low, high := Minus(low, e), Minus(high, e);
    }

    /** A high-priority entry goes to the newest end, if there is a pool for it; any other to the newest low-priority end. */
    method Insert(e: LRUHandle)
      requires Valid() && e !in Ring() && e.next == null && e.prev == null
      modifies this`lowPri, this`lruUsage, this`highUsage, this`low, this`high, high`inHighPriPool
      modifies lru`next, lru`prev, low`next, low`prev, high`next, high`prev, e`next, e`prev, e`inHighPriPool
      ensures Valid()
      ensures highRatio > 0.0 && e.isHighPri ==> (low, high) == Overflow(old(low), old(high) + [e], highCapacity)
      ensures highRatio > 0.0 && e.isHighPri ==> low + high == old(low + high) + [e]
      ensures !(highRatio > 0.0 && e.isHighPri) ==> low == old(low) + [e] && high == old(high)
      ensures lruUsage == old(lruUsage) + e.charge && (old(Fits()) ==> Fits())
    {
      hide Circular, Distinct, Forwards, Backwards, Overflow, LruList.Shaped, Exceeds;
      if highRatio > 0.0 && e.isHighPri {
        InsertHigh(e);
      } else {
        InsertLow(e);
      }
      lruUsage := lruUsage + e.charge;
    }

    method InsertHigh(e: LRUHandle)
      requires Shaped() && e !in Ring() && e.isHighPri
      modifies this`lowPri, this`highUsage, this`low, this`high, high`inHighPriPool
      modifies lru`next, lru`prev, low`next, low`prev, high`next, high`prev, e`next, e`prev, e`inHighPriPool
      ensures Shaped() && (low, high) == Overflow(old(low), old(high) + [e], highCapacity)
      ensures low + high == old(low + high) + [e]
      ensures Charge(low) + Charge(high) == old(Charge(low) + Charge(high)) + e.charge && Fits()
    {
      hide Circular, Distinct, Forwards, Backwards, Overflow, LruList.Shaped, Charge;
      InsertNewest(e);
      assert low + high == old(low + high) + [e];
      MaintainPoolSize();
    }

    method InsertNewest(e: LRUHandle)
      requires Shaped() && e !in Ring() && e.isHighPri
      modifies this`highUsage, this`high, lru`next, lru`prev, low`next, low`prev, high`next, high`prev
      modifies e`next, e`prev, e`inHighPriPool
      ensures Shaped() && high == old(high) + [e]
      ensures Charge(high) == old(Charge(high)) + e.charge
    {
      hide Distinct, Forwards, Backwards, Charge, Put;
      ghost var ring := Ring();
      RingLinks(ring, 0);
      PutLast(ring, e);
      LinkBehind(ring, |ring| - 1, e, lru, lru.prev);
      e.inHighPriPool := true;
      highUsage := highUsage + e.charge;
      ChargePush(high, e);
      high := high + [e];
      assert Ring() == ring + [e];
    }

    method InsertLow(e: LRUHandle)
      requires Shaped() && e !in Ring()
      modifies this`lowPri, this`low, lru`next, lru`prev, low`next, low`prev, high`next, high`prev
      modifies e`next, e`prev, e`inHighPriPool
      ensures Shaped() && low == old(low) + [e]
      ensures Charge(low) == old(Charge(low)) + e.charge
    {
      hide Distinct, Forwards, Backwards, Charge, Put;
      ghost var ring := Ring();
      RingLinks(ring, |low|);
      PutBetween([lru] + low, high, e);
      LinkBehind(ring, |low|, e, lowPri.next, lowPri);
      e.inHighPriPool := false;
      lowPri := e;
      ChargePush(low, e);
      low := low + [e];
      assert Ring() == [lru] + old(low) + [e] + high;
    }

    /** A new pool size takes effect when the pool is next maintained. */
    method SetPool(ratio: real, capacity: real)
      requires Valid() && ratio >= 0.0 && capacity >= 0.0
      modifies this`highRatio, this`highCapacity
      ensures Valid() && highRatio == ratio && highCapacity == capacity
    {
      highRatio, highCapacity := ratio, capacity;
    }
  }
}
