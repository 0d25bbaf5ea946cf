/** One shard of the LRU cache: the table, the LRU list, reference counts and charges together. */
module LruCache {
  import opened Wrappers
  import opened LruHandles
  import opened LruHandleTables
  import opened LruLists

  /** Total charge of a set of entries. */
  ghost function Total(s: set<LRUHandle>): nat {
    if s == {} then 0 else var x :| x in s; x.charge + Total(s - {x})
  }

  lemma {:induction false} TotalWithout(s: set<LRUHandle>, x: LRUHandle)
    requires x in s
    ensures Total(s) == x.charge + Total(s - {x})
    decreases |s|
  {
    var y :| y in s && Total(s) == y.charge + Total(s - {y});
    if y != x {
      TotalWithout(s - {y}, x);
      TotalWithout(s - {x}, y);
      assert s - {y} - {x} == s - {x} - {y};
    }
  }

  /** An entry is alive while referenced, and flagged as cached just when the table holds it. */
  ghost predicate Counted(live: set<LRUHandle>, nodes: set<LRUHandle>)
    reads live`refs, live`inCache
  {
    nodes <= live && forall h :: h in live ==> h.refs > 0 && (h.inCache <==> h in nodes)
  }

  /** The list holds just the entries that only the cache refers to. */
  ghost predicate Listed(entries: set<LRUHandle>, members: seq<LRUHandle>)
    reads entries`refs, entries`inCache, entries`next, entries`prev
  {
    && (forall i :: 0 <= i < |members| ==> members[i] in entries)
    && forall h :: h in entries ==>
      (h in members <==> h.inCache && h.refs == 1) && (h !in members ==> h.next == null && h.prev == null)
  }

  /** Taking an entry out of both pools leaves all other members. */
  lemma PullMembers(low: seq<LRUHandle>, high: seq<LRUHandle>, e: LRUHandle)
    ensures forall i :: 0 <= i < |Minus(low, e) + Minus(high, e)| ==>
      (Minus(low, e) + Minus(high, e))[i] in low + high && (Minus(low, e) + Minus(high, e))[i] != e
    ensures forall i :: 0 <= i < |low + high| && (low + high)[i] != e ==> (low + high)[i] in Minus(low, e) + Minus(high, e)
  {
    MinusMembers(low, e);
    MinusMembers(high, e);
    hide Minus;
    var r := Minus(low, e) + Minus(high, e);
    forall i | 0 <= i < |r| ensures r[i] in low + high && r[i] != e {
      if i < |Minus(low, e)| { assert r[i] == Minus(low, e)[i]; } else { assert r[i] == Minus(high, e)[i - |Minus(low, e)|]; }
    }
  }

  /** The entries of a table that are not in `gone`. */
  ghost function Keep(entries: map<Slot, LRUHandle>, gone: set<LRUHandle>): map<Slot, LRUHandle> {
    map s | s in entries && entries[s] !in gone :: entries[s]
  }

  lemma KeepTwice(entries: map<Slot, LRUHandle>, gone: set<LRUHandle>, more: set<LRUHandle>)
    ensures Keep(Keep(entries, gone), more) == Keep(entries, gone + more)
  {
  }

  lemma KeepEverything(entries: map<Slot, LRUHandle>)
    ensures Keep(entries, {}) == entries
  {
  }

  ghost function AsSet(s: seq<LRUHandle>): set<LRUHandle> {
    set x | x in s
  }

  lemma MembersOfSet(s: seq<LRUHandle>, all: set<LRUHandle>, rest: set<LRUHandle>)
    requires AsSet(s) <= all && rest == all - AsSet(s)
    ensures forall i :: 0 <= i < |s| ==> s[i] in all && s[i] !in rest
  {
    forall i | 0 <= i < |s| ensures s[i] in all && s[i] !in rest {
      assert s[i] in AsSet(s);
    }
  }

  lemma NotAmong(s: seq<LRUHandle>, e: LRUHandle)
    requires forall i :: 0 <= i < |s| ==> s[i] != e
    ensures e !in AsSet(s)
  {
  }

  lemma AsSetPush(s: seq<LRUHandle>, e: LRUHandle)
    ensures AsSet(s + [e]) == AsSet(s) + {e}
  {
  }

  lemma NotInSet(s: seq<LRUHandle>, e: LRUHandle)
    ensures e !in AsSet(s) ==> forall i :: 0 <= i < |s| ==> s[i] != e
  {
    if e !in AsSet(s) {
      forall i | 0 <= i < |s| ensures s[i] != e {
        assert s[i] in AsSet(s);
      }
    }
  }

  /** The charge of a set splits into that of a list inside it and that of the rest. */
  lemma {:induction false} ListIsPartOfTotal(c: seq<LRUHandle>, s: set<LRUHandle>)
    requires Distinct(c) && forall i :: 0 <= i < |c| ==> c[i] in s
    ensures Total(s) == Charge(c) + Total(s - AsSet(c))
    decreases |c|
  {
    if c == [] {
      assert s - AsSet(c) == s;
    } else {
      TotalWithout(s, c[0]);
      ListIsPartOfTotal(c[1..], s - {c[0]});
      assert s - {c[0]} - AsSet(c[1..]) == s - AsSet(c) by {
        assert c == [c[0]] + c[1..];
      }
    }
  }

  // ---- eviction ----

  /** The oldest entries that have to go before `charge` fits. */
  function Victims(members: seq<LRUHandle>, usage: int, charge: nat, capacity: nat): seq<LRUHandle> {
    if usage + charge > capacity && members != []
    then [members[0]] + Victims(members[1..], usage - members[0].charge, charge, capacity)
    else []
  }

  /** What stays on the list. */
  function Survivors(members: seq<LRUHandle>, usage: int, charge: nat, capacity: nat): seq<LRUHandle> {
    if usage + charge > capacity && members != []
    then Survivors(members[1..], usage - members[0].charge, charge, capacity)
    else members
  }

  /** The low-priority pool goes first, then the high-priority one for what is still over. */
  lemma {:induction false} SurvivorsByPool(low: seq<LRUHandle>, high: seq<LRUHandle>, usage: int, charge: nat, capacity: nat)
    ensures Survivors(low + high, usage, charge, capacity) ==
            Survivors(low, usage, charge, capacity) + Survivors(high, usage - Charge(low), charge, capacity)
  {
    if low == [] {
      assert low + high == high;
    } else if usage + charge > capacity {
      assert (low + high)[1..] == low[1..] + high;
      SurvivorsByPool(low[1..], high, usage - low[0].charge, charge, capacity);
    } else {
      NoEviction(high, usage - Charge(low), charge, capacity);
    }
  }

  lemma NoEviction(members: seq<LRUHandle>, usage: int, charge: nat, capacity: nat)
    requires usage + charge <= capacity
    ensures Survivors(members, usage, charge, capacity) == members
  {
  }

  lemma EvictionStep(members: seq<LRUHandle>, usage: int, charge: nat, capacity: nat)
    requires usage + charge > capacity && members != []
    ensures Victims(members, usage, charge, capacity) ==
            [members[0]] + Victims(members[1..], usage - members[0].charge, charge, capacity)
    ensures Survivors(members, usage, charge, capacity) == Survivors(members[1..], usage - members[0].charge, charge, capacity)
  {
  }

  lemma EvictionEnd(members: seq<LRUHandle>, usage: int, charge: nat, capacity: nat)
    requires usage + charge <= capacity || members == []
    ensures Victims(members, usage, charge, capacity) == [] && Survivors(members, usage, charge, capacity) == members
  {
  }

  /** The eviction loop has taken `deleted` off the front, and the rest leads to the same victims. */
  ghost predicate Evicted(all: seq<LRUHandle>, usage0: int, charge: nat, capacity: nat,
                          members: seq<LRUHandle>, usage: int, deleted: seq<LRUHandle>) {
    && deleted + members == all
    && Victims(all, usage0, charge, capacity) == deleted + Victims(members, usage, charge, capacity)
  }

  /** What is left of the pools leads to the same survivors. */
  ghost predicate LeadsTo(low0: seq<LRUHandle>, high0: seq<LRUHandle>, usage0: int, charge: nat, capacity: nat,
                          low: seq<LRUHandle>, high: seq<LRUHandle>, usage: int) {
    && Survivors(low0, usage0, charge, capacity) == Survivors(low, usage, charge, capacity)
    && Survivors(high0, usage0 - Charge(low0), charge, capacity) == Survivors(high, usage - Charge(low), charge, capacity)
  }

  lemma NothingEvicted(members: seq<LRUHandle>, usage: int, charge: nat, capacity: nat)
    ensures Evicted(members, usage, charge, capacity, members, usage, [])
  {
  }

  lemma NothingLeft(low: seq<LRUHandle>, high: seq<LRUHandle>, usage: int, charge: nat, capacity: nat)
    ensures LeadsTo(low, high, usage, charge, capacity, low, high, usage)
  {
  }

  lemma OneMoreEvicted(all: seq<LRUHandle>, usage0: int, charge: nat, capacity: nat,
                       members: seq<LRUHandle>, usage: int, deleted: seq<LRUHandle>)
    requires Evicted(all, usage0, charge, capacity, members, usage, deleted)
    requires usage + charge > capacity && members != []
    ensures Evicted(all, usage0, charge, capacity, members[1..], usage - members[0].charge, deleted + [members[0]])
    ensures Distinct(all) ==> members[0] !in deleted
  {
    hide Victims, Distinct;
    EvictionStep(members, usage, charge, capacity);
    FrontMoves(deleted, members);
    Regroup(deleted, members[0], Victims(members[1..], usage - members[0].charge, charge, capacity));
    NotYetGone(all, deleted, members);
  }

  lemma FrontMoves(deleted: seq<LRUHandle>, members: seq<LRUHandle>)
    requires members != []
    ensures deleted + [members[0]] + members[1..] == deleted + members
  {
  }

  lemma Regroup(deleted: seq<LRUHandle>, e: LRUHandle, rest: seq<LRUHandle>)
    ensures deleted + ([e] + rest) == deleted + [e] + rest
  {
  }

  lemma NotYetGone(all: seq<LRUHandle>, deleted: seq<LRUHandle>, members: seq<LRUHandle>)
    requires deleted + members == all && members != []
    ensures Distinct(all) ==> members[0] !in deleted
  {
    assert all[|deleted|] == members[0] && forall i :: 0 <= i < |deleted| ==> all[i] == deleted[i];
  }

  lemma OneLessInPools(low0: seq<LRUHandle>, high0: seq<LRUHandle>, usage0: int, charge: nat, capacity: nat,
                       low: seq<LRUHandle>, high: seq<LRUHandle>, usage: int)
    requires LeadsTo(low0, high0, usage0, charge, capacity, low, high, usage)
    requires usage + charge > capacity && low + high != []
    ensures LeadsTo(low0, high0, usage0, charge, capacity,
                    if low != [] then low[1..] else [], if low != [] then high else high[1..], usage - (low + high)[0].charge)
  {
    if low != [] { EvictionStep(low, usage, charge, capacity); } else { EvictionStep(high, usage, charge, capacity); }
  }

  lemma AllEvicted(all: seq<LRUHandle>, usage0: int, charge: nat, capacity: nat, members: seq<LRUHandle>, usage: int, deleted: seq<LRUHandle>)
    requires Evicted(all, usage0, charge, capacity, members, usage, deleted)
    requires usage + charge <= capacity || members == []
    ensures deleted == Victims(all, usage0, charge, capacity)
    ensures Distinct(all) ==> Distinct(deleted)
  {
    EvictionEnd(members, usage, charge, capacity);
    hide Victims;
    assert deleted + [] == deleted;
    assert forall i :: 0 <= i < |deleted| ==> all[i] == deleted[i];
  }

  lemma PoolsDone(low0: seq<LRUHandle>, high0: seq<LRUHandle>, usage0: int, charge: nat, capacity: nat,
                  low: seq<LRUHandle>, high: seq<LRUHandle>, usage: int)
    requires LeadsTo(low0, high0, usage0, charge, capacity, low, high, usage)
    requires usage + charge <= capacity || low + high == []
    ensures low == Survivors(low0, usage0, charge, capacity)
    ensures high == Survivors(high0, usage0 - Charge(low0), charge, capacity)
  {
    EvictionEnd(low, usage, charge, capacity);
    EvictionEnd(high, usage - Charge(low), charge, capacity);
  }

  /** Eviction takes the shortest run of oldest entries that makes room, or all of them when none does. */
  lemma {:induction false} EvictsJustEnough(members: seq<LRUHandle>, usage: int, charge: nat, capacity: nat)
    ensures Victims(members, usage, charge, capacity) + Survivors(members, usage, charge, capacity) == members
    ensures Survivors(members, usage, charge, capacity) != [] ==>
      usage - Charge(Victims(members, usage, charge, capacity)) + charge <= capacity
    ensures forall k :: 0 <= k < |Victims(members, usage, charge, capacity)| ==>
      usage - Charge(members[..k]) + charge > capacity
  {
    if usage + charge > capacity && members != [] {
      var rest := members[1..];
      EvictsJustEnough(rest, usage - members[0].charge, charge, capacity);
      forall k | 0 < k < |Victims(members, usage, charge, capacity)|
        ensures Charge(members[..k]) == members[0].charge + Charge(rest[..k - 1])
      {
        assert members[..k] == [members[0]] + rest[..k - 1];
      }
    }
  }

  /** No references left, and out of the table. */
  ghost predicate Dead(s: seq<LRUHandle>)
    reads s`refs, s`inCache
  {
    forall i :: 0 <= i < |s| ==> s[i].refs == 0 && !s[i].inCache
  }

  lemma DeadPush(s: seq<LRUHandle>, e: LRUHandle)
    requires Dead(s) && e.refs == 0 && !e.inCache
    ensures Dead(s + [e])
  {
  }

  /** The part of the capacity kept for high-priority entries. */
  function PoolCapacity(capacity: nat, ratio: real): real {
    capacity as real * ratio
  }

  /** Where a newly idle entry goes. */
  function Placement(low: seq<LRUHandle>, high: seq<LRUHandle>, e: LRUHandle, ratio: real, capacity: real): (seq<LRUHandle>, seq<LRUHandle>) {
    if ratio > 0.0 && e.isHighPri then Overflow(low, high + [e], capacity) else (low + [e], high)
  }

  /** A pool after the entry that holds a place, if there is one, has left it. */
  function Vacated(s: seq<LRUHandle>, entries: map<Slot, LRUHandle>, place: Slot): seq<LRUHandle> {
    if place in entries then Minus(s, entries[place]) else s
  }

  /** The pools after an entry has taken its place: idle, it joins one; held by its inserter, it stays off the list. */
  function Arranged(low: seq<LRUHandle>, high: seq<LRUHandle>, entries: map<Slot, LRUHandle>, e: LRUHandle, held: bool,
                    ratio: real, capacity: real): (seq<LRUHandle>, seq<LRUHandle>) {
    var l, h := Vacated(low, entries, e.Place()), Vacated(high, entries, e.Place());
    if held then (l, h) else Placement(l, h, e, ratio, capacity)
  }

  lemma SettledMembers(low: seq<LRUHandle>, high: seq<LRUHandle>, low': seq<LRUHandle>, high': seq<LRUHandle>, e: LRUHandle)
    requires low' + high' == low + high + [e] || (low' == low + [e] && high' == high)
    ensures forall i :: 0 <= i < |low' + high'| ==> (low' + high')[i] == e || (low' + high')[i] in low + high
    ensures forall i :: 0 <= i < |low + high| ==> (low + high)[i] in low' + high'
    ensures e in low' + high'
  {
    var was, now := low + high, low' + high';
    if now == was + [e] {
      assert now[|was|] == e;
      assert forall i :: 0 <= i < |was| ==> now[i] == was[i];
    } else {
      assert now[|low|] == e;
      assert forall i :: 0 <= i < |was| ==> was[i] == now[if i < |low| then i else i + 1];
    }
  }

  lemma PullMember(low: seq<LRUHandle>, high: seq<LRUHandle>, e: LRUHandle, h: LRUHandle)
    ensures h in Minus(low, e) + Minus(high, e) <==> h in low + high && h != e
  {
    PullMembers(low, high, e);
  }

  /** The outcome of an insertion that was asked for a handle. */
  datatype Status = Ok | Incomplete

  lemma PoolIsNotNegative(capacity: nat, ratio: real)
    requires ratio >= 0.0
    ensures PoolCapacity(capacity, ratio) >= 0.0
  {
  }

  /** Whether `h` held the place that `e` takes. */
  ghost predicate Displaced(entries: map<Slot, LRUHandle>, e: LRUHandle, h: LRUHandle) {
    e.Place() in entries && entries[e.Place()] == h
  }

  lemma KeepDisplaced(entries: map<Slot, LRUHandle>, gone: set<LRUHandle>, e: LRUHandle, rest: set<LRUHandle>)
    requires rest !! gone
    ensures forall h :: h in rest ==> (Displaced(Keep(entries, gone), e, h) <==> Displaced(entries, e, h))
  {
  }

  class LRUCacheShard {
    const table: LRUHandleTable
    const list: LruList
    var capacity: nat
    var usage: nat
    var strictCapacityLimit: bool
    // the entries with references, and those handed to their deleter
    ghost var live: set<LRUHandle>
    ghost var freed: set<LRUHandle>

    ghost function Members(): seq<LRUHandle>
      reads list`low, list`high
    {
      list.low + list.high
    }

    ghost function Oldest(): LRUHandle
      requires Members() != []
      reads list`low, list`high
    {
      Members()[0]
    }

    /** The entry at a place of the table, when only the cache refers to it. */
    ghost function OnlyCached(place: Slot): set<LRUHandle>
      reads table`entries, table.entries.Values`refs
    {
      if place in table.entries && table.entries[place].refs == 1 then {table.entries[place]} else {}
    }

    /** All but the fullness rule, with `loose` taken off the list and not yet settled. */
    ghost predicate SoundBut(loose: set<LRUHandle>)
      reads `usage, `live, `freed, table, table.list, table.nodes`nextHash, list, list.lru, list.low, list.high, live, loose
    {
      && table.Valid() && list.Valid()
      && Counted(live, table.nodes)
      && loose <= live && Listed(live - loose, Members())
      && (forall h :: h in loose ==> h.next == null && h.prev == null)
      && usage == Total(live)
      && live !! freed && list.lru !in live
    }

    /** What every operation keeps. */
    ghost predicate Valid()
      reads this, table, table.list, table.nodes`nextHash, list, list.lru, list.low, list.high, live
    {
      SoundBut({}) && (usage > capacity ==> Members() == [])
    }

    /** The three states of a live entry: cached and referenced; cached, idle and on the list; referenced only. */
    lemma LifeCycle(h: LRUHandle)
      requires Valid() && h in live
      ensures h.refs > 0 && (h.inCache <==> h.Place() in table.entries && table.entries[h.Place()] == h)
      ensures h in Members() <==> h.inCache && h.refs == 1
      ensures h !in Members() ==> h.next == null && h.prev == null
      ensures h !in freed && (h in Members() ==> usage <= capacity)
    {
      hide LRUHandleTable.Valid, LruList.Valid, Total;
      if h.inCache {
        table.NodeHasEntry(h);
      }
      if h.Place() in table.entries {
        table.EntryIsNode(h.Place());
      }
    }

    constructor (capacity: nat, strictCapacityLimit: bool, highRatio: real)
      requires highRatio >= 0.0
      ensures Valid() && table.entries == map[] && Members() == [] && live == {} && freed == {}
      ensures fresh(table) && fresh(table.list) && fresh(list) && fresh(list.lru)
      ensures this.capacity == capacity && list.highRatio == highRatio && list.highCapacity == capacity as real * highRatio
    {
      hide LRUHandleTable.Valid, LruList.Valid;
      table := new LRUHandleTable();
      list := new LruList(highRatio, PoolCapacity(capacity, highRatio));
      this.capacity, usage, this.strictCapacityLimit := capacity, 0, strictCapacityLimit;
      live, freed := {}, {};
    }

    /** An entry leaves the list. */
    method Pull(e: LRUHandle)
      requires SoundBut({}) && e in Members()
      modifies list`lowPri, list`lruUsage, list`highUsage, list`low, list`high
      modifies list.lru`next, list.lru`prev, list.low`next, list.low`prev, list.high`next, list.high`prev
      ensures SoundBut({e})
      ensures list.low == Minus(old(list.low), e) && list.high == Minus(old(list.high), e)
      ensures list.lruUsage == old(list.lruUsage) - e.charge
      ensures old(list.Fits()) ==> list.Fits()
    {
      hide LRUHandleTable.Valid, LruList.Valid, LruList.Fits, Counted, Minus, Total;
      PullMembers(list.low, list.high, e);
      list.Remove(e);
      forall h | h in live - {e}
        ensures (h in Members() <==> h.inCache && h.refs == 1) && (h !in Members() ==> h.next == null && h.prev == null)
      {
        PullMember(old(list.low), old(list.high), e, h);
      }
    }

    /** A detached entry that only the cache refers to leaves the table and dies. */
    method Drop(e: LRUHandle)
      requires SoundBut({e}) && e.inCache && e.refs == 1
      modifies this`usage, this`live, table, table.list, table.nodes`nextHash, e`inCache, e`refs
      ensures SoundBut({}) && live == old(live) - {e} && e.refs == 0 && !e.inCache
      ensures table.entries == Keep(old(table.entries), {e}) && table.nodes == old(table.nodes) - {e}
      ensures usage == old(usage) - e.charge && table.list == old(table.list)
    {
      hide LRUHandleTable.Valid, LruList.Valid, LruList.Fits, Total;
      KeepAllBut(e);
      var r := table.Remove(e.key, e.hash);
      e.inCache := false;
      e.refs := e.refs - 1;
      TotalWithout(live, e);
      usage := usage - e.charge;
      live := live - {e};
    }

    lemma KeepAllBut(e: LRUHandle)
      requires table.Valid() && e in table.nodes
      ensures e.Place() in table.entries && table.entries[e.Place()] == e
      ensures Keep(table.entries, {e}) == table.entries - {e.Place()}
    {
      hide LRUHandleTable.Valid;
      table.NodeHasEntry(e);
      forall s | s in table.entries ensures table.entries[s] == e ==> s == e.Place() {
        table.EntryIsNode(s);
      }
    }

    /** The oldest entry of the list leaves the cache. */
    method EvictOldest() returns (e: LRUHandle)
      requires SoundBut({}) && Members() != []
      modifies list`lowPri, list`lruUsage, list`highUsage, list`low, list`high
      modifies list.lru`next, list.lru`prev, list.low`next, list.low`prev, list.high`next, list.high`prev
      modifies this`usage, this`live, table, table.list, table.nodes`nextHash, Oldest()`inCache, Oldest()`refs
      ensures SoundBut({}) && e == old(Members())[0] && Members() == old(Members())[1..]
      ensures list.low == (if old(list.low) != [] then old(list.low)[1..] else [])
      ensures list.high == (if old(list.low) != [] then old(list.high) else old(list.high)[1..])
      ensures live == old(live) - {e} && e in old(live) && e.refs == 0 && !e.inCache && old(Oldest().refs) == 1
      ensures table.entries == Keep(old(table.entries), {e}) && table.nodes == old(table.nodes) - {e}
      ensures usage == old(usage) - e.charge && table.list == old(table.list)
      ensures list.lruUsage == old(list.lruUsage) - e.charge
      ensures old(list.Fits()) ==> list.Fits()
    {
      hide LRUHandleTable.Valid, LruList.Valid, LruList.Fits, Counted, Minus, Total, Keep;
      list.OldestIsNext();
      list.OldestOut();
      e := list.lru.next;
      assert e in Members();
      Pull(e);
      Drop(e);
    }

    /** Everything listed or tabled is alive. */
    lemma Inside(loose: set<LRUHandle>)
      requires SoundBut(loose)
      ensures table.nodes <= live
      ensures forall i :: 0 <= i < |list.low| ==> list.low[i] in live
      ensures forall i :: 0 <= i < |list.high| ==> list.high[i] in live
      ensures forall i :: 0 <= i < |Members()| ==> Members()[i] in live
    {
      hide LRUHandleTable.Valid, LruList.Valid, LruList.Fits, Total;
      forall i | 0 <= i < |list.low| ensures list.low[i] in live { assert Members()[i] == list.low[i]; }
      forall i | 0 <= i < |list.high| ensures list.high[i] in live { assert Members()[|list.low| + i] == list.high[i]; }
    }

    /** Evicts the oldest entries until `charge` fits or the list is empty. */
    method EvictFromLRU(charge: nat) returns (deleted: seq<LRUHandle>)
      requires SoundBut({})
      modifies list`lowPri, list`lruUsage, list`highUsage, list`low, list`high
      modifies list.lru`next, list.lru`prev, live`next, live`prev, live`inCache, live`refs
      modifies this`usage, this`live, table, table.list, live`nextHash
      ensures SoundBut({}) && Dead(deleted) && Distinct(deleted) && table.list == old(table.list)
      ensures deleted == Victims(old(Members()), old(usage), charge, capacity)
      ensures list.low == Survivors(old(list.low), old(usage), charge, capacity)
      ensures list.high == Survivors(old(list.high), old(usage) - Charge(old(list.low)), charge, capacity)
      ensures usage - list.lruUsage == old(usage - list.lruUsage) && usage <= old(usage)
      ensures old(list.Fits()) ==> list.Fits()
      ensures usage + charge <= capacity || Members() == []
      ensures live == old(live) - AsSet(deleted) && AsSet(deleted) <= old(live)
      ensures forall h :: h in old(live) && h !in live ==> old(h.refs) == 1
      ensures table.entries == Keep(old(table.entries), AsSet(deleted)) && table.nodes == old(table.nodes) - AsSet(deleted)
      ensures forall h :: h in live ==> h.refs == old(h.refs) && h.inCache == old(h.inCache)
    {
      hide LRUHandleTable.Valid, LruList.Valid, LruList.Fits, Counted, Total, Keep, Listed, Distinct,
           LRUCacheShard.SoundBut, Dead, AsSet, Victims, Survivors, Charge, Evicted, LeadsTo;
      deleted := [];
      Opening();
      NothingEvicted(Members(), usage, charge, capacity);
      NothingLeft(list.low, list.high, usage, charge, capacity);
      while usage + charge > capacity && list.lru.next != list.lru
        invariant SoundBut({}) && Dead(deleted) && table.list == old(table.list)
        invariant Members() == [] <==> list.lru.next == list.lru
        invariant Evicted(old(Members()), old(usage), charge, capacity, Members(), usage, deleted)
        invariant LeadsTo(old(list.low), old(list.high), old(usage), charge, capacity, list.low, list.high, usage)
        invariant usage - list.lruUsage == old(usage - list.lruUsage) && usage <= old(usage) && (old(list.Fits()) ==> list.Fits())
        invariant live == old(live) - AsSet(deleted) && AsSet(deleted) <= old(live)
        invariant forall h :: h in old(live) && h !in live ==> old(h.refs) == 1
        invariant table.entries == Keep(old(table.entries), AsSet(deleted)) && table.nodes == old(table.nodes) - AsSet(deleted)
        invariant forall h :: h in live ==> h.refs == old(h.refs) && h.inCache == old(h.inCache)
        decreases |Members()|
      {
        Inside({});
        OneMoreEvicted(old(Members()), old(usage), charge, capacity, Members(), usage, deleted);
        OneLessInPools(old(list.low), old(list.high), old(usage), charge, capacity, list.low, list.high, usage);
        var e := EvictOldest();
        KeepTwice(old(table.entries), AsSet(deleted), {e});
        AsSetPush(deleted, e);
        DeadPush(deleted, e);
        deleted := deleted + [e];
        Opening();
      }
      AllEvicted(old(Members()), old(usage), charge, capacity, Members(), usage, deleted);
      PoolsDone(old(list.low), old(list.high), old(usage), charge, capacity, list.low, list.high, usage);
    }

    lemma Opening()
      requires SoundBut({})
      ensures Members() == [] <==> list.lru.next == list.lru
      ensures Distinct(Members()) && Dead([]) && AsSet([]) == {} && Keep(table.entries, {}) == table.entries
    {
      hide LRUHandleTable.Valid, LruList.Valid, LruList.Fits, Counted, Total, Keep, Listed;
      list.OldestIsNext();
      list.MembersDistinct();
      KeepEverything(table.entries);
    }

    /** Calls the deleter of an entry that nobody can reach any more. */
    method Free(e: LRUHandle)
      requires (e.refs == 1 && e.inCache) || (e.refs == 0 && !e.inCache)
      requires e !in live && e !in freed && SoundBut({})
      modifies this`freed
      ensures SoundBut({}) && freed == old(freed) + {e}
    {
      hide LRUHandleTable.Valid, LruList.Valid, LruList.Fits, Counted, Total, Listed;
      freed := freed + {e};
    }

    method FreeAll(deleted: seq<LRUHandle>)
      requires SoundBut({}) && Dead(deleted) && Distinct(deleted)
      requires AsSet(deleted) !! live && AsSet(deleted) !! freed
      modifies this`freed
      ensures SoundBut({}) && freed == old(freed) + AsSet(deleted)
    {
      hide LRUHandleTable.Valid, LruList.Valid, LruList.Fits, Counted, Total, Listed, LRUCacheShard.SoundBut;
      for i := 0 to |deleted|
        invariant SoundBut({}) && freed == old(freed) + AsSet(deleted[..i])
      {
        assert deleted[..i + 1] == deleted[..i] + [deleted[i]];
        AsSetPush(deleted[..i], deleted[i]);
        assert deleted[i] in AsSet(deleted);
        Free(deleted[i]);
      }
      assert deleted[..|deleted|] == deleted;
    }

    lemma LiveNotFreed()
      requires SoundBut({})
      ensures live !! freed
    {
    }

    method ChangeLimits(newCapacity: nat, newRatio: real)
      requires SoundBut({}) && newRatio >= 0.0
      modifies this`capacity, list`highCapacity, list`highRatio
      ensures SoundBut({}) && capacity == newCapacity && list.highRatio == newRatio
      ensures list.highCapacity == PoolCapacity(newCapacity, newRatio)
    {
      PoolIsNotNegative(newCapacity, newRatio);
      hide LRUHandleTable.Valid, LruList.Valid, LruList.Fits, Counted, Total, Listed, PoolCapacity;
      assert live - {} == live;
      capacity := newCapacity;
      list.SetPool(newRatio, PoolCapacity(newCapacity, newRatio));
    }

    /** Evicts for `charge` and frees what was evicted. */
    method MakeRoom(charge: nat)
      requires SoundBut({})
      modifies list`lowPri, list`lruUsage, list`highUsage, list`low, list`high
      modifies list.lru`next, list.lru`prev, live`next, live`prev, live`inCache, live`refs
      modifies this`usage, this`live, this`freed, table, table.list, live`nextHash
      ensures SoundBut({}) && table.list == old(table.list)
      ensures freed == old(freed) + AsSet(Victims(old(Members()), old(usage), charge, capacity))
      ensures list.low == Survivors(old(list.low), old(usage), charge, capacity)
      ensures list.high == Survivors(old(list.high), old(usage) - Charge(old(list.low)), charge, capacity)
      ensures usage - list.lruUsage == old(usage - list.lruUsage) && usage <= old(usage)
      ensures old(list.Fits()) ==> list.Fits()
      ensures usage + charge <= capacity || Members() == []
      ensures live + freed == old(live + freed) && freed - old(freed) <= old(live)
      ensures table.entries == Keep(old(table.entries), freed - old(freed)) && table.nodes == old(table.nodes) - (freed - old(freed))
      ensures forall h :: h in live ==> h.refs == old(h.refs) && h.inCache == old(h.inCache)
    {
      hide LRUHandleTable.Valid, LruList.Valid, LruList.Fits, Counted, Total, Listed, Dead, Distinct, Victims,
           Survivors, Keep, AsSet, Charge, LRUCacheShard.SoundBut;
      LiveNotFreed();
      var deleted := EvictFromLRU(charge);
      FreeAll(deleted);
      assert freed - old(freed) == AsSet(deleted);
    }

    method SetCapacity(newCapacity: nat)
      requires Valid()
      modifies this`capacity, list`highCapacity, list`highRatio
      modifies list`lowPri, list`lruUsage, list`highUsage, list`low, list`high
      modifies list.lru`next, list.lru`prev, live`next, live`prev, live`inCache, live`refs
      modifies this`usage, this`live, this`freed, table, table.list, live`nextHash
      ensures Valid() && capacity == newCapacity
      ensures list.highRatio == old(list.highRatio) && list.highCapacity == PoolCapacity(newCapacity, list.highRatio)
      ensures freed == old(freed) + AsSet(Victims(old(Members()), old(usage), 0, newCapacity))
      ensures list.low == Survivors(old(list.low), old(usage), 0, newCapacity)
      ensures list.high == Survivors(old(list.high), old(usage) - Charge(old(list.low)), 0, newCapacity)
      // Nothing is moved out of the pool: it fits exactly when what eviction leaves of it does.
      ensures list.Fits() <==>
              !Exceeds(Charge(Survivors(old(list.high), old(usage) - Charge(old(list.low)), 0, newCapacity)),
                       PoolCapacity(newCapacity, old(list.highRatio)))
      ensures live + freed == old(live + freed) && table.list == old(table.list)
      ensures table.entries == Keep(old(table.entries), freed - old(freed))
      ensures forall h :: h in live ==> h.refs == old(h.refs) && h.inCache == old(h.inCache)
    {
      hide LRUHandleTable.Valid, LruList.Valid, LruList.Fits, Counted, Total, Listed, Victims, Survivors, Keep,
           AsSet, Charge, Exceeds, LRUCacheShard.SoundBut, PoolCapacity;
      RatioIsNotNegative();
      ChangeLimits(newCapacity, list.highRatio);
      MakeRoom(0);
      PoolIsCharged();
    }

    lemma RatioIsNotNegative()
      requires SoundBut({})
      ensures list.highRatio >= 0.0
    {
    }

    lemma PoolIsCharged()
      requires SoundBut({})
      ensures list.Fits() <==> !Exceeds(Charge(list.high), list.highCapacity)
    {
    }

    /** One more outside reference. */
    method Pin(e: LRUHandle)
      requires SoundBut({}) && e in live
      modifies list`lowPri, list`lruUsage, list`highUsage, list`low, list`high
      modifies list.lru`next, list.lru`prev, live`next, live`prev, e`refs
      ensures SoundBut({}) && e.refs == old(e.refs) + 1
      ensures list.low == Minus(old(list.low), e) && list.high == Minus(old(list.high), e)
      ensures old(list.Fits()) ==> list.Fits()
    {
      hide LRUHandleTable.Valid, LruList.Valid, LruList.Fits, Total, Minus;
      Inside({});
      if e.inCache && e.refs == 1 {
        Pull(e);
      } else {
        MinusAbsent(list.low, e);
        MinusAbsent(list.high, e);
      }
      e.refs := e.refs + 1;
    }

    /** Finds an entry and hands out one more reference to it; a referenced entry is off the list. */
    method Lookup(key: Key, hash: nat) returns (e: LRUHandle?)
      requires Valid()
      modifies list`lowPri, list`lruUsage, list`highUsage, list`low, list`high
      modifies list.lru`next, list.lru`prev, live`next, live`prev, live`refs
      ensures Valid()
      ensures e == if Slot(key, hash) in table.entries then table.entries[Slot(key, hash)] else null
      ensures forall h :: h in live ==> h.refs == old(h.refs) + if h == e then 1 else 0
      ensures e == null ==> list.low == old(list.low) && list.high == old(list.high)
      ensures e != null ==> e in live && list.low == Minus(old(list.low), e) && list.high == Minus(old(list.high), e)
      ensures old(list.Fits()) ==> list.Fits()
    {
      hide LRUHandleTable.Valid, LruList.Valid, LruList.Fits, Total, Minus, Listed;
      e := table.Lookup(key, hash);
      if e != null {
        table.EntryIsNode(Slot(key, hash));
        EmptyStays(e);
        Pin(e);
      }
    }

    lemma EmptyStays(e: LRUHandle)
      ensures Members() == [] ==> Minus(list.low, e) + Minus(list.high, e) == []
    {
    }

    /** One more reference for a holder of the entry. */
    method Ref(e: LRUHandle)
      requires Valid() && e in live
      modifies list`lowPri, list`lruUsage, list`highUsage, list`low, list`high
      modifies list.lru`next, list.lru`prev, live`next, live`prev, e`refs
      ensures Valid() && e.refs == old(e.refs) + 1
      ensures list.low == Minus(old(list.low), e) && list.high == Minus(old(list.high), e)
      ensures old(list.Fits()) ==> list.Fits()
    {
      hide LRUHandleTable.Valid, LruList.Valid, LruList.Fits, Total, Minus, Listed;
      EmptyStays(e);
      Pin(e);
    }

    /** An entry nobody refers to outside joins the list. */
    method Settle(e: LRUHandle)
      requires SoundBut({e}) && e.inCache && e.refs == 1
      modifies list`lowPri, list`lruUsage, list`highUsage, list`low, list`high, list.high`inHighPriPool
      modifies list.lru`next, list.lru`prev, list.low`next, list.low`prev, list.high`next, list.high`prev
      modifies e`next, e`prev, e`inHighPriPool
      ensures SoundBut({}) && e in Members()
      ensures (list.low, list.high) == Placement(old(list.low), old(list.high), e, list.highRatio, list.highCapacity)
      ensures old(list.Fits()) ==> list.Fits()
    {
      hide LRUHandleTable.Valid, LruList.Valid, LruList.Fits, Total, Counted;
      NotOnList(e);
      list.Insert(e);
      SettledMembers(old(list.low), old(list.high), list.low, list.high, e);
    }

    lemma NotOnList(e: LRUHandle)
      requires SoundBut({e})
      ensures e !in list.Ring()
    {
      hide LRUHandleTable.Valid, LruList.Valid, LruList.Fits, Total, Counted;
      forall i | 0 <= i < |list.Ring()| ensures list.Ring()[i] != e {
        if i > 0 { assert list.Ring()[i] == Members()[i - 1]; }
      }
    }

    /** Gives one outside reference back; without any left, an entry outside the table dies. */
    method DropReference(e: LRUHandle) returns (lastReference: bool)
      requires SoundBut({}) && e in live && e.refs > (if e.inCache then 1 else 0)
      modifies e`refs, this`usage, this`live
      ensures e.refs == old(e.refs) - 1 && lastReference == (e.refs == 0)
      ensures SoundBut(if e.inCache && e.refs == 1 then {e} else {})
      ensures live == (if lastReference then old(live) - {e} else old(live))
      ensures usage == (if lastReference then old(usage) - e.charge else old(usage))
      ensures lastReference ==> Keep(table.entries, {e}) == table.entries
    {
      hide LRUHandleTable.Valid, LruList.Valid, LruList.Fits, Total;
      if e.refs == 1 {
        TotalWithout(live, e);
        KeepOthers(e);
      }
      e.refs := e.refs - 1;
      lastReference := e.refs == 0;
      if lastReference {
        usage := usage - e.charge;
        live := live - {e};
      }
    }

    lemma KeepOthers(e: LRUHandle)
      requires table.Valid() && e !in table.nodes
      ensures Keep(table.entries, {e}) == table.entries
    {
      hide LRUHandleTable.Valid;
      forall s | s in table.entries ensures table.entries[s] != e {
        table.EntryIsNode(s);
      }
    }

    /** A holder gives its reference back. The entry is freed when nobody refers to it any more, or when it
        is idle and the cache is full or the caller insists; an idle entry otherwise joins the list. */
    method Release(e: LRUHandle?, forceErase: bool) returns (lastReference: bool)
      requires Valid() && (e != null ==> e in live && e.refs > (if e.inCache then 1 else 0))
      modifies list`lowPri, list`lruUsage, list`highUsage, list`low, list`high, list.high`inHighPriPool
      modifies list.lru`next, list.lru`prev, list.low`next, list.low`prev, list.high`next, list.high`prev
      modifies this`usage, this`live, this`freed, table, table.list, table.nodes`nextHash
      modifies (if e != null then {e} else {})
      ensures Valid()
      ensures lastReference <==> e != null && (old(e.refs) == 1 || (old(e.inCache) && old(e.refs) == 2 && (old(usage) > capacity || forceErase)))
      ensures e != null && !lastReference ==> e.refs == old(e.refs) - 1 && e.inCache == old(e.inCache)
      ensures !lastReference ==> live == old(live) && freed == old(freed) && usage == old(usage) && table.entries == old(table.entries)
      ensures lastReference ==> live == old(live) - {e} && freed == old(freed) + {e} && usage == old(usage) - e.charge
      ensures lastReference ==> table.entries == Keep(old(table.entries), {e})
      ensures (list.low, list.high) ==
        if e != null && old(e.inCache) && old(e.refs) == 2 && !lastReference
        then Placement(old(list.low), old(list.high), e, list.highRatio, list.highCapacity) else (old(list.low), old(list.high))
      ensures old(list.Fits()) ==> list.Fits()
    {
      hide LRUHandleTable.Valid, LruList.Valid, LruList.Fits, Total, Counted, Listed, Keep, LRUCacheShard.SoundBut;
      if e == null {
        return false;
      }
      LiveNotFreed();
      lastReference := DropReference(e);
      if e.refs == 1 && e.inCache {
        if usage > capacity || forceErase {
          assert usage > capacity ==> list.low + list.high == [];
          Drop(e);
          lastReference := true;
        } else {
          Settle(e);
        }
      }
      if lastReference {
        Free(e);
      }
    }

    // ---- inserting and erasing ----

    /** `e` has just lost its place in the table and is otherwise untouched. */
    ghost predicate Stranded(e: LRUHandle, loose: set<LRUHandle>)
      reads `usage, `live, `freed, table, table.list, table.nodes`nextHash, list, list.lru, list.low, list.high, live, loose
    {
      && table.Valid() && list.Valid()
      && Counted(live - {e}, table.nodes)
      && e in live && e.refs > 0 && e.inCache
      && loose <= live && Listed(live - loose, Members())
      && (forall h :: h in loose ==> h.next == null && h.prev == null)
      && usage == Total(live)
      && live !! freed && list.lru !in live
    }

    method PullStranded(e: LRUHandle, ghost loose: set<LRUHandle>)
      requires Stranded(e, loose) && e.refs == 1 && e !in loose
      modifies list`lowPri, list`lruUsage, list`highUsage, list`low, list`high
      modifies list.lru`next, list.lru`prev, list.low`next, list.low`prev, list.high`next, list.high`prev
      ensures Stranded(e, loose + {e})
      ensures list.low == Minus(old(list.low), e) && list.high == Minus(old(list.high), e)
      ensures old(list.Fits()) ==> list.Fits()
    {
      hide LRUHandleTable.Valid, LruList.Valid, LruList.Fits, Total, Minus, Counted;
      PullMembers(list.low, list.high, e);
      assert forall i :: 0 <= i < |list.low| ==> list.low[i] !in loose by {
        forall i | 0 <= i < |list.low| ensures list.low[i] !in loose { assert Members()[i] == list.low[i]; }
      }
      assert forall i :: 0 <= i < |list.high| ==> list.high[i] !in loose by {
        forall i | 0 <= i < |list.high| ensures list.high[i] !in loose { assert Members()[|list.low| + i] == list.high[i]; }
      }
      list.Remove(e);
      forall h | h in live - (loose + {e})
        ensures (h in Members() <==> h.inCache && h.refs == 1) && (h !in Members() ==> h.next == null && h.prev == null)
      {
        PullMember(old(list.low), old(list.high), e, h);
      }
    }

    /** A displaced entry that somebody still refers to was not on the list. */
    lemma HeldElsewhere(e: LRUHandle, loose: set<LRUHandle>)
      requires Stranded(e, loose) && e !in loose && e.refs > 1
      ensures Minus(list.low, e) == list.low && Minus(list.high, e) == list.high
    {
      hide LRUHandleTable.Valid, LruList.Valid, LruList.Fits, Total, Counted;
      assert e !in Members();
      forall i | 0 <= i < |list.low| ensures list.low[i] != e { assert Members()[i] == list.low[i]; }
      forall i | 0 <= i < |list.high| ensures list.high[i] != e { assert Members()[|list.low| + i] == list.high[i]; }
      MinusAbsent(list.low, e);
      MinusAbsent(list.high, e);
    }

    /** Nobody refers to a displaced entry any more, and it is off the list. */
    method Bury(e: LRUHandle, ghost loose: set<LRUHandle>)
      requires Stranded(e, loose + {e}) && e.refs == 1 && e !in loose
      modifies e`refs, e`inCache, this`usage, this`live
      ensures SoundBut(loose) && e.refs == 0 && !e.inCache && live == old(live) - {e} && usage == old(usage) - e.charge
    {
      hide LRUHandleTable.Valid, LruList.Valid, LruList.Fits, Total;
      TotalWithout(live, e);
      assert live - (loose + {e}) == live - {e} - loose;
      usage := usage - e.charge;
      live := live - {e};
      e.inCache := false;
      e.refs := e.refs - 1;
    }

    /** The table gives up its reference to an entry it no longer holds. */
    method Disown(e: LRUHandle, ghost loose: set<LRUHandle>) returns (lastReference: bool)
      requires Stranded(e, loose) && e !in loose
      modifies list`lowPri, list`lruUsage, list`highUsage, list`low, list`high
      modifies list.lru`next, list.lru`prev, list.low`next, list.low`prev, list.high`next, list.high`prev
      modifies e`refs, e`inCache, this`usage, this`live
      ensures SoundBut(loose) && e.refs == old(e.refs) - 1 && !e.inCache && lastReference == (e.refs == 0)
      ensures live == (if lastReference then old(live) - {e} else old(live))
      ensures usage == (if lastReference then old(usage) - e.charge else old(usage))
      ensures list.low == Minus(old(list.low), e) && list.high == Minus(old(list.high), e)
      ensures old(list.Fits()) ==> list.Fits()
    {
      hide LRUHandleTable.Valid, LruList.Valid, LruList.Fits, Total, Minus;
      lastReference := e.refs == 1;
      if lastReference {
        PullStranded(e, loose);
        Bury(e, loose);
      } else {
        HeldElsewhere(e, loose);
        e.inCache := false;
        e.refs := e.refs - 1;
      }
    }

    method Erase(key: Key, hash: nat)
      requires Valid()
      modifies list`lowPri, list`lruUsage, list`highUsage, list`low, list`high
      modifies list.lru`next, list.lru`prev, list.low`next, list.low`prev, list.high`next, list.high`prev
      modifies table, table.list, table.nodes`nextHash, table.nodes`refs, table.nodes`inCache, this`usage, this`live, this`freed
      ensures Valid() && table.entries == old(table.entries) - {Slot(key, hash)}
      ensures live + freed == old(live + freed) && freed == old(freed) + (old(live) - live)
      ensures list.low == Vacated(old(list.low), old(table.entries), Slot(key, hash))
      ensures list.high == Vacated(old(list.high), old(table.entries), Slot(key, hash))
      ensures Slot(key, hash) !in old(table.entries) ==> live == old(live)
      ensures Slot(key, hash) in old(table.entries) ==>
        var e := old(table.entries)[Slot(key, hash)];
        e.refs == old(e.refs) - 1 && !e.inCache && live == old(live) - (if old(e.refs) == 1 then {e} else {})
      ensures forall h :: h in old(live) && !(Slot(key, hash) in old(table.entries) && old(table.entries)[Slot(key, hash)] == h) ==>
        h.refs == old(h.refs) && h.inCache == old(h.inCache)
      ensures old(list.Fits()) ==> list.Fits()
    {
      hide LRUHandleTable.Valid, LruList.Valid, LruList.Fits, Total, Minus, Counted, Listed, LRUCacheShard.SoundBut,
           LRUCacheShard.Stranded;
      LiveNotFreed();
      Inside({});
      var e := TakeFromTable(key, hash);
      if e != null {
        EmptyStays(e);
        var lastReference := Disown(e, {});
        if lastReference {
          Free(e);
        }
      }
    }

    method TakeFromTable(key: Key, hash: nat) returns (e: LRUHandle?)
      requires SoundBut({})
      modifies table, table.list, table.nodes`nextHash
      ensures table.entries == old(table.entries) - {Slot(key, hash)}
      ensures e == if Slot(key, hash) in old(table.entries) then old(table.entries)[Slot(key, hash)] else null
      ensures if e == null then SoundBut({}) else Stranded(e, {}) && e in old(table.nodes)
    {
      hide LRUHandleTable.Valid, LruList.Valid, LruList.Fits, Total, Listed;
      if Slot(key, hash) in table.entries {
        table.EntryIsNode(Slot(key, hash));
      }
      e := table.Remove(key, hash);
    }

    /** A new entry takes its place in the table, from which another one may fall out. */
    method TakePlace(e: LRUHandle) returns (former: LRUHandle?)
      requires SoundBut({}) && e !in live && e !in freed && e != list.lru && e.inCache && e.refs > 0
      modifies table, table.list, table.nodes`nextHash, e`nextHash
      ensures table.Valid() && list.Valid() && Listed(live, Members())
      ensures table.list == old(table.list) || fresh(table.list)
      ensures table.entries == old(table.entries)[e.Place() := e]
      ensures former == if e.Place() in old(table.entries) then old(table.entries)[e.Place()] else null
      ensures former == null ==> Counted(live + {e}, table.nodes)
      ensures former != null ==> former in live && former.refs > 0 && former.inCache && Counted(live + {e} - {former}, table.nodes)
    {
      hide LRUHandleTable.Valid, LruList.Valid, LruList.Fits, Total, Listed;
      if e.Place() in table.entries {
        table.EntryIsNode(e.Place());
      }
      assert live - {} == live;
      former := table.Insert(e);
    }

    /** The same with the counters; whatever is displaced is stranded. */
    method Enter(e: LRUHandle) returns (former: LRUHandle?)
      requires SoundBut({}) && e !in live && e !in freed && e != list.lru
      requires e.inCache && e.refs > 0 && e.next == null && e.prev == null
      modifies table, table.list, table.nodes`nextHash, e`nextHash, this`usage, this`live
      ensures live == old(live) + {e} && usage == old(usage) + e.charge
      ensures table.list == old(table.list) || fresh(table.list)
      ensures table.entries == old(table.entries)[e.Place() := e]
      ensures former == if e.Place() in old(table.entries) then old(table.entries)[e.Place()] else null
      ensures if former == null then SoundBut({e}) else Stranded(former, {e}) && former in old(live)
    {
      hide LRUHandleTable.Valid, LruList.Valid, LruList.Fits, Total, Listed, Counted;
      TotalWithout(live + {e}, e);
      assert live + {e} - {e} == live;
      former := TakePlace(e);
      usage := usage + e.charge;
      live := live + {e};
      assert live - {e} == old(live);
    }

    /** An entry that a handle was returned for may stay off the list. */
    lemma Held(e: LRUHandle)
      requires SoundBut({e}) && e.refs > 1
      ensures SoundBut({})
    {
      hide LRUHandleTable.Valid, LruList.Valid, LruList.Fits, Total, Counted;
      NotOnList(e);
      forall i | 0 <= i < |Members()| ensures Members()[i] != e { assert Members()[i] == list.Ring()[1 + i]; }
    }

    /** The accepting half of an insertion; returns the displaced entry when nobody refers to it any more. */
    method Admit(e: LRUHandle, keepHandle: bool) returns (dying: LRUHandle?)
      requires SoundBut({}) && e !in live && e !in freed && e != list.lru
      requires e.inCache && e.refs == (if keepHandle then 2 else 1) && e.next == null && e.prev == null
      modifies list`lowPri, list`lruUsage, list`highUsage, list`low, list`high, live`inHighPriPool
      modifies list.lru`next, list.lru`prev, live`next, live`prev, live`refs, live`inCache, live`nextHash
      modifies e, table, table.list, this`usage, this`live
      ensures SoundBut({}) && e in live && e.inCache && e.refs == (if keepHandle then 2 else 1)
      ensures table.list == old(table.list) || fresh(table.list)
      ensures table.entries == old(table.entries)[e.Place() := e]
      ensures usage <= old(usage) + e.charge && (keepHandle && old(Members()) == [] ==> Members() == [])
      ensures (list.low, list.high) ==
              Arranged(old(list.low), old(list.high), old(table.entries), e, keepHandle, list.highRatio, list.highCapacity)
      ensures live == old(live) + {e} - (if dying == null then {} else {dying})
      ensures (if dying == null then {} else {dying}) == old(OnlyCached(e.Place()))
      ensures dying != null ==> dying in old(live) && dying.refs == 0 && !dying.inCache
      ensures forall h :: h in old(live) ==> h.refs == old(h.refs) - if Displaced(old(table.entries), e, h) then 1 else 0
      ensures old(list.Fits()) ==> list.Fits()
    {
      hide LRUHandleTable.Valid, LruList.Valid, LruList.Fits, Total, Counted, Listed, LRUCacheShard.SoundBut,
           LRUCacheShard.Stranded, Minus, Placement;
      Inside({});
      dying := null;
      var former := Enter(e);
      if former != null {
        EmptyStays(former);
        var lastReference := Disown(former, {e});
        if lastReference {
          dying := former;
        }
      }
      if keepHandle {
        Held(e);
      } else {
        Inside({e});
        Settle(e);
      }
    }

    /** Admits an entry and frees what eviction and displacement left without references. */
    method Accept(e: LRUHandle, keepHandle: bool, deleted: seq<LRUHandle>)
      requires SoundBut({}) && e !in live && e !in freed && e != list.lru
      requires e.inCache && e.refs == (if keepHandle then 2 else 1) && e.next == null && e.prev == null
      requires Dead(deleted) && Distinct(deleted) && AsSet(deleted) !! live && AsSet(deleted) !! freed
      requires forall i :: 0 <= i < |deleted| ==> deleted[i] !in live && deleted[i] != e
      modifies list`lowPri, list`lruUsage, list`highUsage, list`low, list`high, live`inHighPriPool
      modifies list.lru`next, list.lru`prev, live`next, live`prev, live`refs, live`inCache, live`nextHash
      modifies e, table, table.list, this`usage, this`live, this`freed
      ensures SoundBut({}) && e in live && e.inCache && e.refs == (if keepHandle then 2 else 1)
      ensures table.list == old(table.list) || fresh(table.list)
      ensures table.entries == old(table.entries)[e.Place() := e]
      ensures usage <= old(usage) + e.charge && (keepHandle && old(Members()) == [] ==> Members() == [])
      ensures (list.low, list.high) ==
              Arranged(old(list.low), old(list.high), old(table.entries), e, keepHandle, list.highRatio, list.highCapacity)
      ensures live == old(live) + {e} - old(OnlyCached(e.Place()))
      ensures freed == old(freed) + AsSet(deleted) + old(OnlyCached(e.Place()))
      ensures forall h :: h in old(live) ==> h.refs == old(h.refs) - if Displaced(old(table.entries), e, h) then 1 else 0
      ensures old(list.Fits()) ==> list.Fits()
    {
      hide LRUHandleTable.Valid, LruList.Valid, LruList.Fits, Total, Counted, Listed, LRUCacheShard.SoundBut, AsSet,
           Distinct, Dead, Displaced, Arranged;
      LiveNotFreed();
      NotAmong(deleted, e);
      var dying := Admit(e, keepHandle);
      FreeAll(deleted);
      if dying != null {
        Free(dying);
      }
    }

    /** Whether an insertion is turned away: what is referenced outside and the new charge exceed the capacity. */
    ghost predicate Rejects(charge: nat, keepHandle: bool)
      reads `usage, `capacity, `strictCapacityLimit, list`lruUsage
    {
      usage - list.lruUsage + charge > capacity && (strictCapacityLimit || !keepHandle)
    }

    /** An insertion is turned away exactly if even without all idle entries there is no room, and it may not go beyond
        the capacity: it wants no handle, or the limit is strict. Any other such insertion fits after eviction. */
    lemma RefusalMeans(charge: nat, keepHandle: bool)
      requires Valid()
      ensures Rejects(charge, keepHandle) <==> Total(live - AsSet(Members())) + charge > capacity && (keepHandle ==> strictCapacityLimit)
      ensures strictCapacityLimit || !keepHandle ==>
                (!Rejects(charge, keepHandle) <==> usage - Charge(Victims(Members(), usage, charge, capacity)) + charge <= capacity)
    {
      hide LRUHandleTable.Valid;
      Inside({});
      list.MembersDistinct();
      ChargeAppend(list.low, list.high);
      ListIsPartOfTotal(Members(), live);
      var gone, kept := Victims(Members(), usage, charge, capacity), Survivors(Members(), usage, charge, capacity);
      EvictsJustEnough(Members(), usage, charge, capacity);
      hide Circular, Distinct, AsSet, Total, Charge, Victims, Survivors;
      ChargeAppend(gone, kept);
      if kept == [] { assert gone + kept == gone; }
    }

    /** Eviction takes only idle entries, so besides them a place loses the same entry before as after it. */
    lemma HolderAfterEviction(place: Slot, entries: map<Slot, LRUHandle>, gone: set<LRUHandle>, before: set<LRUHandle>)
      requires table.entries == Keep(entries, gone)
      requires place !in entries ==> before == {}
      requires place in entries ==>
                 before == if entries[place] in gone || entries[place].refs == 1 then {entries[place]} else {}
      ensures forall s: set<LRUHandle> :: s + gone + OnlyCached(place) == s + gone + before
    {
      var now := OnlyCached(place);
      assert now - gone == before - gone;
      forall s: set<LRUHandle>
        ensures s + gone + now == s + gone + before
      {
      }
    }

    lemma HolderNow(place: Slot)
      requires SoundBut({})
      ensures place !in table.entries ==> OnlyCached(place) == {}
      ensures place in table.entries ==>
                && table.entries[place] in live
                && OnlyCached(place) == if table.entries[place].refs == 1 then {table.entries[place]} else {}
    {
      hide LRUHandleTable.Valid, LruList.Valid, LruList.Fits, Total, Listed;
      if place in table.entries { table.EntryIsNode(place); }
    }

    /** Inserts an entry after making room for it. Without room, it is dropped when no handle is wanted,
        refused under a strict limit, and admitted beyond the capacity otherwise. */
    method Insert(key: Key, hash: nat, charge: nat, isHighPri: bool, keepHandle: bool)
      returns (status: Status, handle: LRUHandle?, ghost e: LRUHandle)
      requires Valid()
      modifies list`lowPri, list`lruUsage, list`highUsage, list`low, list`high, live`inHighPriPool
      modifies list.lru`next, list.lru`prev, live`next, live`prev, live`refs, live`inCache, live`nextHash
      modifies table, table.list, this`usage, this`live, this`freed
      ensures Valid() && fresh(e) && (table.list == old(table.list) || fresh(table.list))
      ensures e.Place() == Slot(key, hash) && e.charge == charge && e.isHighPri == isHighPri
      ensures status == (if old(Rejects(charge, keepHandle)) && keepHandle then Incomplete else Ok)
      ensures handle == (if keepHandle && !old(Rejects(charge, keepHandle)) then e else null)
      ensures var rest := Keep(old(table.entries), AsSet(Victims(old(Members()), old(usage), charge, capacity)));
        table.entries == if old(Rejects(charge, keepHandle)) then rest else rest[Slot(key, hash) := e]
      ensures old(Rejects(charge, keepHandle)) ==>
                && list.low == Survivors(old(list.low), old(usage), charge, capacity)
                && list.high == Survivors(old(list.high), old(usage) - Charge(old(list.low)), charge, capacity)
      ensures !old(Rejects(charge, keepHandle)) ==>
                (list.low, list.high) ==
                Arranged(Survivors(old(list.low), old(usage), charge, capacity),
                         Survivors(old(list.high), old(usage) - Charge(old(list.low)), charge, capacity),
                         Keep(old(table.entries), AsSet(Victims(old(Members()), old(usage), charge, capacity))),
                         e, keepHandle, list.highRatio, list.highCapacity)
      ensures if old(Rejects(charge, keepHandle)) then e !in live && (e in freed <==> !keepHandle)
              else e in live && e.inCache && e.refs == (if keepHandle then 2 else 1)
      // Beyond the capacity only an insertion goes that was asked for a handle, without a strict limit.
      ensures strictCapacityLimit || !keepHandle ==> usage <= capacity || usage <= old(usage)
      ensures freed == old(freed) + AsSet(Victims(old(Members()), old(usage), charge, capacity)) +
                       if !old(Rejects(charge, keepHandle)) then old(OnlyCached(Slot(key, hash)))
                       else if keepHandle then {} else {e}
      ensures live == old(live) - (freed - old(freed)) + if old(Rejects(charge, keepHandle)) then {} else {e}
      ensures forall h :: h in old(live) && h !in live ==> old(h.refs) == 1
      ensures forall h :: h in old(live) && h in live ==>
        h.refs == old(h.refs) - if !old(Rejects(charge, keepHandle)) && Displaced(old(table.entries), e, h) then 1 else 0
      ensures old(list.Fits()) ==> list.Fits()
    {
      hide LRUHandleTable.Valid, LruList.Valid, LruList.Fits, Total, Counted, Listed, LRUCacheShard.SoundBut,
           LRUCacheShard.OnlyCached, Victims, Survivors, Keep, AsSet, Distinct, Dead, Displaced, Charge, Arranged, Circular;
      handle := null;
      status := Ok;
      var entry := new LRUHandle(key, hash, charge, isHighPri, if keepHandle then 2 else 1);
      e := entry;
      LiveNotFreed();
      HolderNow(Slot(key, hash));
      var deleted := EvictFromLRU(charge);
      if usage - list.lruUsage + charge > capacity && (strictCapacityLimit || !keepHandle) {
        FreeAll(deleted);
        if !keepHandle {
          Free(entry);
        } else {
          status := Incomplete;
        }
      } else {
        EmptyListHasNoCharge();
        KeepDisplaced(old(table.entries), AsSet(deleted), entry, live);
        HolderAfterEviction(Slot(key, hash), old(table.entries), AsSet(deleted), old(OnlyCached(Slot(key, hash))));
        MembersOfSet(deleted, old(live), live);
        Accept(entry, keepHandle, deleted);
        LiveNotFreed();
        if keepHandle {
          handle := entry;
        }
      }
    }

    lemma EmptyListHasNoCharge()
      requires SoundBut({})
      ensures Members() == [] ==> list.lruUsage == 0
    {
      hide LRUHandleTable.Valid, Total, Counted, Listed;
    }

    /** Takes every entry off the list and out of the table, oldest first. */
    method Drain() returns (lastReferenceList: seq<LRUHandle>)
      requires SoundBut({})
      modifies list`lowPri, list`lruUsage, list`highUsage, list`low, list`high
      modifies list.lru`next, list.lru`prev, live`next, live`prev, live`inCache, live`refs
      modifies this`usage, this`live, table, table.list, live`nextHash
      ensures SoundBut({}) && Members() == [] && lastReferenceList == old(Members()) && Dead(lastReferenceList)
      ensures live == old(live) - AsSet(lastReferenceList) && AsSet(lastReferenceList) <= old(live)
      ensures table.entries == Keep(old(table.entries), AsSet(lastReferenceList))
      ensures usage - list.lruUsage == old(usage - list.lruUsage)
      ensures forall h :: h in live ==> h.refs == old(h.refs) && h.inCache == old(h.inCache)
    {
      hide LRUHandleTable.Valid, LruList.Valid, LruList.Fits, Counted, Total, Keep, Listed, Distinct,
           LRUCacheShard.SoundBut, Dead, AsSet;
      lastReferenceList := [];
      ghost var members := Members();
      Opening();
      while list.lru.next != list.lru
        invariant SoundBut({}) && Dead(lastReferenceList) && table.list == old(table.list)
        invariant Members() == [] <==> list.lru.next == list.lru
        invariant lastReferenceList + Members() == members
        invariant usage - list.lruUsage == old(usage - list.lruUsage)
        invariant live == old(live) - AsSet(lastReferenceList) && AsSet(lastReferenceList) <= old(live)
        invariant table.entries == Keep(old(table.entries), AsSet(lastReferenceList))
        invariant table.nodes == old(table.nodes) - AsSet(lastReferenceList)
        invariant forall h :: h in live ==> h.refs == old(h.refs) && h.inCache == old(h.inCache)
        decreases |members| - |lastReferenceList|
      {
        Inside({});
        FrontMoves(lastReferenceList, Members());
        NotInSet(lastReferenceList, Members()[0]);
        var e := EvictOldest();
        KeepTwice(old(table.entries), AsSet(lastReferenceList), {e});
        AsSetPush(lastReferenceList, e);
        DeadPush(lastReferenceList, e);
        lastReferenceList := lastReferenceList + [e];
        Opening();
      }
      assert lastReferenceList + [] == lastReferenceList;
    }

    /** Frees every entry that only the cache refers to. */
    method EraseUnRefEntries()
      requires Valid()
      modifies list`lowPri, list`lruUsage, list`highUsage, list`low, list`high
      modifies list.lru`next, list.lru`prev, live`next, live`prev, live`inCache, live`refs
      modifies this`usage, this`live, this`freed, table, table.list, live`nextHash
      ensures Valid() && Members() == []
      ensures freed == old(freed) + AsSet(old(Members())) && live == old(live) - AsSet(old(Members()))
      ensures table.entries == Keep(old(table.entries), AsSet(old(Members())))
      ensures usage == old(usage - list.lruUsage)
      ensures forall h :: h in live ==> h.refs == old(h.refs) && h.inCache == old(h.inCache)
    {
      hide LRUHandleTable.Valid, LruList.Valid, LruList.Fits, Counted, Total, Keep, Listed, Distinct,
           LRUCacheShard.SoundBut, Dead, AsSet;
      Opening();
      LiveNotFreed();
      var lastReferenceList := Drain();
      EmptyListHasNoCharge();
      FreeAll(lastReferenceList);
    }

    /** A new pool ratio takes effect at once. */
    method SetHighPriorityPoolRatio(ratio: real)
      requires Valid() && ratio >= 0.0
      modifies this`capacity, list`lowPri, list`highUsage, list`low, list`high, list`highRatio, list`highCapacity, list.high`inHighPriPool
      ensures Valid() && list.Fits() && Members() == old(Members()) && capacity == old(capacity)
      ensures list.highRatio == ratio && list.highCapacity == PoolCapacity(capacity, ratio)
      ensures (list.low, list.high) == Overflow(old(list.low), old(list.high), list.highCapacity)
    {
      hide LRUHandleTable.Valid, Circular, Distinct, LruList.Shaped, Counted, Total, Listed, PoolCapacity, Overflow,
           Charge;
      ChangeLimits(capacity, ratio);
      list.MaintainPoolSize();
    }

    method SetStrictCapacityLimit(strict: bool)
      requires Valid()
      modifies this`strictCapacityLimit
      ensures Valid() && strictCapacityLimit == strict
    {
      hide LRUCacheShard.SoundBut;
      strictCapacityLimit := strict;
    }

    /** Everything that is referenced outside, and nothing else, counts as pinned. */
    method GetPinnedUsage() returns (pinned: nat)
      requires Valid()
      ensures pinned == Total(live - AsSet(Members()))
      ensures forall h :: h in live && h !in AsSet(Members()) ==> h.refs > 1 || !h.inCache
    {
      hide LRUHandleTable.Valid;
      Inside({});
      list.MembersDistinct();
      ChargeAppend(list.low, list.high);
      ListIsPartOfTotal(Members(), live);
      hide Circular, Distinct, AsSet, Total, Charge;
      assert usage >= list.lruUsage;
      pinned := usage - list.lruUsage;
    }
  }

  lemma OneEntryEvicted(e: LRUHandle, usage: int, capacity: nat)
    requires usage <= capacity
    ensures Survivors([], usage, 0, capacity) == [] && Survivors([e], usage, 0, capacity) == [e]
    ensures Charge([]) == 0 && Charge([e]) == e.charge
  {
  }

  lemma OneEntryPlaced(e: LRUHandle, entries: map<Slot, LRUHandle>, usage: int, charge: nat, capacity: nat, pool: real)
    requires e.isHighPri && entries == map[] && e.charge as real <= pool
    ensures Survivors([], usage, charge, capacity) == [] && Charge([]) == 0
    ensures Arranged([], [], entries, e, false, 0.5, pool) == ([], [e])
  {
    assert [] + [e] == [e];
    assert Charge([e]) == e.charge;
  }

  lemma OnlyEntry(e: LRUHandle)
    ensures Total({e}) == e.charge
  {
    TotalWithout({e}, e);
    assert {e} - {e} == {};
  }

  /** Half of a shard of size 10 holds an entry of charge 3; at size 4 the entry stays and its pool is overfull. */
  method ShrinkingCanOverfillPool() returns (s: LRUCacheShard)
    ensures s.Valid() && s.capacity == 4 && |s.list.high| == 1 && !s.list.Fits()
  {
    hide LRUCacheShard.SoundBut, Survivors, Victims, Keep, AsSet, Arranged, Total, Charge;
    s := new LRUCacheShard(10, false, 0.5);
    assert s.usage == 0 && s.list.lruUsage == 0 by { EmptyShard(s); }
    var status, handle, e := s.Insert([], 0, 3, true, false);
    OneEntryPlaced(e, map[], 0, 3, 10, 5.0);
    assert Keep(map[], AsSet(Victims([], 0, 3, 10))) == map[] by { NothingKept(AsSet(Victims([], 0, 3, 10))); }
    assert s.list.low == [] && s.list.high == [e];
    assert s.usage == 3 by { OneEntryShard(s, e); }
    assert s.list.Fits() by { PoolOf(s); OneEntryEvicted(e, 3, 10); }
    OneEntryEvicted(e, 3, 4);
    s.SetCapacity(4);
  }

  lemma NothingKept(gone: set<LRUHandle>)
    ensures Keep(map[], gone) == map[]
  {
  }

  lemma EmptyShard(s: LRUCacheShard)
    requires s.Valid() && s.live == {} && s.Members() == []
    ensures s.usage == 0 && s.list.lruUsage == 0
  {
    s.EmptyListHasNoCharge();
  }

  lemma OneEntryShard(s: LRUCacheShard, e: LRUHandle)
    requires s.Valid() && s.live == {e}
    ensures s.usage == e.charge
  {
    OnlyEntry(e);
    hide LRUHandleTable.Valid, LruList.Valid;
  }

  lemma PoolOf(s: LRUCacheShard)
    requires s.Valid()
    ensures s.list.Fits() <==> !Exceeds(Charge(s.list.high), s.list.highCapacity)
  {
    s.PoolIsCharged();
  }
}
