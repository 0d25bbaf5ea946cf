/** A CLOCK cache shard operated by one thread at a time. */
module ClockCache {
  import opened Wrappers
  import opened ClockFlags
  import opened ClockSweeps

  /** The bin holds exactly the handles that hold no entry, each once. */
  ghost predicate BinOk(list: seq<Handle>, recycle: seq<nat>) {
    && (forall i, j :: 0 <= i < j < |recycle| ==> recycle[i] != recycle[j])
    && (forall h :: h in recycle ==> h < |list|)
    && (forall h :: 0 <= h < |list| ==> (h in recycle <==> !Live(list[h].flags)))
  }

  /** The table maps each key to the one handle that caches it. */
  ghost predicate TableOk(list: seq<Handle>, table: map<CacheKey, nat>) {
    && (forall k :: k in table ==> table[k] < |list| && list[table[k]].flags.inCache && list[table[k]].key == k)
    && (forall h :: 0 <= h < |list| && list[h].flags.inCache ==> list[h].key in table && table[list[h].key] == h)
  }

  /** Changing only the usage bit, or the count of a handle that stays live, disturbs neither structure. */
  lemma ReflagKeeps(list: seq<Handle>, recycle: seq<nat>, table: map<CacheKey, nat>, h: nat, f: Flags)
    requires BinOk(list, recycle) && TableOk(list, table) && h < |list|
    requires Live(f) == Live(list[h].flags) && f.inCache == list[h].flags.inCache
    ensures BinOk(list[h := list[h].(flags := f)], recycle) && TableOk(list[h := list[h].(flags := f)], table)
  {
  }

  lemma BinPush(list: seq<Handle>, recycle: seq<nat>, h: nat, to: Handle)
    requires BinOk(list, recycle) && h < |list| && Live(list[h].flags) && !Live(to.flags)
    ensures h !in recycle && BinOk(list[h := to], recycle + [h])
  {
  }

  lemma TableForget(list: seq<Handle>, table: map<CacheKey, nat>, h: nat, to: Handle)
    requires TableOk(list, table) && h < |list| && list[h].flags.inCache && !to.flags.inCache
    ensures list[h].key in table && TableOk(list[h := to], table - {list[h].key})
  {
  }

  /** A handle that is not cached is not in the table, whatever else happens to it. */
  lemma TableIgnores(list: seq<Handle>, table: map<CacheKey, nat>, h: nat, to: Handle)
    requires TableOk(list, table) && h < |list| && !list[h].flags.inCache && !to.flags.inCache
    ensures TableOk(list[h := to], table)
  {
  }

  /** `UnsetInCache`: the in-cache bit goes, and with it an entry nobody refers to. */
  function Uncached(h: Handle): Handle {
    if Evictable(h.flags)
    then Handle(CacheKey("", h.key.hash), None, h.charge, h.flags.(inCache := false))
    else h.(flags := h.flags.(inCache := false))
  }

  /** What letting go of a cached handle hands to its deleter. */
  function Displaced(h: Handle): seq<Deleted> {
    if Evictable(h.flags) then [Deleted(h.key, h.value)] else []
  }

  /** The same for the first `n` handles in turn. */
  function AllDisplaced(list: seq<Handle>, n: nat): seq<Deleted>
    requires n <= |list|
  {
    if n == 0 then [] else AllDisplaced(list, n - 1) + Displaced(list[n - 1])
  }

  lemma NoneDisplaced(list: seq<Handle>)
    ensures AllDisplaced(list, 0) == []
  {
  }

  lemma OneMoreDisplaced(before: seq<Deleted>, list: seq<Handle>, n: nat)
    requires n < |list|
    ensures before + AllDisplaced(list, n) + Displaced(list[n]) == before + AllDisplaced(list, n + 1)
    ensures Displaced(list[n]) == if Evictable(list[n].flags) then [Deleted(list[n].key, list[n].value)] else []
  {
  }

  lemma UncachedCharges(h: Handle)
    ensures Charge(Uncached(h), true) == Charge(h, true)
    ensures Charge(Uncached(h), false) == Charge(h, false) - if Evictable(h.flags) then h.charge else 0
    ensures Evictable(h.flags) ==> Charge(h, false) == h.charge
  {
  }

  /** With every handle taken out of the cache, the empty table is right and no entry is cached. */
  lemma NothingCached(list: seq<Handle>, was: seq<Handle>)
    requires |list| == |was| && forall i :: 0 <= i < |list| ==> list[i] == Uncached(was[i])
    ensures TableOk(list, map[]) && forall i :: 0 <= i < |list| ==> !list[i].flags.inCache
  {
  }

  lemma ReferencedAreKept(list: seq<Handle>, was: seq<Handle>)
    requires |list| == |was| && forall i :: 0 <= i < |list| ==> list[i] == Uncached(was[i])
    ensures forall i :: 0 <= i < |list| && was[i].flags.refs > 0 ==> list[i] == was[i].(flags := was[i].flags.(inCache := false))
  {
  }

  lemma BinAfterUncached(list: seq<Handle>, recycle: seq<nat>, h: nat)
    requires BinOk(list, recycle) && h < |list|
    ensures BinOk(list[h := Uncached(list[h])], if Evictable(list[h].flags) then recycle + [h] else recycle)
    ensures Evictable(list[h].flags) ==> h !in recycle
  {
  }

  /** Filling a handle from the bin. */
  lemma BinTake(list: seq<Handle>, recycle: seq<nat>, to: Handle)
    requires BinOk(list, recycle) && Live(to.flags) && recycle != []
    ensures var h := recycle[|recycle| - 1]; h < |list| && !Live(list[h].flags) && BinOk(list[h := to], recycle[..|recycle| - 1])
  {
    var n := |recycle| - 1;
    var h := recycle[n];
    assert h in recycle;
    AllButLast(recycle);
    var rest, filled := recycle[..n], list[h := to];
    assert forall g :: g in rest ==> g in recycle;
    forall g | 0 <= g < |filled|
      ensures g in rest <==> !Live(filled[g].flags)
    {
      assert g in recycle <==> !Live(list[g].flags);
    }
    assert forall i, j :: 0 <= i < j < |rest| ==> rest[i] != rest[j];
  }

  /** Without duplicates, dropping the last element drops exactly that member. */
  lemma AllButLast(xs: seq<nat>)
    requires xs != [] && forall i, j :: 0 <= i < j < |xs| ==> xs[i] != xs[j]
    ensures forall x :: x in xs[..|xs| - 1] <==> x in xs && x != xs[|xs| - 1]
  {
    var n := |xs| - 1;
    assert xs == xs[..n] + [xs[n]];
    assert xs[n] !in xs[..n];
  }

  lemma BinGrow(list: seq<Handle>, to: Handle)
    requires BinOk(list, []) && Live(to.flags)
    ensures BinOk(list + [to], [])
  {
    forall g | 0 <= g < |list + [to]|
      ensures Live((list + [to])[g].flags)
    {
      assert g < |list| ==> !(g in []) ;
    }
  }

  lemma TotalAppend(list: seq<Handle>, to: Handle, pinnedOnly: bool)
    ensures Total(list + [to], pinnedOnly) == Total(list, pinnedOnly) + Charge(to, pinnedOnly)
  {
    assert (list + [to])[..|list|] == list;
  }

  /** `list` with a fresh entry at `h`, which is a free handle or one past the end. */
  function Placed(list: seq<Handle>, h: nat, to: Handle): seq<Handle>
    requires h <= |list|
  {
    if h < |list| then list[h := to] else list + [to]
  }

  /** The table follows when a fresh entry takes over its key from whoever cached it before. */
  lemma TableReplace(list: seq<Handle>, table: map<CacheKey, nat>, h: nat, to: Handle)
    requires TableOk(list, table) && h <= |list| && (h < |list| ==> !list[h].flags.inCache) && to.flags.inCache
    ensures to.key !in table ==> TableOk(Placed(list, h, to), table[to.key := h])
    ensures to.key in table ==>
              var e := table[to.key];
              e < |list| && e != h && TableOk(Placed(list, h, to)[e := Uncached(list[e])], table[to.key := h])
  {
  }

  /** The list once a fresh entry is placed and the handle that cached its key before, if any, is let go. */
  function Inserted(list: seq<Handle>, table: map<CacheKey, nat>, h: nat, to: Handle): seq<Handle>
    requires h <= |list| && (to.key in table ==> table[to.key] < |list| && table[to.key] != h)
  {
    if to.key in table then Placed(list, h, to)[table[to.key] := Uncached(list[table[to.key]])] else Placed(list, h, to)
  }

  /** A fresh entry sits in its handle, and only the former holder of its key notices. */
  lemma InsertedWhere(list: seq<Handle>, table: map<CacheKey, nat>, h: nat, to: Handle)
    requires h <= |list| && (to.key in table ==> table[to.key] < |list| && table[to.key] != h)
    ensures h < |Inserted(list, table, h, to)| && Inserted(list, table, h, to)[h] == to
    ensures |Inserted(list, table, h, to)| >= |list|
    ensures forall i :: 0 <= i < |list| && i != h && !(to.key in table && i == table[to.key]) ==>
              Inserted(list, table, h, to)[i] == list[i]
  {
  }

  lemma TableFollows(list: seq<Handle>, table: map<CacheKey, nat>, h: nat, to: Handle)
    requires TableOk(list, table) && h <= |list| && (h < |list| ==> !Live(list[h].flags)) && to.flags.inCache
    ensures to.key in table ==> table[to.key] < |list| && table[to.key] != h && list[table[to.key]].flags.inCache
    ensures TableOk(Inserted(list, table, h, to), table[to.key := h])
    ensures |Placed(list, h, to)| >= |list| && h < |Placed(list, h, to)|
    ensures Inserted(list, table, h, to) ==
            if to.key in table then Placed(list, h, to)[table[to.key] := Uncached(Placed(list, h, to)[table[to.key]])]
            else Placed(list, h, to)
    ensures to.key in table ==> Placed(list, h, to)[table[to.key]] == list[table[to.key]]
    ensures Charge(to, false) == to.charge && Charge(to, true) == if to.flags.refs > 0 then to.charge else 0
  {
    TableReplace(list, table, h, to);
  }

  class ClockCacheShard {
    var list: seq<Handle>
    var head: nat
    var recycle: seq<nat>
    var capacity: nat
    var usage: nat
    var pinnedUsage: nat
    var strictCapacityLimit: bool
    var table: map<CacheKey, nat>

    /** Entries handed to their deleters so far. */
    ghost var deleted: seq<Deleted>

    ghost predicate CountsOk() reads this {
      usage == Total(list, false) && pinnedUsage == Total(list, true)
    }

    ghost predicate Valid() reads this {
      && (head < |list| || (list == [] && head == 0))
      && BinOk(list, recycle) && TableOk(list, table) && CountsOk()
    }

    constructor (capacity: nat, strict: bool)
      ensures Valid() && list == [] && deleted == [] && this.capacity == capacity && strictCapacityLimit == strict
    {
      list, head, recycle := [], 0, [];
      this.capacity, usage, pinnedUsage, strictCapacityLimit := capacity, 0, 0, strict;
      table, deleted := map[], [];
    }

    /** What every operation states about a handle it re-flags: the counters follow the flags. */
    lemma CountsFollow(h: nat, to: Handle)
      requires CountsOk() && h < |list|
      ensures usage >= Charge(list[h], false) && pinnedUsage >= Charge(list[h], true)
      ensures Total(list[h := to], false) == usage - Charge(list[h], false) + Charge(to, false)
      ensures Total(list[h := to], true) == pinnedUsage - Charge(list[h], true) + Charge(to, true)
    {
      TotalUpdate(list, h, to, false);
      TotalUpdate(list, h, to, true);
    }

    /** `RecycleHandle`, entered right after the flags went to zero. */
    method RecycleHandle(h: nat)
      requires h < |list| && !Live(list[h].flags) && h !in recycle
      requires usage >= list[h].charge
      modifies this`list, this`recycle, this`usage, this`deleted
      ensures list == old(list)[h := old(list[h]).(key := CacheKey("", old(list[h]).key.hash), value := None)]
      ensures recycle == old(recycle) + [h]
      ensures usage == old(usage) - old(list[h]).charge
      ensures deleted == old(deleted) + [Deleted(old(list[h]).key, old(list[h]).value)]
    {
      deleted := deleted + [Deleted(list[h].key, list[h].value)];
      list := list[h := list[h].(key := CacheKey("", list[h].key.hash), value := None)];
      recycle := recycle + [h];
      usage := usage - list[h].charge;
    }

    /** Evicts the handle if it is cached, unreferenced and unused since last seen; else clears its usage bit. */
    method TryEvict(h: nat) returns (evicted: bool)
      requires Valid() && h < |list|
      modifies this`list, this`recycle, this`usage, this`table, this`deleted
      ensures Valid() && |list| == |old(list)|
      ensures evicted <==> old(list[h]).flags == Flags(true, false, 0)
      ensures list == old(list)[h := Examined(old(list[h]))]
      ensures deleted == old(deleted) + if evicted then [Deleted(old(list[h]).key, old(list[h]).value)] else []
    {
      hide BinOk, TableOk;
      var handle := list[h];
      if handle.flags == Flags(true, false, 0) {
        CountsFollow(h, Emptied(handle));
        BinPush(list, recycle, h, Emptied(handle));
        TableForget(list, table, h, Emptied(handle));
        list := list[h := handle.(flags := CLEAR)];
        table := table - {handle.key};
        RecycleHandle(h);
        assert list == old(list)[h := Emptied(handle)];
        return true;
      }
      CountsFollow(h, handle.(flags := handle.flags.(usage := false)));
      ReflagKeeps(list, recycle, table, h, handle.flags.(usage := false));
      list := list[h := handle.(flags := handle.flags.(usage := false))];
      return false;
    }

    /**
     * Makes room for `charge`; `calls` is the number of handles examined. The loop stops at the first
     * point within two rounds where the charge fits, and gives up after exactly two rounds.
     */
    method EvictFromCache(charge: nat) returns (success: bool, ghost calls: nat)
      requires Valid()
      modifies this`list, this`recycle, this`usage, this`table, this`deleted, this`head
      ensures Valid() && |list| == |old(list)| && (old(usage) > 0 || calls > 0 ==> old(head) < |old(list)|)
      ensures RoomMade(old(list), old(head), old(usage), charge, capacity, success, calls, list)
      ensures success <==> old(pinnedUsage) + SparedCharge(old(list), old(head)) + charge <= capacity
      ensures success ==> usage + charge <= capacity
      ensures deleted == old(deleted) + if calls == 0 then [] else EvictedBy(old(list), old(head), calls)
      ensures old(usage) > 0 ==> head == if success then HandAfter(old(head), calls, |list|) else old(head)
      ensures calls == 0 ==> list == old(list) && recycle == old(recycle) && usage == old(usage) && table == old(table) &&
                             deleted == old(deleted) && head == old(head)
    {
      hide BinOk, TableOk, SweptList, HandAfter, Total, Examined, AtPoint, NoRoomBefore, EvictedBy, SparedCharge;
      calls := 0;
      if usage == 0 {
        success := charge <= capacity;
        SuccessIff(list, head, charge, capacity, success, calls, list);
        return;
      }
      SweepStart(list, head, charge, capacity);
      assert old(deleted) + [] == old(deleted);
      ghost var list0 := list;
      var newHead: nat := head;
      var secondIteration := false;
      while usage + charge > capacity
        invariant Valid() && head == old(head) < |list| == |list0|
        invariant deleted == old(deleted) + EvictedBy(list0, head, calls)
        invariant AtPoint(list0, head, calls, list, newHead, secondIteration)
        invariant newHead < |list| && calls < 2 * |list|
        invariant NoRoomBefore(list0, head, calls, charge, capacity)
        invariant calls == 0 ==> list == old(list) && recycle == old(recycle) && usage == old(usage) &&
                                 table == old(table) && deleted == old(deleted)
        decreases 2 * |list| - calls
      {
        UsageIsTotal();
        EvictedNext(list0, head, calls, list, newHead, secondIteration, old(deleted));
        NextPoint(list0, head, calls, list, newHead, secondIteration, charge, capacity);
        var evicted := TryEvict(newHead);
        calls := calls + 1;
        newHead := if newHead + 1 >= |list| then 0 else newHead + 1;
        if newHead == head {
          if secondIteration {
            SuccessIff(list0, head, charge, capacity, false, calls, list);
            return false, calls;
          }
          secondIteration := true;
        }
      }
      PointIsSwept(list0, head, calls, list, newHead, secondIteration);
      SuccessIff(list0, head, charge, capacity, true, calls, list);
      head := newHead;
      return true, calls;
    }

    lemma UsageIsTotal()
      requires Valid()
      ensures usage == Total(list, false)
    {
    }

    /** Drops the cache's own claim on a handle; recycles it when nobody else refers to it. */
    method UnsetInCache(h: nat)
      requires h < |list| && BinOk(list, recycle)
      requires Evictable(list[h].flags) ==> usage >= list[h].charge
      modifies this`list, this`recycle, this`usage, this`deleted
      ensures list == old(list)[h := Uncached(old(list[h]))] && BinOk(list, recycle)
      ensures usage == old(usage) - if Evictable(old(list[h]).flags) then old(list[h]).charge else 0
      ensures deleted == old(deleted) +
                         if Evictable(old(list[h]).flags) then [Deleted(old(list[h]).key, old(list[h]).value)] else []
    {
      var handle := list[h];
      BinAfterUncached(list, recycle, h);
      list := list[h := handle.(flags := handle.flags.(inCache := false))];
      if handle.flags.inCache && handle.flags.refs == 0 {
        RecycleHandle(h);
        assert list == old(list)[h := Uncached(handle)];
      }
    }

    /** Stores an entry in a handle from the bin, or in a new one at the end of the list. */
    method Store(to: Handle) returns (h: nat)
      requires BinOk(list, recycle) && Live(to.flags) && (head < |list| || (list == [] && head == 0))
      modifies this`list, this`recycle
      ensures h <= |old(list)| && list == Placed(old(list), h, to) && BinOk(list, recycle)
      ensures h < |old(list)| ==> !Live(old(list)[h].flags)
      ensures head < |list|
      ensures Total(list, false) == Total(old(list), false) + Charge(to, false)
      ensures Total(list, true) == Total(old(list), true) + Charge(to, true)
    {
      hide BinOk, Total;
      if recycle != [] {
        h := recycle[|recycle| - 1];
        BinTake(list, recycle, to);
        TotalUpdate(list, h, to, false);
        TotalUpdate(list, h, to, true);
        recycle := recycle[..|recycle| - 1];
        list := list[h := to];
      } else {
        h := |list|;
        BinGrow(list, to);
        TotalAppend(list, to, false);
        TotalAppend(list, to, true);
        list := list + [to];
      }
    }

    /** `Ref` and the key check of `Lookup`: cannot fail when nobody interferes. */
    method Lookup(key: CacheKey) returns (handle: Option<nat>)
      requires Valid()
      modifies this`list, this`pinnedUsage
      ensures Valid()
      ensures handle == if key in table then Some(table[key]) else None
      ensures handle.None? ==> list == old(list)
      ensures handle.Some? ==>
                var h := handle.value; var was := old(list)[h];
                h < |old(list)| && was.key == key && list == old(list)[h := was.(flags := was.flags.(refs := was.flags.refs + 1))]
    {
      hide BinOk, Total, Charge;
      if key !in table {
        return None;
      }
      var h := table[key];
      CachedUnder(key);
      var flags := list[h].flags;
      var to := list[h].(flags := flags.(refs := flags.refs + 1));
      CountsAfterRef(h);
      ReflagKeeps(list, recycle, table, h, to.flags);
      list := list[h := to];
      if flags.refs == 0 {
        pinnedUsage := pinnedUsage + to.charge;
      }
      return Some(h);
    }

    lemma CachedUnder(key: CacheKey)
      requires Valid() && key in table
      ensures table[key] < |list| && list[table[key]].flags.inCache && list[table[key]].key == key
    {
    }

    lemma CountsAfterRef(h: nat)
      requires Valid() && h < |list| && list[h].flags.inCache
      ensures var to := list[h].(flags := list[h].flags.(refs := list[h].flags.refs + 1));
              && Total(list[h := to], false) == usage
              && Total(list[h := to], true) == pinnedUsage + if list[h].flags.refs == 0 then to.charge else 0
    {
      CountsFollow(h, list[h].(flags := list[h].flags.(refs := list[h].flags.refs + 1)));
    }

    /** The handle after its reference count dropped by one, with the usage bit possibly set first. */
    function Released(h: Handle, setUsage: bool): Handle
      requires h.flags.refs > 0
    {
      var flags := Flags(h.flags.inCache, h.flags.usage || setUsage, h.flags.refs - 1);
      if Live(flags) then h.(flags := flags) else Handle(CacheKey("", h.key.hash), None, h.charge, flags)
    }

    /** The last reference to an uncached entry retires it. */
    method Unref(h: nat, setUsage: bool) returns (erased: bool)
      requires Valid() && h < |list| && list[h].flags.refs > 0
      modifies this`list, this`recycle, this`usage, this`pinnedUsage, this`deleted
      ensures Valid() && |list| == |old(list)| && list == old(list)[h := Released(old(list)[h], setUsage)]
      // While it lives, an entry keeps everything but one reference; its usage bit is set, or stays as it was.
      ensures !erased ==> list[h] == old(list[h]).(flags := Flags(old(list[h]).flags.inCache, old(list[h]).flags.usage || setUsage,
                                                                   old(list[h]).flags.refs - 1))
      ensures erased == (old(list)[h].flags.refs == 1 && !old(list)[h].flags.inCache)
      ensures deleted == old(deleted) + if erased then [Deleted(old(list)[h].key, old(list)[h].value)] else []
    {
      var handle := list[h];
      CountsFollow(h, Released(handle, setUsage));
      hide Total, TableOk;
      var flags := handle.flags.(usage := handle.flags.usage || setUsage, refs := handle.flags.refs - 1);
      erased := false;
      if handle.flags.refs == 1 {
        pinnedUsage := pinnedUsage - handle.charge;
        if !handle.flags.inCache {
          BinPush(list, recycle, h, Released(handle, setUsage));
          TableIgnores(list, table, h, Released(handle, setUsage));
          list := list[h := handle.(flags := flags)];
          RecycleHandle(h);
          assert list == old(list)[h := Released(handle, setUsage)];
          return true;
        }
      }
      ReflagKeeps(list, recycle, table, h, flags);
      list := list[h := handle.(flags := flags)];
    }

    /** Erases whatever entry is cached under the key now. */
    method EraseAndConfirm(key: CacheKey) returns (erased: bool)
      requires Valid()
      modifies this`list, this`recycle, this`usage, this`table, this`deleted
      ensures Valid() && table == old(table) - {key}
      ensures key !in old(table) ==> !erased && list == old(list) && deleted == old(deleted)
      ensures key in old(table) ==>
                var h := old(table)[key];
                && h < |old(list)| && old(list)[h].flags.inCache && old(list)[h].key == key
                && list == old(list)[h := Uncached(old(list)[h])]
                && (!erased ==> list[h] == old(list)[h].(flags := old(list)[h].flags.(inCache := false)))
                && erased == (old(list)[h].flags.refs == 0)
                && deleted == old(deleted) + if erased then [Deleted(key, old(list)[h].value)] else []
    {
      if key !in table {
        assert table == table - {key};
        return false;
      }
      var h := table[key];
      CachedUnder(key);
      CountsFollow(h, Uncached(list[h]));
      TableForget(list, table, h, Uncached(list[h]));
      hide Total, TableOk, BinOk;
      erased := list[h].flags.refs == 0;
      table := table - {key};
      UnsetInCache(h);
    }

    /** `Release`: gives the reference back; when forced, also erases what the key maps to by then. */
    method Release(h: nat, forceErase: bool) returns (erased: bool)
      requires Valid() && h < |list| && list[h].flags.refs > 0
      modifies this`list, this`recycle, this`usage, this`pinnedUsage, this`table, this`deleted
      ensures Valid()
      ensures var dropped := old(list)[h := Released(old(list)[h], true)];
              var last := old(list)[h].flags.refs == 1 && !old(list)[h].flags.inCache;
              var key := dropped[h].key;
              if forceErase && !last && key in old(table)
              then
                && old(table)[key] < |dropped|
                && list == dropped[old(table)[key] := Uncached(dropped[old(table)[key]])]
                && table == old(table) - {key} && erased == Evictable(dropped[old(table)[key]].flags)
                && deleted == old(deleted) + if erased then [Deleted(key, dropped[old(table)[key]].value)] else []
              else
                && list == dropped && table == old(table) && erased == last
                && deleted == old(deleted) + if last then [Deleted(old(list)[h].key, old(list)[h].value)] else []
      // Whoever is released has been used, and so survives the next round of the clock hand.
      ensures |list| == |old(list)|
      ensures old(list[h]).flags.inCache && !forceErase ==> list[h].flags == Flags(true, true, old(list[h]).flags.refs - 1)
      ensures old(list[h]).flags.inCache && !forceErase ==>
                head < |list| && forall calls :: 0 <= calls <= |list| ==> SweptList(list, head, calls)[h].flags.inCache
    {
      hide SweptList;
      erased := Unref(h, true);
      if forceErase && !erased {
        hide BinOk, TableOk, Total;
        ghost var key := list[h].key;
        erased := EraseAndConfirm(list[h].key);
        assert key !in old(table) ==> table == old(table);
      } else if !erased {
        UsedSurvives(h);
      }
    }

    /** A handle whose usage bit is set is not evicted by one round. */
    lemma UsedSurvives(h: nat)
      requires head < |list| && h < |list| && list[h].flags.usage
      ensures forall calls :: 0 <= calls <= |list| ==> SweptList(list, head, calls)[h].flags.inCache == list[h].flags.inCache
    {
      forall calls | 0 <= calls <= |list|
        ensures SweptList(list, head, calls)[h].flags.inCache == list[h].flags.inCache
      {
        SecondChance(list, head, calls, h);
      }
    }

    /** Clears the table and takes every handle out of the cache. */
    method EraseUnRefEntries()
      requires Valid()
      modifies this`list, this`recycle, this`usage, this`table, this`deleted
      ensures Valid() && table == map[] && |list| == |old(list)|
      ensures forall i :: 0 <= i < |list| ==> list[i] == Uncached(old(list)[i])
      // Referenced entries keep everything but the mark that they are cached.
      ensures forall i :: 0 <= i < |list| && old(list)[i].flags.refs > 0 ==>
                list[i] == old(list)[i].(flags := old(list)[i].flags.(inCache := false))
      ensures usage == pinnedUsage
      ensures deleted == old(deleted) + AllDisplaced(old(list), |list|)
    {
      hide BinOk, Total, TableOk, AllDisplaced, Displaced, Uncached;
      NoneDisplaced(list);
      table := map[];
      for i := 0 to |list|
        invariant |list| == |old(list)| && (head < |list| || (list == [] && head == 0))
        invariant BinOk(list, recycle) && CountsOk() && table == map[]
        invariant forall j :: 0 <= j < i ==> list[j] == Uncached(old(list)[j])
        invariant forall j :: i <= j < |list| ==> list[j] == old(list)[j]
        invariant deleted == old(deleted) + AllDisplaced(old(list), i)
      {
        OneMoreDisplaced(old(deleted), old(list), i);
        CountsFollow(i, Uncached(list[i]));
        UncachedCharges(list[i]);
        UnsetInCache(i);
      }
      NothingCached(list, old(list));
      ReferencedAreKept(list, old(list));
      LiveIsPinned(list);
    }

    method SetCapacity(newCapacity: nat) returns (ghost success: bool, ghost calls: nat)
      requires Valid()
      modifies this`capacity, this`list, this`recycle, this`usage, this`table, this`deleted, this`head
      ensures Valid() && capacity == newCapacity && (old(usage) > 0 || calls > 0 ==> old(head) < |old(list)|)
      ensures RoomMade(old(list), old(head), old(usage), 0, capacity, success, calls, list)
      ensures success <==> pinnedUsage + SparedCharge(old(list), old(head)) <= capacity
      ensures deleted == old(deleted) + if calls == 0 then [] else EvictedBy(old(list), old(head), calls)
      ensures usage > capacity ==> forall i :: 0 <= i < |list| ==> !Evictable(list[i].flags)
    {
      hide BinOk, TableOk, Total, SweptList, NoRoomBefore, HandAfter, EvictedBy, SparedCharge;
      capacity := newCapacity;
      ghost var list0 := list;
      var ok, examined := EvictFromCache(0);
      success, calls := ok, examined;
      if old(usage) > 0 && !success { FailedSweep(list0, old(head), old(usage), 0, capacity, calls, list); }
    }

    /** The handle that cached the key so far is let go; the counters are off by the newcomer's charge. */
    method Displace(key: CacheKey, h: nat)
      requires BinOk(list, recycle) && h < |list|
      requires key in table ==> table[key] < |list| && table[key] != h && list[table[key]].flags.inCache
      requires key in table && Evictable(list[table[key]].flags) ==> usage >= list[table[key]].charge
      modifies this`list, this`recycle, this`usage, this`deleted, this`table
      ensures BinOk(list, recycle) && table == old(table)[key := h]
      ensures list == if key in old(table) then old(list)[old(table)[key] := Uncached(old(list)[old(table)[key]])] else old(list)
      ensures usage == old(usage) - if key in old(table) && Evictable(old(list)[old(table)[key]].flags)
                                    then old(list)[old(table)[key]].charge else 0
      ensures deleted == old(deleted) + if key in old(table) then Displaced(old(list)[old(table)[key]]) else []
    {
      hide BinOk;
      if key in table {
        var existing := table[key];
        table := table - {key};
        UnsetInCache(existing);
      }
      table := table[key := h];
      assert table == old(table)[key := h];
    }

    /** Fills a handle with the entry and lets it take over its key. */
    method Admit(to: Handle) returns (h: nat)
      requires Valid() && to.flags.inCache
      modifies this`list, this`recycle, this`usage, this`pinnedUsage, this`deleted, this`table
      ensures Valid()
      ensures h <= |old(list)| && (h < |old(list)| ==> !Live(old(list)[h].flags))
      ensures to.key in old(table) ==> old(table)[to.key] < |old(list)| && old(table)[to.key] != h
      ensures list == Inserted(old(list), old(table), h, to) && table == old(table)[to.key := h]
      ensures usage <= old(usage) + to.charge
      ensures deleted == old(deleted) + if to.key in old(table) then Displaced(old(list)[old(table)[to.key]]) else []
    {
      hide BinOk, TableOk, Total, Charge, Inserted, Placed, Uncached;
      h := Store(to);
      TableFollows(old(list), table, h, to);
      CountsAfterDisplacing(old(list), table, h, to);
      Displace(to.key, h);
      if to.flags.refs > 0 {
        pinnedUsage := pinnedUsage + to.charge;
      }
      usage := usage + to.charge;
    }

    /**
     * Inserts an entry after making room. It is refused only when eviction failed and either the
     * limit is strict or no handle is wanted; an entry nobody wants is then deleted at once.
     */
    method Insert(key: CacheKey, value: string, charge: nat, holdReference: bool)
      returns (handle: Option<nat>, ghost success: bool, ghost calls: nat,
               ghost evicted: seq<Handle>, ghost afterEviction: map<CacheKey, nat>)
      requires Valid()
      modifies this
      ensures Valid() && capacity == old(capacity) && strictCapacityLimit == old(strictCapacityLimit)
      ensures success <==> old(pinnedUsage) + SparedCharge(old(list), old(head)) + charge <= capacity
      ensures handle.None? <==> !success && (strictCapacityLimit || !holdReference)
      ensures RoomMade(old(list), old(head), old(usage), charge, capacity, success, calls, evicted)
      ensures TableOk(evicted, afterEviction)
      ensures calls > 0 ==> old(head) < |old(list)|
      ensures var swept := old(deleted) + if calls == 0 then [] else EvictedBy(old(list), old(head), calls);
              if handle.None? then
                && list == evicted && table == afterEviction
                && deleted == swept + if holdReference then [] else [Deleted(key, Some(value))]
              else
                var h := handle.value;
                var to := Handle(key, Some(value), charge, Flags(true, false, if holdReference then 1 else 0));
                && h <= |evicted| && (h < |evicted| ==> !Live(evicted[h].flags))
                && (key in afterEviction ==> afterEviction[key] < |evicted| && afterEviction[key] != h)
                && list == Inserted(evicted, afterEviction, h, to) && table == afterEviction[key := h]
                // The entry sits in its handle; of the others only the former holder of the key has changed.
                && h < |list| && list[h] == to
                && (forall i :: 0 <= i < |evicted| && i != h && !(key in afterEviction && i == afterEviction[key]) ==> list[i] == evicted[i])
                && deleted == swept + if key in afterEviction then Displaced(evicted[afterEviction[key]]) else []
      ensures success ==> usage <= capacity
    {
      hide BinOk, TableOk, Total, Charge, Inserted, Placed, Uncached, RoomMade, HandAfter, EvictedBy, SparedCharge;
      var ok, examined := EvictFromCache(charge);
      success, calls, evicted, afterEviction := ok, examined, list, table;
      if !ok && (strictCapacityLimit || !holdReference) {
        if !holdReference {
          deleted := deleted + [Deleted(key, Some(value))];
        }
        return None, success, calls, evicted, afterEviction;
      }
      var h := Admit(Handle(key, Some(value), charge, Flags(true, false, if holdReference then 1 else 0)));
      InsertedWhere(evicted, afterEviction, h, Handle(key, Some(value), charge, Flags(true, false, if holdReference then 1 else 0)));
      return Some(h), success, calls, evicted, afterEviction;
    }
  }

  lemma CountsAfterDisplacing(list: seq<Handle>, table: map<CacheKey, nat>, h: nat, to: Handle)
    requires h <= |list| && (to.key in table ==> table[to.key] < |list| && table[to.key] != h && list[table[to.key]].flags.inCache)
    ensures var placed, now := Placed(list, h, to), Inserted(list, table, h, to);
            && Total(now, true) == Total(placed, true)
            && Total(now, false) + (if to.key in table && Evictable(list[table[to.key]].flags) then list[table[to.key]].charge else 0) ==
               Total(placed, false)
    ensures to.key in table && Evictable(list[table[to.key]].flags) ==> Total(list, false) >= list[table[to.key]].charge
  {
    if to.key in table {
      var e := table[to.key];
      TotalUpdate(list, e, list[e], false);
      TotalUpdate(Placed(list, h, to), e, Uncached(list[e]), false);
      TotalUpdate(Placed(list, h, to), e, Uncached(list[e]), true);
    }
  }
}
