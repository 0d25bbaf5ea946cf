/** The chained hash table of the LRU cache, proved to be a finite map through every pointer update. */
module LruHandleTables {
  import opened Wrappers
  import opened LruHandles

  predicate PowerOfTwo(n: nat) {
    n == 1 || (n > 1 && n % 2 == 0 && PowerOfTwo(n / 2))
  }

  /** Bitwise conjunction. */
  function BitAnd(a: nat, b: nat): nat {
    if b == 0 then 0 else 2 * BitAnd(a / 2, b / 2) + (a % 2) * (b % 2)
  }

  lemma HalfRemainder(h: nat, m: nat)
    requires m > 0
    ensures 2 * ((h / 2) % m) + h % 2 == h % (2 * m)
  {
    var q, r := (h / 2) / m, (h / 2) % m;
    assert h == (2 * m) * q + (2 * r + h % 2);
    RemainderIs(h, 2 * m, q, 2 * r + h % 2);
  }

  lemma RemainderIs(h: nat, n: nat, q: nat, r: nat)
    requires n > 0 && h == n * q + r && r < n
    ensures h % n == r
  {
    DivisionIsUnique(n, q, r, h / n, h % n);
  }

  lemma LargerProduct(n: nat, p: nat, q: nat)
    requires p < q
    ensures n * p + n <= n * q
  {
    var d := q - p - 1;
    assert n * q == n * p + n + n * d;
  }

  lemma DivisionIsUnique(n: nat, q: nat, r: nat, p: nat, t: nat)
    requires n * q + r == n * p + t && r < n && t < n
    ensures q == p && r == t
  {
    if q > p {
      LargerProduct(n, p, q);
    } else if q < p {
      LargerProduct(n, q, p);
    }
  }

  /** The mask picks the bucket that the remainder names. */
  lemma {:induction false} MaskIsRemainder(h: nat, n: nat)
    requires PowerOfTwo(n)
    ensures BitAnd(h, n - 1) == h % n
  {
    if n > 1 {
      var m := n / 2;
      MaskIsRemainder(h / 2, m);
      assert (n - 1) / 2 == m - 1 && (n - 1) % 2 == 1;
      HalfRemainder(h, m);
    }
  }

  function At(c: seq<LRUHandle>, i: nat): LRUHandle? {
    if i < |c| then c[i] else null
  }

  /** Following `nextHash` from `head` passes exactly the handles of `c`, in order, and ends. */
  ghost predicate Linked(head: LRUHandle?, c: seq<LRUHandle>)
    reads c`nextHash
  {
    head == At(c, 0) && forall i :: 0 <= i < |c| ==> c[i].nextHash == At(c, i + 1)
  }

  ghost predicate Within(chains: seq<seq<LRUHandle>>, nodes: set<LRUHandle>) {
    forall b, i :: 0 <= b < |chains| && 0 <= i < |chains[b]| ==> chains[b][i] in nodes
  }

  ghost predicate AllLinked(heads: seq<LRUHandle?>, chains: seq<seq<LRUHandle>>, nodes: set<LRUHandle>)
    reads nodes`nextHash
  {
    Within(chains, nodes) && |heads| == |chains| && forall b :: 0 <= b < |chains| ==> Linked(heads[b], chains[b])
  }

  /** A chain holds, once each, exactly the entries of its bucket. */
  ghost predicate ChainOf(c: seq<LRUHandle>, bucket: nat, length: nat, entries: map<Slot, LRUHandle>)
    requires length > 0
  {
    && Distinct(c)
    && (forall h :: h in c ==> h.hash % length == bucket && h.Place() in entries && entries[h.Place()] == h)
    && (forall s :: s in entries && s.hash % length == bucket ==> entries[s] in c && entries[s].Place() == s)
  }

  ghost predicate ChainsOf(chains: seq<seq<LRUHandle>>, entries: map<Slot, LRUHandle>) {
    && (|chains| == 0 ==> entries == map[])
    && forall b :: 0 <= b < |chains| ==> ChainOf(chains[b], b, |chains|, entries)
  }

  /** The handles a table holds. */
  ghost predicate NodesOf(nodes: set<LRUHandle>, entries: map<Slot, LRUHandle>) {
    nodes == entries.Values
  }

  lemma ChainsAreWithin(chains: seq<seq<LRUHandle>>, entries: map<Slot, LRUHandle>, nodes: set<LRUHandle>)
    requires ChainsOf(chains, entries) && NodesOf(nodes, entries)
    ensures Within(chains, nodes)
  {
    forall b, i | 0 <= b < |chains| && 0 <= i < |chains[b]| ensures chains[b][i] in nodes {
      assert ChainOf(chains[b], b, |chains|, entries);
      assert chains[b][i] in chains[b];
    }
  }

  lemma ChainsAreDisjoint(chains: seq<seq<LRUHandle>>, entries: map<Slot, LRUHandle>, b: nat, d: nat, h: LRUHandle)
    requires ChainsOf(chains, entries) && b < |chains| && d < |chains| && b != d && h in chains[b]
    ensures h !in chains[d]
  {
    assert ChainOf(chains[b], b, |chains|, entries) && ChainOf(chains[d], d, |chains|, entries);
  }

  lemma NodesCount(nodes: set<LRUHandle>, entries: map<Slot, LRUHandle>)
    requires NodesOf(nodes, entries) && forall s :: s in entries ==> entries[s].Place() == s
    ensures |nodes| == |entries|
  {
    ValuesCount(entries);
  }

  lemma {:induction false} ValuesCount(entries: map<Slot, LRUHandle>)
    requires forall s :: s in entries ==> entries[s].Place() == s
    ensures |entries.Values| == |entries|
    decreases |entries|
  {
    if entries != map[] {
      var s :| s in entries;
      var rest := entries - {s};
      assert entries.Keys == rest.Keys + {s};
      ValuesCount(rest);
      assert entries.Values == rest.Values + {entries[s]} by {
        forall h | h in entries.Values ensures h in rest.Values || h == entries[s] {
          var r :| r in entries && entries[r] == h;
          if r != s { assert r in rest && rest[r] == h; }
        }
      }
      assert entries[s] !in rest.Values;
    }
  }

  /** Replacing the entry of the same place in its chain. */
  lemma ReplaceInChains(chains: seq<seq<LRUHandle>>, entries: map<Slot, LRUHandle>, h: LRUHandle, b: nat, i: nat)
    requires ChainsOf(chains, entries) && h !in entries.Values
    requires b < |chains| && h.hash % |chains| == b && i < |chains[b]| && chains[b][i].Place() == h.Place()
    ensures ChainsOf(chains[b := chains[b][i := h]], entries[h.Place() := h])
  {
    var now := entries[h.Place() := h];
    var c := chains[b][i := h];
    var after := chains[b := c];
    forall d | 0 <= d < |chains| ensures ChainOf(after[d], d, |chains|, now) {
      assert ChainOf(chains[d], d, |chains|, entries);
      if d == b {
        assert ChainOf(c, b, |chains|, now) by { ReplaceInChain(chains[b], entries, h, b, |chains|, i); }
      } else {
        assert after[d] == chains[d];
      }
    }
  }

  lemma ReplaceInChain(c: seq<LRUHandle>, entries: map<Slot, LRUHandle>, h: LRUHandle, b: nat, length: nat, i: nat)
    requires length > 0 && ChainOf(c, b, length, entries) && h !in entries.Values
    requires h.hash % length == b && i < |c| && c[i].Place() == h.Place()
    ensures ChainOf(c[i := h], b, length, entries[h.Place() := h])
  {
    var now, r := entries[h.Place() := h], c[i := h];
    assert r[i] == h;
    forall k | 0 <= k < |c| ensures c[k] in entries.Values {
      assert c[k] in c;
    }
    forall s | s in now && s.hash % length == b ensures now[s] in r {
      if s != h.Place() {
        var k :| 0 <= k < |c| && c[k] == entries[s];
        assert c[k] in c && r[k] == c[k];
      }
    }
  }

  /** Appending a new place to its chain. */
  lemma AppendToChains(chains: seq<seq<LRUHandle>>, entries: map<Slot, LRUHandle>, h: LRUHandle, b: nat)
    requires ChainsOf(chains, entries) && h !in entries.Values && h.Place() !in entries
    requires b < |chains| && h.hash % |chains| == b
    ensures ChainsOf(chains[b := chains[b] + [h]], entries[h.Place() := h])
  {
    var now := entries[h.Place() := h];
    var after := chains[b := chains[b] + [h]];
    forall d | 0 <= d < |chains| ensures ChainOf(after[d], d, |chains|, now) {
      assert ChainOf(chains[d], d, |chains|, entries);
      if d == b {
        assert ChainOf(chains[b] + [h], b, |chains|, now) by {
          forall k | 0 <= k < |chains[b]| ensures chains[b][k] in entries.Values {
            assert chains[b][k] in chains[b];
          }
        }
      } else {
        assert after[d] == chains[d];
      }
    }
  }

  function Without<T>(c: seq<T>, i: nat): seq<T>
    requires i < |c|
  {
    c[..i] + c[i + 1..]
  }

  lemma WithoutAt<T>(c: seq<T>, i: nat)
    requires i < |c|
    ensures |Without(c, i)| == |c| - 1
    ensures forall k :: 0 <= k < |c| - 1 ==> Without(c, i)[k] == c[if k < i then k else k + 1]
  {
  }

  lemma WithoutNext(c: seq<LRUHandle>, i: nat, k: nat)
    requires i < |c| && k < |c| - 1
    ensures At(Without(c, i), k + 1) == At(c, if k + 1 < i then k + 1 else k + 2)
  {
    WithoutAt(c, i);
  }

  lemma HeadWithout(c: seq<LRUHandle>, i: nat)
    requires i < |c|
    ensures At(Without(c, i), 0) == if i == 0 then At(c, 1) else At(c, 0)
  {
    WithoutAt(c, i);
  }

  /** Unlinking the entry of a place. */
  lemma DropFromChains(chains: seq<seq<LRUHandle>>, entries: map<Slot, LRUHandle>, b: nat, i: nat)
    requires ChainsOf(chains, entries) && b < |chains| && i < |chains[b]|
    ensures ChainsOf(chains[b := Without(chains[b], i)], entries - {chains[b][i].Place()})
  {
    var h := chains[b][i];
    var now := entries - {h.Place()};
    var r := Without(chains[b], i);
    assert ChainOf(chains[b], b, |chains|, entries) && h in chains[b];
    var after := chains[b := r];
    forall d | 0 <= d < |chains| ensures ChainOf(after[d], d, |chains|, now) {
      assert ChainOf(chains[d], d, |chains|, entries);
      if d == b {
        DropFromChain(chains[b], entries, b, |chains|, i);
      } else {
        assert after[d] == chains[d];
      }
    }
  }

  lemma DropFromChain(c: seq<LRUHandle>, entries: map<Slot, LRUHandle>, b: nat, length: nat, i: nat)
    requires length > 0 && ChainOf(c, b, length, entries) && i < |c|
    ensures ChainOf(Without(c, i), b, length, entries - {c[i].Place()})
  {
    var h, r := c[i], Without(c, i);
    var now := entries - {h.Place()};
    assert h in c;
    forall g | g in r ensures g in c && g != h {
      var k :| 0 <= k < |r| && r[k] == g;
      assert g == if k < i then c[k] else c[k + 1];
    }
    forall s | s in now && s.hash % length == b ensures now[s] in r {
      var k :| 0 <= k < |c| && c[k] == entries[s];
      assert k != i;
      assert r[if k < i then k else k - 1] == c[k];
    }
  }

  /** Where a search along a chain stops says whether the place is taken. */
  lemma SearchAnswers(c: seq<LRUHandle>, b: nat, length: nat, entries: map<Slot, LRUHandle>, s: Slot, i: nat)
    requires length > 0 && ChainOf(c, b, length, entries) && s.hash % length == b && i <= |c|
    requires forall k :: 0 <= k < i ==> c[k].Place() != s
    requires i < |c| ==> c[i].Place() == s
    ensures i < |c| <==> s in entries
    ensures i < |c| ==> c[i] == entries[s]
  {
    if i < |c| { assert c[i] in c; }
    if s in entries { var k :| 0 <= k < |c| && c[k] == entries[s]; }
  }

  function Placed(c: seq<LRUHandle>, i: nat, h: LRUHandle): seq<LRUHandle>
    requires i <= |c|
  {
    if i == |c| then c + [h] else c[i := h]
  }

  lemma PlacedAt(c: seq<LRUHandle>, i: nat, h: LRUHandle)
    requires i <= |c|
    ensures |Placed(c, i, h)| == if i == |c| then i + 1 else |c|
    ensures forall k :: 0 <= k < |Placed(c, i, h)| ==> Placed(c, i, h)[k] == if k == i then h else c[k]
  {
  }

  lemma InsertKeepsChains(chains: seq<seq<LRUHandle>>, entries: map<Slot, LRUHandle>, h: LRUHandle, b: nat, i: nat)
    requires ChainsOf(chains, entries) && h !in entries.Values
    requires b < |chains| && h.hash % |chains| == b && i <= |chains[b]|
    requires if h.Place() in entries then i < |chains[b]| && chains[b][i] == entries[h.Place()] else i == |chains[b]|
    ensures ChainsOf(chains[b := Placed(chains[b], i, h)], entries[h.Place() := h])
  {
    if i < |chains[b]| {
      assert ChainOf(chains[b], b, |chains|, entries) && chains[b][i] in chains[b];
      ReplaceInChains(chains, entries, h, b, i);
    } else {
      AppendToChains(chains, entries, h, b);
    }
  }

  // ---- resizing ----

  /** The new chains hold exactly the handles moved so far, each in its new bucket. */
  ghost predicate Moved(newChains: seq<seq<LRUHandle>>, done: set<LRUHandle>) {
    && |newChains| > 0
    && (forall d :: 0 <= d < |newChains| ==> Distinct(newChains[d]))
    && (forall d, h :: 0 <= d < |newChains| && h in newChains[d] ==> h in done && h.hash % |newChains| == d)
    && (forall h :: h in done ==> h in newChains[h.hash % |newChains|])
  }

  function Pushed(chains: seq<seq<LRUHandle>>, h: LRUHandle): seq<seq<LRUHandle>>
    requires |chains| > 0
  {
    var d := h.hash % |chains|;
    chains[d := [h] + chains[d]]
  }

  lemma SixteenIsPowerOfTwo()
    ensures PowerOfTwo(16)
  {
    assert PowerOfTwo(2) && PowerOfTwo(4) && PowerOfTwo(8);
  }

  lemma DoublePowerOfTwo(n: nat)
    requires PowerOfTwo(n)
    ensures PowerOfTwo(n * 2)
  {
    assert n * 2 / 2 == n;
  }

  lemma NothingMoved(heads: seq<LRUHandle?>, newChains: seq<seq<LRUHandle>>, nodes: set<LRUHandle>)
    requires |heads| == |newChains| > 0
    requires forall d :: 0 <= d < |heads| ==> heads[d] == null && newChains[d] == []
    ensures AllLinked(heads, newChains, nodes) && Moved(newChains, {})
  {
  }

  /** Every entry has one position in the old table. */
  lemma MovesOnce(chains: seq<seq<LRUHandle>>, entries: map<Slot, LRUHandle>, i: nat, j: nat)
    requires ChainsOf(chains, entries) && i < |chains| && j < |chains[i]|
    ensures forall d, k :: 0 <= d < |chains| && 0 <= k < |chains[d]| && chains[d][k] == chains[i][j] ==> d == i && k == j
  {
    forall d, k | 0 <= d < |chains| && 0 <= k < |chains[d]| && chains[d][k] == chains[i][j] ensures d == i && k == j {
      assert chains[i][j] in chains[i] && chains[d][k] in chains[d];
      assert ChainOf(chains[i], i, |chains|, entries) && ChainOf(chains[d], d, |chains|, entries);
    }
  }

  lemma PushedIsMoved(newChains: seq<seq<LRUHandle>>, done: set<LRUHandle>, h: LRUHandle)
    requires Moved(newChains, done) && h !in done
    ensures Moved(Pushed(newChains, h), done + {h})
    ensures forall d :: 0 <= d < |newChains| ==> h !in newChains[d]
  {
    var d := h.hash % |newChains|;
    var r := Pushed(newChains, h);
    assert r[d] == [h] + newChains[d];
    forall x | x in done + {h} ensures x in r[x.hash % |r|] {
      if x != h { assert x in newChains[x.hash % |r|]; }
    }
  }

  lemma EveryPlaceIsItsOwn(chains: seq<seq<LRUHandle>>, entries: map<Slot, LRUHandle>)
    requires ChainsOf(chains, entries)
    ensures forall s :: s in entries ==> entries[s].Place() == s
  {
    forall s | s in entries ensures entries[s].Place() == s {
      assert ChainOf(chains[s.hash % |chains|], s.hash % |chains|, |chains|, entries);
    }
  }

  lemma MovedIsChains(newChains: seq<seq<LRUHandle>>, entries: map<Slot, LRUHandle>, nodes: set<LRUHandle>)
    requires Moved(newChains, nodes) && NodesOf(nodes, entries) && forall s :: s in entries ==> entries[s].Place() == s
    ensures ChainsOf(newChains, entries)
  {
    forall d | 0 <= d < |newChains| ensures ChainOf(newChains[d], d, |newChains|, entries) {
      forall h | h in newChains[d] ensures h.Place() in entries && entries[h.Place()] == h {
        assert h in entries.Values;
      }
      forall s | s in entries && s.hash % |newChains| == d ensures entries[s] in newChains[d] {
        assert entries[s] in entries.Values;
      }
    }
  }

  lemma WithinMore(chains: seq<seq<LRUHandle>>, nodes: set<LRUHandle>, more: set<LRUHandle>)
    requires Within(chains, nodes) && nodes <= more
    ensures Within(chains, more)
  {
  }

  lemma SmallerFrame(heads: seq<LRUHandle?>, chains: seq<seq<LRUHandle>>, nodes: set<LRUHandle>, fewer: set<LRUHandle>)
    requires AllLinked(heads, chains, nodes) && Within(chains, fewer)
    ensures AllLinked(heads, chains, fewer)
  {
  }

  lemma NodesWith(nodes: set<LRUHandle>, entries: map<Slot, LRUHandle>, h: LRUHandle)
    requires NodesOf(nodes, entries) && forall s :: s in entries ==> entries[s].Place() == s
    ensures NodesOf((if h.Place() in entries then nodes - {entries[h.Place()]} else nodes) + {h}, entries[h.Place() := h])
  {
    var now := entries[h.Place() := h];
    forall x | x in nodes && x.Place() != h.Place() ensures x in now.Values {
      var s :| s in entries && entries[s] == x;
      assert s in now && now[s] == x;
    }
    assert h.Place() in now;
  }

  lemma NodesWithout(nodes: set<LRUHandle>, entries: map<Slot, LRUHandle>, s: Slot)
    requires NodesOf(nodes, entries) && s in entries && forall r :: r in entries ==> entries[r].Place() == r
    ensures NodesOf(nodes - {entries[s]}, entries - {s})
    ensures |entries - {s}| == |entries| - 1
  {
    var now := entries - {s};
    assert now[s := entries[s]] == entries;
    forall x | x in nodes && x != entries[s] ensures x in now.Values {
      var r :| r in entries && entries[r] == x;
      assert r in now && now[r] == x;
    }
  }

  /** `LRUHandle**`: a bucket of the table, or the `nextHash` of an entry. */
  datatype Pointer = Bucket(index: nat) | NextOf(h: LRUHandle)

  class LRUHandleTable {
    var length: nat
    var elems: nat
    var list: array<LRUHandle?>
    ghost var entries: map<Slot, LRUHandle>
    ghost var nodes: set<LRUHandle>
    ghost var chains: seq<seq<LRUHandle>>

    /** The buckets and links spell out `chains`, which hold exactly `entries`. */
    ghost predicate Chained()
      reads this, list, nodes`nextHash
    {
      && list.Length == length == |chains|
      && elems == |entries|
      && NodesOf(nodes, entries)
      && ChainsOf(chains, entries)
      && AllLinked(list[..], chains, nodes)
    }

    ghost predicate Valid()
      reads this, list, nodes`nextHash
    {
      Chained() && PowerOfTwo(length) && length >= 16 && elems <= length
    }

    ghost predicate Points(ptr: Pointer, b: nat, i: nat)
      requires b < |chains| && i <= |chains[b]|
      reads this
    {
      ptr == if i == 0 then Bucket(b) else NextOf(chains[b][i - 1])
    }

    /** `*ptr` */
    function Deref(ptr: Pointer): LRUHandle?
      requires ptr.Bucket? ==> ptr.index < list.Length
      reads this, list, (if ptr.NextOf? then {ptr.h} else {})`nextHash
    {
      if ptr.Bucket? then list[ptr.index] else ptr.h.nextHash
    }

    /** The handles of the table are its entries, each at its own place. */
    lemma NodeHasEntry(h: LRUHandle)
      requires Valid() && h in nodes
      ensures h.Place() in entries && entries[h.Place()] == h
    {
      hide ChainsOf, AllLinked, PowerOfTwo;
      EveryPlaceIsItsOwn(chains, entries);
      var s :| s in entries && entries[s] == h;
    }

    lemma EntryIsNode(s: Slot)
      requires Valid() && s in entries
      ensures entries[s] in nodes && entries[s].Place() == s
    {
      hide ChainsOf, AllLinked, PowerOfTwo;
      EveryPlaceIsItsOwn(chains, entries);
    }

    /** What `Valid` says of one bucket. */
    lemma ChainAt(b: nat)
      requires Chained() && b < length
      ensures b < |chains| && |chains| == length == list.Length
      ensures Linked(list[b], chains[b]) && ChainOf(chains[b], b, length, entries)
    {
      assert Linked(list[..][b], chains[b]);
    }

    method FindPointer(key: Key, hash: nat) returns (ptr: Pointer, ghost b: nat, ghost i: nat)
      requires Valid()
      ensures b < |chains| && b == hash % |chains| && i <= |chains[b]| && Points(ptr, b, i)
      ensures ptr.Bucket? ==> ptr.index < list.Length
      ensures Deref(ptr) == At(chains[b], i)
      ensures Slot(key, hash) in entries ==> i < |chains[b]| && Deref(ptr) == entries[Slot(key, hash)]
      ensures Slot(key, hash) !in entries ==> i == |chains[b]| && Deref(ptr) == null
    {
      var mask := BitAnd(hash, length - 1);
      assert mask == hash % length by { MaskIsRemainder(hash, length); }
      assert Chained();
      hide LRUHandleTable.Valid, LRUHandleTable.Chained, ChainsOf, ChainOf, AllLinked, Within, Distinct, BitAnd,
           PowerOfTwo;
      ptr := Bucket(mask);
      b, i := mask, 0;
      ChainAt(b);
      ghost var c := chains[b];
      while Deref(ptr) != null && (Deref(ptr).hash != hash || key != Deref(ptr).key)
        invariant ptr.Bucket? ==> ptr.index < list.Length
        invariant i <= |c| && Points(ptr, b, i) && Deref(ptr) == At(c, i)
        invariant forall k :: 0 <= k < i ==> c[k].Place() != Slot(key, hash)
        decreases |c| - i
      {
        ptr := NextOf(Deref(ptr));
        i := i + 1;
      }
      SearchAnswers(c, b, length, entries, Slot(key, hash), i);
    }

    method Lookup(key: Key, hash: nat) returns (r: LRUHandle?)
      requires Valid()
      ensures r == if Slot(key, hash) in entries then entries[Slot(key, hash)] else null
    {
      var ptr, _, _ := FindPointer(key, hash);
      r := Deref(ptr);
    }

    /** `*ptr = h` */
    method Store(ptr: Pointer, h: LRUHandle?)
      requires ptr.Bucket? ==> ptr.index < list.Length
      modifies list, (if ptr.NextOf? then {ptr.h} else {})`nextHash
      ensures list[..] == if ptr.Bucket? then old(list[..])[ptr.index := h] else old(list[..])
      ensures ptr.NextOf? ==> ptr.h.nextHash == h
    {
      match ptr
      case Bucket(index) => list[index] := h;
      case NextOf(p) => p.nextHash := h;
    }

    /** The other chains stay clear of what an update behind position `i` of chain `b` touches. */
    ghost predicate Apart(b: nat, i: nat, h: LRUHandle)
      requires b < |chains| && i <= |chains[b]|
      reads this
    {
      forall d :: 0 <= d < |chains| && d != b ==> h !in chains[d] && (i == 0 || chains[b][i - 1] !in chains[d])
    }

    /** What linking `h` in at a search's end leads to, before any pointer is written. */
    lemma InsertionPoint(b: nat, i: nat, h: LRUHandle)
      requires ChainsOf(chains, entries) && NodesOf(nodes, entries) && h !in nodes
      requires b < |chains| && h.hash % |chains| == b && i <= |chains[b]|
      requires if h.Place() in entries then i < |chains[b]| && chains[b][i] == entries[h.Place()] else i == |chains[b]|
      ensures h !in chains[b] && Distinct(chains[b]) && Apart(b, i, h)
      ensures i > 0 ==> chains[b][i - 1] in nodes
      ensures ChainsOf(chains[b := Placed(chains[b], i, h)], entries[h.Place() := h])
      ensures NodesOf(NodesAfter(h), entries[h.Place() := h])
      ensures Within(chains[b := Placed(chains[b], i, h)], NodesAfter(h)) && NodesAfter(h) <= nodes + {h}
    {
      forall d, x | 0 <= d < |chains| && x in chains[d] ensures x in nodes {
        assert ChainOf(chains[d], d, |chains|, entries);
      }
      assert ChainOf(chains[b], b, |chains|, entries);
      if i > 0 {
        assert chains[b][i - 1] in chains[b];
        forall d | 0 <= d < |chains| && d != b ensures chains[b][i - 1] !in chains[d] {
          ChainsAreDisjoint(chains, entries, b, d, chains[b][i - 1]);
        }
      }
      EveryPlaceIsItsOwn(chains, entries);
      NodesWith(nodes, entries, h);
      InsertKeepsChains(chains, entries, h, b, i);
      ChainsAreWithin(chains[b := Placed(chains[b], i, h)], entries[h.Place() := h], NodesAfter(h));
    }

    ghost function NodesAfter(h: LRUHandle): set<LRUHandle>
      reads this
    {
      (if h.Place() in entries then nodes - {entries[h.Place()]} else nodes) + {h}
    }

    /** What unlinking the entry at a search's end leads to, before any pointer is written. */
    lemma RemovalPoint(b: nat, i: nat, s: Slot)
      requires ChainsOf(chains, entries) && NodesOf(nodes, entries) && b < |chains| && i < |chains[b]|
      requires s in entries && entries[s] == chains[b][i]
      ensures Distinct(chains[b]) && Apart(b, i, chains[b][i])
      ensures i > 0 ==> chains[b][i - 1] in nodes
      ensures ChainsOf(chains[b := Without(chains[b], i)], entries - {s})
      ensures NodesOf(nodes - {entries[s]}, entries - {s}) && |entries - {s}| == |entries| - 1
      ensures Within(chains[b := Without(chains[b], i)], nodes - {entries[s]})
    {
      assert ChainOf(chains[b], b, |chains|, entries);
      assert chains[b][i] in chains[b];
      if i > 0 { assert chains[b][i - 1] in chains[b]; }
      forall d | 0 <= d < |chains| && d != b
        ensures chains[b][i] !in chains[d] && (i == 0 || chains[b][i - 1] !in chains[d])
      {
        ChainsAreDisjoint(chains, entries, b, d, chains[b][i]);
        if i > 0 { ChainsAreDisjoint(chains, entries, b, d, chains[b][i - 1]); }
      }
      EveryPlaceIsItsOwn(chains, entries);
      NodesWithout(nodes, entries, s);
      DropFromChains(chains, entries, b, i);
      ChainsAreWithin(chains[b := Without(chains[b], i)], entries - {s}, nodes - {entries[s]});
    }

    /** The pointer writes that put `h` at position `i` of a chain. */
    method Splice(ptr: Pointer, ghost b: nat, ghost i: nat, ghost c: seq<LRUHandle>, h: LRUHandle) returns (former: LRUHandle?)
      requires b < list.Length && i <= |c| && ptr == if i == 0 then Bucket(b) else NextOf(c[i - 1])
      requires Linked(list[b], c) && Distinct(c) && h !in c
      modifies list, (if ptr.NextOf? then {ptr.h} else {})`nextHash, h`nextHash
      ensures former == At(c, i)
      ensures list[..] == old(list[..])[b := list[b]] && Linked(list[b], Placed(c, i, h))
    {
      former := Deref(ptr);
      h.nextHash := if former == null then null else former.nextHash;
      Store(ptr, h);
      ghost var r := Placed(c, i, h);
      PlacedAt(c, i, h);
      hide Placed;
      forall k | 0 <= k < |r| ensures r[k].nextHash == At(r, k + 1) {
        if k != i { assert r[k] == c[k]; }
      }
    }

    /** `h` takes the position where the search stopped: behind the chain, or instead of the entry found. */
    method LinkIn(ptr: Pointer, ghost b: nat, ghost i: nat, h: LRUHandle) returns (former: LRUHandle?)
      requires b < |chains| == list.Length && i <= |chains[b]| && Points(ptr, b, i)
      requires AllLinked(list[..], chains, nodes) && Distinct(chains[b]) && h !in chains[b] && Apart(b, i, h)
      requires Within(chains[b := Placed(chains[b], i, h)], nodes + {h})
      modifies list, (if ptr.NextOf? then {ptr.h} else {})`nextHash, h`nextHash
      ensures former == At(chains[b], i)
      ensures AllLinked(list[..], chains[b := Placed(chains[b], i, h)], nodes + {h})
    {
      hide Placed, Within, Distinct, Linked;
      assert Linked(list[..][b], chains[b]);
      former := Splice(ptr, b, i, chains[b], h);
      forall d | 0 <= d < |chains| && d != b ensures Linked(list[..][d], chains[d]) {
        assert old(Linked(list[..][d], chains[d]));
      }
    }

    lemma StandsAt(ptr: Pointer, b: nat, i: nat, c: seq<LRUHandle>)
      requires b < list.Length && i < |c| && ptr == if i == 0 then Bucket(b) else NextOf(c[i - 1])
      requires Linked(list[b], c)
      ensures Deref(ptr) == c[i] && c[i].nextHash == At(c, i + 1)
    {
    }

    /** The pointer write that takes position `i` out of a chain. */
    method Unsplice(ptr: Pointer, ghost b: nat, ghost i: nat, ghost c: seq<LRUHandle>)
      requires b < list.Length && i < |c| && ptr == if i == 0 then Bucket(b) else NextOf(c[i - 1])
      requires Linked(list[b], c) && Distinct(c)
      modifies list, (if ptr.NextOf? then {ptr.h} else {})`nextHash
      ensures list[..] == old(list[..])[b := list[b]] && Linked(list[b], Without(c, i))
    {
      ghost var r := Without(c, i);
      WithoutAt(c, i);
      assert i > 0 ==> forall k :: 0 <= k < |c| && k != i - 1 ==> c[k] != c[i - 1];
      hide Without, Distinct, At;
      assert Deref(ptr) == c[i] && c[i].nextHash == At(c, i + 1) by { StandsAt(ptr, b, i, c); }
      Store(ptr, Deref(ptr).nextHash);
      forall k | 0 <= k < |r| ensures r[k].nextHash == At(r, k + 1) {
        WithoutNext(c, i, k);
        assert r[k] == c[if k < i then k else k + 1];
      }
      HeadWithout(c, i);
    }

    /** The entry where the search stopped leaves its chain. */
    method LinkOut(ptr: Pointer, ghost b: nat, ghost i: nat)
      requires b < |chains| == list.Length && i < |chains[b]| && Points(ptr, b, i)
      requires AllLinked(list[..], chains, nodes) && Distinct(chains[b]) && Apart(b, i, chains[b][i])
      modifies list, (if ptr.NextOf? then {ptr.h} else {})`nextHash
      ensures AllLinked(list[..], chains[b := Without(chains[b], i)], nodes)
    {
      WithinWithout(b, i);
      hide Without, Within, Distinct, Linked;
      assert Linked(list[..][b], chains[b]);
      Unsplice(ptr, b, i, chains[b]);
      forall d | 0 <= d < |chains| && d != b ensures Linked(list[..][d], chains[d]) {
        assert old(Linked(list[..][d], chains[d]));
      }
    }

    lemma WithinWithout(b: nat, i: nat)
      requires Within(chains, nodes) && b < |chains| && i < |chains[b]|
      ensures Within(chains[b := Without(chains[b], i)], nodes)
    {
    }

    /** The links already spell out the new chains; record what they hold. */
    ghost method Describe(after: seq<seq<LRUHandle>>, all: map<Slot, LRUHandle>, rest: set<LRUHandle>)
      requires list.Length == length == |after| && elems == |all| && NodesOf(rest, all) && ChainsOf(after, all)
      requires AllLinked(list[..], after, rest)
      modifies this`chains, this`entries, this`nodes
      ensures Chained() && entries == all && nodes == rest
    {
      chains, entries, nodes := after, all, rest;
    }

    /** `h` enters where a search ended; the table may be too full now. */
    method PutIn(ptr: Pointer, ghost b: nat, ghost i: nat, h: LRUHandle) returns (former: LRUHandle?)
      requires Valid() && h !in nodes && b < |chains| && h.hash % |chains| == b && i <= |chains[b]| && Points(ptr, b, i)
      requires if h.Place() in entries then i < |chains[b]| && chains[b][i] == entries[h.Place()] else i == |chains[b]|
      modifies this, list, nodes`nextHash, h`nextHash
      ensures Chained() && list == old(list) && length == old(length)
      ensures entries == old(entries)[h.Place() := h] && nodes == old(NodesAfter(h))
      ensures former == if h.Place() in old(entries) then old(entries)[h.Place()] else null
    {
      hide NodesOf, ChainsOf, ChainOf, Distinct, PowerOfTwo, AllLinked, Within, Linked, Placed, LRUHandleTable.Apart;
      InsertionPoint(b, i, h);
      WithinMore(chains[b := Placed(chains[b], i, h)], NodesAfter(h), nodes + {h});
      former := LinkIn(ptr, b, i, h);
      ghost var after, all := chains[b := Placed(chains[b], i, h)], entries[h.Place() := h];
      ghost var rest := NodesAfter(h);
      SmallerFrame(list[..], after, nodes + {h}, rest);
      if former == null {
        elems := elems + 1;
      }
      Describe(after, all, rest);
    }

    /** The entry of `h`'s place becomes `h`; the one it displaces, if any, is returned. */
    method Insert(h: LRUHandle) returns (former: LRUHandle?)
      requires Valid() && h !in nodes
      modifies this, list, nodes`nextHash, h`nextHash
      ensures Valid() && (list == old(list) || fresh(list))
      ensures entries == old(entries)[h.Place() := h]
      ensures nodes == old(nodes) - (if former == null then {} else {former}) + {h}
      ensures former == if h.Place() in old(entries) then old(entries)[h.Place()] else null
    {
      var ptr, b, i := FindPointer(h.key, h.hash);
      hide LRUHandleTable.Chained, LRUHandleTable.Points, PowerOfTwo;
      former := PutIn(ptr, b, i, h);
      if former == null && elems > length {
        Resize();
      }
    }

    /** The entry that a search found leaves the table. */
    method TakeOut(ptr: Pointer, ghost b: nat, ghost i: nat, ghost s: Slot)
      requires Valid() && s in entries && b < |chains| && i < |chains[b]| && entries[s] == chains[b][i] && Points(ptr, b, i)
      modifies this, list, nodes`nextHash
      ensures Valid() && list == old(list)
      ensures entries == old(entries) - {s} && nodes == old(nodes) - {old(entries)[s]}
    {
      hide NodesOf, ChainsOf, ChainOf, Distinct, PowerOfTwo, AllLinked, Within, Linked, Without, LRUHandleTable.Apart;
      RemovalPoint(b, i, s);
      ghost var after, fewer, rest := chains[b := Without(chains[b], i)], entries - {s}, nodes - {entries[s]};
      LinkOut(ptr, b, i);
      SmallerFrame(list[..], after, nodes, rest);
      elems := elems - 1;
      Describe(after, fewer, rest);
    }

    /** The entry of a place, if any, leaves the table. */
    method Remove(key: Key, hash: nat) returns (result: LRUHandle?)
      requires Valid()
      modifies this, list, nodes`nextHash
      ensures Valid() && list == old(list)
      ensures entries == old(entries) - {Slot(key, hash)}
      ensures nodes == old(nodes) - (if result == null then {} else {result})
      ensures result == if Slot(key, hash) in old(entries) then old(entries)[Slot(key, hash)] else null
    {
      var ptr, b, i := FindPointer(key, hash);
      result := Deref(ptr);
      if result != null {
        TakeOut(ptr, b, i, Slot(key, hash));
      } else {
        assert entries - {Slot(key, hash)} == entries;
      }
    }

    // ---- resizing ----

    /** Of the old table, the entries before position `j` of chain `i` are in `done`; the rest is still linked. */
    ghost predicate Pending(i: nat, j: nat, done: set<LRUHandle>)
      reads this, list, nodes`nextHash
    {
      && Within(chains, nodes)
      && list.Length == |chains| && done <= nodes
      && (forall d :: 0 <= d < |chains| ==> list[d] == At(chains[d], 0))
      && (forall d, k :: 0 <= d < |chains| && 0 <= k < |chains[d]| ==> (chains[d][k] in done <==> d < i || (d == i && k < j)))
      && (forall d, k :: 0 <= d < |chains| && 0 <= k < |chains[d]| && chains[d][k] !in done ==> chains[d][k].nextHash == At(chains[d], k + 1))
    }

    lemma NothingPending()
      requires Chained()
      ensures Pending(0, 0, {})
    {
      forall d | 0 <= d < |chains| ensures Linked(list[d], chains[d]) {
        assert Linked(list[..][d], chains[d]);
      }
    }

    lemma PendingHead(i: nat, done: set<LRUHandle>)
      requires i < |chains| && Pending(i, 0, done)
      ensures i < list.Length && list[i] == At(chains[i], 0)
    {
    }

    lemma PendingNext(i: nat, j: nat, done: set<LRUHandle>)
      requires i < |chains| && j < |chains[i]| && Pending(i, j, done)
      ensures chains[i][j] in nodes && chains[i][j] !in done
      ensures chains[i][j].nextHash == At(chains[i], j + 1)
    {
    }

    lemma RowDone(i: nat, done: set<LRUHandle>)
      requires i < |chains| && Pending(i, |chains[i]|, done)
      ensures Pending(i + 1, 0, done)
    {
    }

    lemma TableDone(done: set<LRUHandle>)
      requires ChainsOf(chains, entries) && NodesOf(nodes, entries) && Pending(|chains|, 0, done)
      ensures done == nodes
    {
      forall h | h in nodes ensures h in done {
        var s :| s in entries && entries[s] == h;
        var d := s.hash % |chains|;
        assert ChainOf(chains[d], d, |chains|, entries);
        var k :| 0 <= k < |chains[d]| && chains[d][k] == h;
      }
    }

    /** `h` goes to the front of its chain in the new table. */
    static method PushFront(h: LRUHandle, newList: array<LRUHandle?>, ghost newChains: seq<seq<LRUHandle>>, ghost nodes: set<LRUHandle>)
      requires PowerOfTwo(newList.Length) && |newChains| == newList.Length
      requires AllLinked(newList[..], newChains, nodes)
      requires h in nodes && forall d :: 0 <= d < |newChains| ==> h !in newChains[d]
      modifies newList, h`nextHash
      ensures AllLinked(newList[..], Pushed(newChains, h), nodes)
    {
      var mask := BitAnd(h.hash, newList.Length - 1);
      assert mask == h.hash % newList.Length by { MaskIsRemainder(h.hash, newList.Length); }
      hide BitAnd, PowerOfTwo;
      h.nextHash := newList[mask];
      newList[mask] := h;
      forall d | 0 <= d < |newChains| ensures Linked(newList[..][d], Pushed(newChains, h)[d]) {
        assert old(Linked(newList[..][d], newChains[d]));
      }
    }

    /** The next unmoved entry of the old table moves to the new one. */
    method Rehash(h: LRUHandle, newList: array<LRUHandle?>, ghost newChains: seq<seq<LRUHandle>>,
                  ghost i: nat, ghost j: nat, ghost done: set<LRUHandle>)
      requires ChainsOf(chains, entries) && Pending(i, j, done)
      requires i < |chains| && j < |chains[i]| && h == chains[i][j]
      requires newList != list && PowerOfTwo(newList.Length) && |newChains| == newList.Length
      requires AllLinked(newList[..], newChains, nodes) && Moved(newChains, done)
      modifies newList, h`nextHash
      ensures Pending(i, j + 1, done + {h}) && Moved(Pushed(newChains, h), done + {h})
      ensures |Pushed(newChains, h)| == |newChains| && AllLinked(newList[..], Pushed(newChains, h), nodes)
    {
      assert |Pushed(newChains, h)| == |newChains|;
      hide PowerOfTwo, ChainsOf, Moved, AllLinked, Within, Pushed;
      MovesOnce(chains, entries, i, j);
      PendingNext(i, j, done);
      PushedIsMoved(newChains, done, h);
      PushFront(h, newList, newChains, nodes);
    }

    /** All entries of one old chain move. */
    method MoveChain(i: nat, newList: array<LRUHandle?>, ghost newChains: seq<seq<LRUHandle>>, ghost done: set<LRUHandle>)
      returns (moved: nat, ghost chains': seq<seq<LRUHandle>>, ghost done': set<LRUHandle>)
      requires ChainsOf(chains, entries) && Pending(i, 0, done) && i < |chains|
      requires newList != list && PowerOfTwo(newList.Length) && |newChains| == newList.Length > 0 && i < list.Length
      requires AllLinked(newList[..], newChains, nodes) && Moved(newChains, done)
      modifies newList, nodes`nextHash
      ensures Pending(i + 1, 0, done') && moved == |done'| - |done|
      ensures |chains'| == |newChains| && AllLinked(newList[..], chains', nodes) && Moved(chains', done')
    {
      hide ChainsOf, PowerOfTwo, Linked, AllLinked, Within, Moved, LRUHandleTable.Pending, Pushed;
      moved, chains', done' := 0, newChains, done;
      PendingHead(i, done);
      var h := list[i];
      ghost var j := 0;
      while h != null
        invariant j <= |chains[i]| && h == At(chains[i], j)
        invariant |chains'| == |newChains| && moved == |done'| - |done|
        invariant AllLinked(newList[..], chains', nodes) && Moved(chains', done') && Pending(i, j, done')
        decreases |chains[i]| - j
      {
        PendingNext(i, j, done');
        var next := h.nextHash;
        Rehash(h, newList, chains', i, j, done');
        chains', done' := Pushed(chains', h), done' + {h};
        h := next;
        j := j + 1;
        moved := moved + 1;
      }
      RowDone(i, done');
    }

    /** All entries move, each once; `count` says how many. */
    method MoveAll(newList: array<LRUHandle?>) returns (count: nat, ghost newChains: seq<seq<LRUHandle>>)
      requires Chained() && newList != list && PowerOfTwo(newList.Length) && newList.Length > 0
      requires forall d :: 0 <= d < newList.Length ==> newList[d] == null
      modifies newList, nodes`nextHash
      ensures |newChains| == newList.Length && count == elems
      ensures AllLinked(newList[..], newChains, nodes) && ChainsOf(newChains, entries)
    {
      hide NodesOf, ChainsOf, ChainOf, PowerOfTwo, Linked, AllLinked, Within, Moved, LRUHandleTable.Pending;
      NothingPending();
      EveryPlaceIsItsOwn(chains, entries);
      NodesCount(nodes, entries);
      newChains := seq(newList.Length, _ => []);
      ghost var done: set<LRUHandle> := {};
      count := 0;
      NothingMoved(newList[..], newChains, nodes);
      for i := 0 to length
        invariant |newChains| == newList.Length && count == |done|
        invariant AllLinked(newList[..], newChains, nodes) && Moved(newChains, done) && Pending(i, 0, done)
      {
        var moved;
        moved, newChains, done := MoveChain(i, newList, newChains, done);
        count := count + moved;
      }
      TableDone(done);
      MovedIsChains(newChains, entries, nodes);
    }

    /** The table keeps its entries, each exactly once, and has room for half as many again. */
    method Resize()
      requires Chained()
      modifies this, nodes`nextHash
      ensures Valid() && fresh(list) && entries == old(entries) && nodes == old(nodes)
      ensures 3 * elems <= 2 * length
    {
      hide NodesOf, ChainsOf, ChainOf, PowerOfTwo, Linked, AllLinked, Within;
      var newLength := 16;
      SixteenIsPowerOfTwo();
      while 2 * newLength < 3 * elems
        invariant PowerOfTwo(newLength) && newLength >= 16
        modifies {}
      {
        DoublePowerOfTwo(newLength);
        newLength := newLength * 2;
      }
      var newList := new LRUHandle?[newLength](_ => null);
      var count, newChains := MoveAll(newList);
      assert elems == count;
      list, length := newList, newLength;
      Describe(newChains, entries, nodes);
    }

    constructor ()
      ensures Valid() && entries == map[] && nodes == {} && fresh(list)
    {
      length, elems, entries, nodes, chains := 0, 0, map[], {}, [];
      list := new LRUHandle?[0](_ => null);
      new;
      Resize();
    }
  }
}
