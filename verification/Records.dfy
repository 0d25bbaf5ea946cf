/** Internal keys, sorted runs of versions, and the one-line meaning of a read. */
module Records {
  import opened Wrappers

  // 2^56 - 1: the sequence number occupies 56 bits of an internal key.
  const MAX_SEQUENCE: nat := 0xff_ffff_ffff_ffff

  datatype ValueType = Deletion | Value | SingleDeletion

  datatype Record = Record(key: int, sequence: nat, kind: ValueType, value: string)

  /** Internal-key order: user key ascending, then sequence number descending. */
  ghost predicate InOrder(a: Record, b: Record) {
    a.key < b.key || (a.key == b.key && a.sequence >= b.sequence)
  }

  ghost predicate Sorted(s: seq<Record>) {
    |s| > 1 ==> InOrder(s[0], s[1]) && Sorted(s[1..])
  }

  ghost predicate StrictlyInOrder(a: Record, b: Record) {
    a.key < b.key || (a.key == b.key && a.sequence > b.sequence)
  }

  ghost predicate StrictlySorted(s: seq<Record>) {
    forall i, j :: 0 <= i < j < |s| ==> StrictlyInOrder(s[i], s[j])
  }

  ghost predicate Sequenced(s: seq<Record>) {
    s != [] ==> s[0].sequence <= MAX_SEQUENCE && Sequenced(s[1..])
  }

  ghost predicate HasKey(s: seq<Record>, key: int) {
    exists i :: 0 <= i < |s| && s[i].key == key
  }

  /** The first version of `key`, in search order, that a reader at sequence `at` can see. */
  function Visible(s: seq<Record>, key: int, at: nat): Option<Record> {
    if s == [] then None
    else if s[0].key == key && s[0].sequence <= at then Some(s[0])
    else Visible(s[1..], key, at)
  }

  /** What a reader at sequence `at` gets for `key` when `s` is searched front to back. */
  function Read(s: seq<Record>, key: int, at: nat): Option<string> {
    match Visible(s, key, at)
    case Some(r) => if r.kind.Value? then Some(r.value) else None
    case None => None
  }

  /** The newest version of `key` in `s`, whatever its sequence number. */
  function Newest(s: seq<Record>, key: int): Option<Record> {
    if s == [] then None
    else if s[0].key == key then Some(s[0])
    else Newest(s[1..], key)
  }

  lemma {:induction false} VisibleAppend(a: seq<Record>, b: seq<Record>, key: int, at: nat)
    ensures Visible(a + b, key, at) ==
            if Visible(a, key, at).Some? then Visible(a, key, at) else Visible(b, key, at)
  {
    if a == [] {
      assert a + b == b;
    } else {
      assert (a + b)[1..] == a[1..] + b;
      VisibleAppend(a[1..], b, key, at);
    }
  }

  lemma {:induction false} VisibleMember(s: seq<Record>, key: int, at: nat)
    ensures Visible(s, key, at).Some? ==>
              Visible(s, key, at).value in s && Visible(s, key, at).value.key == key && Visible(s, key, at).value.sequence <= at
  {
    if s != [] { VisibleMember(s[1..], key, at); }
  }

  lemma {:induction false} VisibleOnlyIfPresent(s: seq<Record>, key: int, at: nat)
    ensures !HasKey(s, key) ==> Visible(s, key, at).None?
  {
    if s != [] {
      VisibleOnlyIfPresent(s[1..], key, at);
      if HasKey(s[1..], key) {
        var i :| 0 <= i < |s[1..]| && s[1..][i].key == key;
        assert s[i + 1].key == key;
      }
      assert s[0].key == key ==> HasKey(s, key);
    }
  }

  lemma {:induction false} NewestAppend(a: seq<Record>, b: seq<Record>, key: int)
    ensures Newest(a + b, key) == if Newest(a, key).Some? then Newest(a, key) else Newest(b, key)
  {
    if a == [] {
      assert a + b == b;
    } else {
      assert (a + b)[1..] == a[1..] + b;
      NewestAppend(a[1..], b, key);
    }
  }

  lemma {:induction false} NewestMember(s: seq<Record>, key: int)
    ensures Newest(s, key).Some? <==> HasKey(s, key)
    ensures Newest(s, key).Some? ==> Newest(s, key).value in s && Newest(s, key).value.key == key
  {
    if s != [] {
      NewestMember(s[1..], key);
      if HasKey(s, key) && s[0].key != key {
        var i :| 0 <= i < |s| && s[i].key == key;
        assert s[1..][i - 1].key == key;
      }
      if HasKey(s[1..], key) {
        var i :| 0 <= i < |s[1..]| && s[1..][i].key == key;
        assert s[i + 1].key == key;
      }
    }
  }

  lemma {:induction false} VisibleIsNewest(s: seq<Record>, key: int, at: nat)
    requires Newest(s, key).Some? ==> Newest(s, key).value.sequence <= at
    ensures Visible(s, key, at) == Newest(s, key)
  {
    if s != [] && s[0].key != key { VisibleIsNewest(s[1..], key, at); }
  }

  lemma {:induction false} SortedTail(s: seq<Record>, n: nat)
    requires Sorted(s) && Sequenced(s) && n <= |s|
    ensures Sorted(s[n..]) && Sequenced(s[n..])
  {
    if n == 0 {
      assert s[0..] == s;
    } else {
      SortedTail(s[1..], n - 1);
      assert s[1..][n - 1..] == s[n..];
    }
  }

  /** Sortedness relates any two records, not only neighbours. */
  lemma {:induction false} SortedPair(s: seq<Record>, i: nat, j: nat)
    requires Sorted(s) && i < j < |s|
    ensures InOrder(s[i], s[j])
  {
    if i > 0 {
      SortedPair(s[1..], i - 1, j - 1);
    } else if j > 1 {
      SortedPair(s[1..], 0, j - 1);
    }
  }

  /** A sorted run that starts past a key has none of it. */
  lemma KeyPassed(s: seq<Record>, key: int)
    requires Sorted(s) && (s != [] ==> key < s[0].key)
    ensures !HasKey(s, key)
  {
    forall i | 0 <= i < |s|
      ensures s[i].key != key
    {
      if i > 0 { SortedPair(s, 0, i); }
    }
  }

  lemma {:induction false} StrictIsSorted(s: seq<Record>)
    requires StrictlySorted(s)
    ensures Sorted(s)
  {
    if |s| > 1 {
      assert StrictlyInOrder(s[0], s[1]);
      forall i, j | 0 <= i < j < |s[1..]|
        ensures StrictlyInOrder(s[1..][i], s[1..][j])
      {
        assert StrictlyInOrder(s[i + 1], s[j + 1]);
      }
      StrictIsSorted(s[1..]);
    }
  }

  lemma {:induction false} SequencedAt(s: seq<Record>, i: nat)
    requires Sequenced(s) && i < |s|
    ensures s[i].sequence <= MAX_SEQUENCE
  {
    if i > 0 { SequencedAt(s[1..], i - 1); }
  }
}
