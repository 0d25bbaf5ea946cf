/** Live snapshots and the stripes they cut the sequence numbers into. */
module Snapshots {
  import opened Records

  /** The list handed to the compaction: ascending and below the sentinel. */
  ghost predicate ValidSnapshots(snapshots: seq<nat>) {
    && (forall i, j :: 0 <= i < j < |snapshots| ==> snapshots[i] <= snapshots[j])
    && (forall i :: 0 <= i < |snapshots| ==> snapshots[i] < MAX_SEQUENCE)
  }

  /** A reader is pinned to a snapshot or reads the tip. */
  ghost predicate Live(snapshots: seq<nat>, at: nat) {
    at in snapshots || at == MAX_SEQUENCE
  }

  /** The earliest live snapshot that sees sequence number `seq`. */
  function Stripe(snapshots: seq<nat>, seqno: nat): nat {
    if snapshots == [] then MAX_SEQUENCE
    else if snapshots[0] >= seqno then snapshots[0]
    else Stripe(snapshots[1..], seqno)
  }

  /** The latest snapshot that does not see `seq`; zero stands for "none". */
  function Previous(snapshots: seq<nat>, seqno: nat): nat {
    PreviousFrom(snapshots, seqno, 0)
  }

  function PreviousFrom(snapshots: seq<nat>, seqno: nat, seen: nat): nat {
    if snapshots == [] || snapshots[0] >= seqno then seen
    else PreviousFrom(snapshots[1..], seqno, snapshots[0])
  }

  /** `earliest_snapshot_`: the oldest live snapshot, or the sentinel when there is none. */
  function Earliest(snapshots: seq<nat>): nat {
    if snapshots == [] then MAX_SEQUENCE else snapshots[0]
  }

  lemma {:induction false} StripeIsLeast(snapshots: seq<nat>, seqno: nat)
    requires ValidSnapshots(snapshots) && seqno <= MAX_SEQUENCE
    ensures Live(snapshots, Stripe(snapshots, seqno))
    ensures seqno <= Stripe(snapshots, seqno) <= MAX_SEQUENCE
    ensures forall at :: Live(snapshots, at) && seqno <= at ==> Stripe(snapshots, seqno) <= at
  {
    if snapshots != [] && snapshots[0] < seqno {
      StripeIsLeast(snapshots[1..], seqno);
      forall at | Live(snapshots, at) && seqno <= at
        ensures Live(snapshots[1..], at)
      {
      }
    }
  }

  /** A live reader sees a version exactly when it sees the version's stripe. */
  lemma StripeDecidesVisibility(snapshots: seq<nat>, seqno: nat, at: nat)
    requires ValidSnapshots(snapshots) && seqno <= MAX_SEQUENCE && Live(snapshots, at)
    ensures seqno <= at <==> Stripe(snapshots, seqno) <= at
  {
    StripeIsLeast(snapshots, seqno);
  }

  lemma StripeMonotone(snapshots: seq<nat>, low: nat, high: nat)
    requires ValidSnapshots(snapshots) && low <= high <= MAX_SEQUENCE
    ensures Stripe(snapshots, low) <= Stripe(snapshots, high)
  {
    StripeIsLeast(snapshots, low);
    StripeIsLeast(snapshots, high);
  }

  lemma EarliestStripe(snapshots: seq<nat>, seqno: nat)
    requires ValidSnapshots(snapshots) && seqno <= MAX_SEQUENCE
    ensures Stripe(snapshots, seqno) >= Earliest(snapshots)
    ensures Stripe(snapshots, seqno) == Earliest(snapshots) <==> seqno <= Earliest(snapshots)
    ensures forall at :: Live(snapshots, at) ==> Earliest(snapshots) <= at
  {
    StripeIsLeast(snapshots, seqno);
  }

  lemma {:induction false} PreviousFromIsGreatest(snapshots: seq<nat>, seqno: nat, seen: nat)
    requires ValidSnapshots(snapshots) && seqno <= MAX_SEQUENCE && seen < seqno
    requires forall i :: 0 <= i < |snapshots| ==> seen <= snapshots[i]
    ensures seen <= PreviousFrom(snapshots, seqno, seen) < seqno
    ensures PreviousFrom(snapshots, seqno, seen) == seen || PreviousFrom(snapshots, seqno, seen) in snapshots
    ensures forall at :: at in snapshots && at < seqno ==> at <= PreviousFrom(snapshots, seqno, seen)
  {
    if snapshots != [] && snapshots[0] < seqno {
      PreviousFromIsGreatest(snapshots[1..], seqno, snapshots[0]);
      forall at | at in snapshots && at < seqno
        ensures at <= PreviousFrom(snapshots, seqno, seen)
      {
        assert at == snapshots[0] || at in snapshots[1..];
      }
    }
  }

  /**
   * The SingleDelete look-ahead test asks whether two versions share a stripe. It also says yes to an older version
   * at 0 under a snapshot at 0, because 0 stands for "no earlier snapshot".
   */
  lemma SameStripeTest(snapshots: seq<nat>, newer: nat, older: nat)
    requires ValidSnapshots(snapshots) && older <= newer <= MAX_SEQUENCE
    ensures (Previous(snapshots, newer) == 0 || older > Previous(snapshots, newer)) <==>
            || Stripe(snapshots, older) == Stripe(snapshots, newer)
            || (Stripe(snapshots, older) == 0 && Previous(snapshots, newer) == 0)
  {
    StripeIsLeast(snapshots, newer);
    StripeIsLeast(snapshots, older);
    if newer > 0 {
      PreviousFromIsGreatest(snapshots, newer, 0);
      var p := Previous(snapshots, newer);
      if p > 0 && older <= p {
        assert Live(snapshots, p);
        assert Stripe(snapshots, older) <= p < newer;
      }
    }
  }

  /** Two versions that pass the look-ahead test are seen by the same readers, the reader at 0 aside. */
  lemma TestedPairIsSeenTogether(snapshots: seq<nat>, newer: nat, older: nat, at: nat)
    requires ValidSnapshots(snapshots) && older <= newer <= MAX_SEQUENCE && Live(snapshots, at)
    requires Previous(snapshots, newer) == 0 || older > Previous(snapshots, newer)
    requires at > 0 || Previous(snapshots, newer) > 0 || Stripe(snapshots, older) > 0
    ensures newer <= at <==> older <= at
  {
    SameStripeTest(snapshots, newer, older);
    if newer > 0 { PreviousFromIsGreatest(snapshots, newer, 0); }
    StripeDecidesVisibility(snapshots, newer, at);
    StripeDecidesVisibility(snapshots, older, at);
    StripeIsLeast(snapshots, older);
  }
}
