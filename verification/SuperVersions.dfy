/**
 * Thread-local caching of SuperVersions as a transition system: one step per atomic operation on a
 * thread-local slot or reference count, or per section run under the database mutex.
 * A SuperVersion is named by its version number; zero means none has been installed.
 */
module SuperVersions {
  import opened Counting

  /** What a thread-local slot holds: `kSVInUse`, `kSVObsolete`, or a cached SuperVersion. */
  datatype Slot = InUse | Obsolete | Cached(sv: nat)

  /** What a thread does once it has given up a reference. */
  datatype Goal = Acquire | Finish

  datatype Pc =
    | Idle
    | Swapped(found: Slot)            // swapped kSVInUse in, not yet compared version numbers
    | Dropping(sv: nat, goal: Goal)   // about to Unref
    | Cleaning(sv: nat, goal: Goal)   // its Unref returned true; needs the mutex to Cleanup
    | Acquiring                       // about to lock the mutex and Ref the current one
    | Using(sv: nat)                  // GetThreadLocalSuperVersion has returned
    | Doubled(sv: nat)                // GetReferencedSuperVersion has taken the caller's reference
    | Surplus(sv: nat)                // its Return failed: one of the two references must go

  /** The installer holds the mutex in every phase but `Free`. */
  datatype Phase =
    | Free
    | Scraping(at: nat, former: nat, found: seq<nat>)
    | Releasing(pending: seq<nat>)
    | Disposing(sv: nat, pending: seq<nat>)

  /** `number` is both `super_version_number_` and the SuperVersion installed last. */
  datatype State = State(number: nat, refs: seq<nat>, slots: seq<Slot>, pcs: seq<Pc>, phase: Phase,
                         clients: multiset<nat>, cleaned: multiset<nat>)

  datatype Action =
    | Swap(t: nat) | Check(t: nat) | Unref(t: nat) | Clean(t: nat) | AcquireCurrent(t: nat)
    | Ref(t: nat) | Return(t: nat) | DropSurplus(t: nat) | ClientRelease(t: nat, sv: nat)
    | Install | Scrape | EndScrape | InstallerUnref | InstallerClean | EndInstall

  ghost predicate Init(s: State) {
    && s.number == 0 && s.refs == [0]
    && |s.slots| == |s.pcs| && s.phase == Free
    && (forall t :: 0 <= t < |s.slots| ==> s.slots[t] == Obsolete)
    && (forall t :: 0 <= t < |s.pcs| ==> s.pcs[t] == Idle)
    && s.clients == multiset{} && s.cleaned == multiset{}
  }

  // ---- steps ----

  predicate Enabled(s: State, a: Action) {
    match a
    case Swap(t) => t < |s.pcs| && s.pcs[t].Idle?
    case Check(t) => t < |s.pcs| && s.pcs[t].Swapped?
    case Unref(t) => t < |s.pcs| && s.pcs[t].Dropping?
    case Clean(t) => t < |s.pcs| && s.pcs[t].Cleaning? && s.phase.Free?
    case AcquireCurrent(t) => t < |s.pcs| && s.pcs[t].Acquiring? && s.phase.Free? && s.number > 0
    case Ref(t) => t < |s.pcs| && s.pcs[t].Using?
    case Return(t) => t < |s.pcs| && (s.pcs[t].Using? || s.pcs[t].Doubled?)
    case DropSurplus(t) => t < |s.pcs| && s.pcs[t].Surplus?
    case ClientRelease(t, sv) => t < |s.pcs| && s.pcs[t].Idle? && sv in s.clients
    case Install => s.phase.Free?
    case Scrape => s.phase.Scraping? && s.phase.at < |s.slots|
    case EndScrape => s.phase.Scraping? && s.phase.at >= |s.slots|
    case InstallerUnref => s.phase.Releasing? && s.phase.pending != []
    case InstallerClean => s.phase.Disposing?
    case EndInstall => s.phase.Releasing? && s.phase.pending == []
  }

  function Decremented(refs: seq<nat>, sv: nat): seq<nat>
    requires sv < |refs| && refs[sv] > 0
  {
    refs[sv := refs[sv] - 1]
  }

  function Incremented(refs: seq<nat>, sv: nat): seq<nat>
    requires sv < |refs|
  {
    refs[sv := refs[sv] + 1]
  }

  function At(s: State, t: nat, pc: Pc): State
    requires t < |s.pcs|
  {
    s.(pcs := s.pcs[t := pc])
  }

  function Onward(goal: Goal): Pc {
    if goal == Acquire then Acquiring else Idle
  }

  /** The assertions of the source that a step executes, and the accesses it makes. */
  predicate Safe(s: State, a: Action)
    requires Enabled(s, a)
  {
    match a
    case Swap(t) => t < |s.slots| && s.slots[t] != InUse
    case Check(t) => !s.pcs[t].found.InUse?
    case Unref(t) => s.pcs[t].sv < |s.refs| && s.refs[s.pcs[t].sv] > 0
    case Clean(t) =>
      && s.pcs[t].sv < |s.refs| && s.refs[s.pcs[t].sv] == 0 && s.pcs[t].sv !in s.cleaned
      && s.number < |s.refs| && (s.pcs[t].goal == Acquire ==> s.number > 0)
    case AcquireCurrent(t) => s.number < |s.refs| && s.refs[s.number] > 0
    case Ref(t) => s.pcs[t].sv < |s.refs| && s.refs[s.pcs[t].sv] > 0
    case Return(t) => t < |s.slots| && (s.slots[t] == InUse || s.slots[t] == Obsolete)
    case DropSurplus(t) => s.pcs[t].sv < |s.refs| && s.refs[s.pcs[t].sv] > 1
    case InstallerUnref => s.phase.pending[0] < |s.refs| && s.refs[s.phase.pending[0]] > 0
    case InstallerClean => s.phase.sv < |s.refs| && s.refs[s.phase.sv] == 0 && s.phase.sv !in s.cleaned
    case _ => true
  }

  function Step(s: State, a: Action): State
    requires Enabled(s, a) && Safe(s, a)
  {
    match a
    case Swap(t) => At(s, t, Swapped(s.slots[t])).(slots := s.slots[t := InUse])
    case Check(t) =>
      var found := s.pcs[t].found;
      At(s, t, if found.Obsolete? then Acquiring else if found.sv != s.number then Dropping(found.sv, Acquire) else Using(found.sv))
    case Unref(t) =>
      var sv, goal := s.pcs[t].sv, s.pcs[t].goal;
      At(s, t, if s.refs[sv] == 1 then Cleaning(sv, goal) else Onward(goal)).(refs := Decremented(s.refs, sv))
    case Clean(t) =>
      var sv, goal := s.pcs[t].sv, s.pcs[t].goal;
      if goal == Acquire
      then At(s, t, Using(s.number)).(cleaned := s.cleaned + multiset{sv}, refs := Incremented(s.refs, s.number))
      else At(s, t, Idle).(cleaned := s.cleaned + multiset{sv})
    case AcquireCurrent(t) => At(s, t, Using(s.number)).(refs := Incremented(s.refs, s.number))
    case Ref(t) => At(s, t, Doubled(s.pcs[t].sv)).(refs := Incremented(s.refs, s.pcs[t].sv))
    case Return(t) =>
      var pc := s.pcs[t];
      if s.slots[t] == InUse then
        At(s, t, Idle).(slots := s.slots[t := Cached(pc.sv)],
                        clients := if pc.Doubled? then s.clients + multiset{pc.sv} else s.clients)
      else At(s, t, if pc.Doubled? then Surplus(pc.sv) else Dropping(pc.sv, Finish))
    case DropSurplus(t) =>
      var sv := s.pcs[t].sv;
      At(s, t, Idle).(refs := Decremented(s.refs, sv), clients := s.clients + multiset{sv})
    case ClientRelease(t, sv) => At(s, t, Dropping(sv, Finish)).(clients := s.clients - multiset{sv})
    case Install => s.(number := s.number + 1, refs := s.refs + [1], phase := Scraping(0, s.number, []))
    case Scrape =>
      var slot := s.slots[s.phase.at];
      s.(slots := s.slots[s.phase.at := Obsolete],
         phase := Scraping(s.phase.at + 1, s.phase.former, if slot.Cached? then s.phase.found + [slot.sv] else s.phase.found))
    case EndScrape => s.(phase := Releasing(if s.phase.former > 0 then s.phase.found + [s.phase.former] else s.phase.found))
    case InstallerUnref =>
      var sv, rest := s.phase.pending[0], s.phase.pending[1..];
      s.(refs := Decremented(s.refs, sv), phase := if s.refs[sv] == 1 then Disposing(sv, rest) else Releasing(rest))
    case InstallerClean => s.(cleaned := s.cleaned + multiset{s.phase.sv}, phase := Releasing(s.phase.pending))
    case EndInstall => s.(phase := Free)
  }

  // ---- who holds references ----

  /** References the threads hold on their stacks. */
  ghost function InFlight(pcs: seq<Pc>, sv: nat): nat {
    Count(pcs, Swapped(Cached(sv))) + Count(pcs, Dropping(sv, Acquire)) + Count(pcs, Dropping(sv, Finish)) +
    Count(pcs, Using(sv)) + 2 * Count(pcs, Doubled(sv)) + 2 * Count(pcs, Surplus(sv))
  }

  /** References the installer still has to give up: scraped ones and that of the previous SuperVersion. */
  ghost function WithInstaller(phase: Phase, sv: nat): nat {
    match phase
    case Free => 0
    case Scraping(_, former, found) => Count(found, sv) + if former == sv then 1 else 0
    case Releasing(pending) => Count(pending, sv)
    case Disposing(_, pending) => Count(pending, sv)
  }

  ghost function Holders(s: State, sv: nat): nat {
    (if s.number == sv then 1 else 0) + Count(s.slots, Cached(sv)) + InFlight(s.pcs, sv) +
    WithInstaller(s.phase, sv) + s.clients[sv]
  }

  /** Agents whose Unref returned true and who have yet to run Cleanup. */
  ghost function Cleaners(s: State, sv: nat): nat {
    ThreadCleaners(s.pcs, sv) + if s.phase.Disposing? && s.phase.sv == sv then 1 else 0
  }

  /** The count is exact, and a count of zero has exactly one cleanup, done or owed. */
  ghost predicate Counted(s: State, sv: nat)
    requires |s.refs| == s.number + 1 && 0 < sv <= s.number
  {
    && s.refs[sv] == Holders(s, sv)
    && s.cleaned[sv] + Cleaners(s, sv) == if s.refs[sv] == 0 then 1 else 0
  }

  /** Between Swap and Return the slot is marked, or was scraped; otherwise it is not marked. */
  predicate Inside(pc: Pc) {
    || pc.Swapped? || pc.Acquiring? || pc.Using? || pc.Doubled?
    || ((pc.Dropping? || pc.Cleaning?) && pc.goal == Acquire)
  }

  predicate Named(pc: Pc, number: nat) {
    match pc
    case Idle => true
    case Acquiring => true
    case Swapped(found) => !found.InUse? && (found.Cached? ==> 0 < found.sv <= number)
    case Dropping(sv, _) => 0 < sv <= number
    case Cleaning(sv, _) => 0 < sv <= number
    case Using(sv) => 0 < sv <= number
    case Doubled(sv) => 0 < sv <= number
    case Surplus(sv) => 0 < sv <= number
  }

  ghost predicate ThreadOk(s: State, t: nat)
    requires t < |s.pcs| == |s.slots|
  {
    && Named(s.pcs[t], s.number)
    && (Inside(s.pcs[t]) ==> !s.slots[t].Cached?)
    && (!Inside(s.pcs[t]) ==> !s.slots[t].InUse?)
    && (s.slots[t].Cached? ==> 0 < s.slots[t].sv <= s.number)
  }

  ghost predicate PhaseOk(s: State) {
    match s.phase
    case Free => true
    case Scraping(at, former, found) =>
      at <= |s.slots| && former + 1 == s.number && forall i :: 0 <= i < |found| ==> 0 < found[i] <= s.number
    case Releasing(pending) => s.number > 0 && forall i :: 0 <= i < |pending| ==> 0 < pending[i] <= s.number
    case Disposing(sv, pending) =>
      0 < sv <= s.number && forall i :: 0 <= i < |pending| ==> 0 < pending[i] <= s.number
  }

  /** No installation still has to scrape this slot. */
  predicate Settled(s: State, t: nat) {
    s.phase.Scraping? ==> t < s.phase.at
  }

  /** A settled slot caches the current SuperVersion, or is marked by a thread that uses the current one. */
  ghost predicate FreshAt(s: State, t: nat)
    requires t < |s.pcs| == |s.slots|
  {
    Settled(s, t) ==>
      && (s.slots[t].Cached? ==> s.slots[t].sv == s.number)
      && (s.slots[t].InUse? && (s.pcs[t].Using? || s.pcs[t].Doubled?) ==> s.pcs[t].sv == s.number)
      && (s.slots[t].InUse? && s.pcs[t].Swapped? && s.pcs[t].found.Cached? ==> s.pcs[t].found.sv == s.number)
  }

  ghost predicate Inv(s: State) {
    && |s.refs| == s.number + 1 && |s.pcs| == |s.slots|
    && PhaseOk(s)
    && (forall sv :: sv in s.clients || sv in s.cleaned ==> 0 < sv <= s.number)
    && (forall sv :: 0 < sv <= s.number ==> Counted(s, sv))
    && (forall t :: 0 <= t < |s.pcs| ==> ThreadOk(s, t))
    && (forall t :: 0 <= t < |s.pcs| ==> FreshAt(s, t))
  }

  // ---- every step keeps the invariant ----

  ghost function Weight(pc: Pc, sv: nat): nat {
    if pc == Swapped(Cached(sv)) || pc == Dropping(sv, Acquire) || pc == Dropping(sv, Finish) || pc == Using(sv) then 1
    else if pc == Doubled(sv) || pc == Surplus(sv) then 2
    else 0
  }

  ghost function CleanWeight(pc: Pc, sv: nat): nat {
    if pc == Cleaning(sv, Acquire) || pc == Cleaning(sv, Finish) then 1 else 0
  }

  ghost function ThreadCleaners(pcs: seq<Pc>, sv: nat): nat {
    Count(pcs, Cleaning(sv, Acquire)) + Count(pcs, Cleaning(sv, Finish))
  }

  lemma ThreadMoves(pcs: seq<Pc>, t: nat, pc: Pc, sv: nat)
    requires t < |pcs|
    ensures InFlight(pcs[t := pc], sv) == InFlight(pcs, sv) - Weight(pcs[t], sv) + Weight(pc, sv)
    ensures ThreadCleaners(pcs[t := pc], sv) == ThreadCleaners(pcs, sv) - CleanWeight(pcs[t], sv) + CleanWeight(pc, sv)
    ensures InFlight(pcs, sv) >= Weight(pcs[t], sv) && ThreadCleaners(pcs, sv) >= CleanWeight(pcs[t], sv)
  {
    hide Count;
    CountMoves(pcs, t, pc, Swapped(Cached(sv)));
    CountMoves(pcs, t, pc, Dropping(sv, Acquire));
    CountMoves(pcs, t, pc, Dropping(sv, Finish));
    CountMoves(pcs, t, pc, Using(sv));
    CountMoves(pcs, t, pc, Doubled(sv));
    CountMoves(pcs, t, pc, Surplus(sv));
    CountMoves(pcs, t, pc, Cleaning(sv, Acquire));
    CountMoves(pcs, t, pc, Cleaning(sv, Finish));
  }

  /** A step of one thread, given what it does to the counts of each SuperVersion. */
  lemma ThreadStepSafe(s: State, t: nat)
    requires Inv(s) && t < |s.pcs|
    ensures |s.refs| == s.number + 1 && |s.pcs| == |s.slots|
    ensures ThreadOk(s, t) && FreshAt(s, t)
    ensures forall sv :: 0 < sv <= s.number ==> s.refs[sv] >= Weight(s.pcs[t], sv)
    ensures forall sv :: 0 < sv <= s.number && CleanWeight(s.pcs[t], sv) > 0 ==> s.refs[sv] == 0 && s.cleaned[sv] == 0
  {
    forall sv | 0 < sv <= s.number
      ensures s.refs[sv] >= Weight(s.pcs[t], sv)
      ensures CleanWeight(s.pcs[t], sv) > 0 ==> s.refs[sv] == 0 && s.cleaned[sv] == 0
    {
      assert Counted(s, sv);
      ThreadMoves(s.pcs, t, Idle, sv);
    }
  }

  lemma ThreadStepsAreSafe(s: State, a: Action)
    requires Inv(s) && Enabled(s, a) && ByThread(a)
    ensures Safe(s, a)
  {
    hide Inv, Counted, FreshAt, PhaseOk, InFlight, Holders, Cleaners;
    ThreadStepSafe(s, a.t);
    if s.number > 0 { CurrentIsReferenced(s); }
    var pc := s.pcs[a.t];
    assert pc.Dropping? || pc.Using? ==> Weight(pc, pc.sv) == 1;
    assert pc.Doubled? || pc.Surplus? ==> Weight(pc, pc.sv) == 2;
    assert pc.Cleaning? ==> CleanWeight(pc, pc.sv) == 1;
  }

  lemma InstallerStepsAreSafe(s: State, a: Action)
    requires Inv(s) && Enabled(s, a) && !ByThread(a)
    ensures Safe(s, a)
  {
    hide ThreadOk, FreshAt, InFlight;
    match a
    case InstallerUnref =>
      assert Counted(s, s.phase.pending[0]);
      assert s.phase.pending[0] in multiset(s.phase.pending);
    case InstallerClean => assert Counted(s, s.phase.sv);
    case _ =>
  }

  /** No assertion of the source can fail in a reachable state. */
  lemma EnabledStepsAreSafe(s: State, a: Action)
    requires Inv(s) && Enabled(s, a)
    ensures Safe(s, a)
  {
    hide Inv, Safe, Enabled;
    if ByThread(a) { ThreadStepsAreSafe(s, a); } else { InstallerStepsAreSafe(s, a); }
  }

  /** The current SuperVersion is never at zero. */
  lemma CurrentIsReferenced(s: State)
    requires Inv(s) && s.number > 0
    ensures s.refs[s.number] > 0
  {
    assert Counted(s, s.number);
  }

  ghost predicate ByThread(a: Action) {
    a.Swap? || a.Check? || a.Unref? || a.Clean? || a.AcquireCurrent? || a.Ref? || a.Return? || a.DropSurplus? || a.ClientRelease?
  }

  function SlotWeight(slot: Slot, sv: nat): nat {
    if slot == Cached(sv) then 1 else 0
  }

  predicate SameShape(s: State, s': State) {
    |s.pcs| == |s.slots| == |s'.pcs| == |s'.slots| && |s.refs| == s.number + 1 == |s'.refs| && s'.number == s.number
  }

  /** A thread moved from one pc and slot to another; everything else about the threads stayed. */
  ghost predicate Moved(s: State, s': State, t: nat) {
    && SameShape(s, s') && t < |s.pcs| && s'.phase == s.phase
    && s'.pcs == s.pcs[t := s'.pcs[t]]
    && s'.slots == s.slots[t := s'.slots[t]]
  }

  /** The change in a count matches the change in what the mover, its slot and the clients hold. */
  ghost predicate Balanced(s: State, s': State, t: nat, sv: nat)
    requires SameShape(s, s') && t < |s.pcs| && 0 < sv <= s.number
  {
    && s'.refs[sv] + Weight(s.pcs[t], sv) + SlotWeight(s.slots[t], sv) + s.clients[sv] ==
       s.refs[sv] + Weight(s'.pcs[t], sv) + SlotWeight(s'.slots[t], sv) + s'.clients[sv]
    && s'.cleaned[sv] + CleanWeight(s'.pcs[t], sv) + (if s.refs[sv] == 0 then 1 else 0) ==
       s.cleaned[sv] + CleanWeight(s.pcs[t], sv) + (if s'.refs[sv] == 0 then 1 else 0)
  }

  lemma BalancedKeepsCount(s: State, s': State, t: nat, sv: nat)
    requires Moved(s, s', t) && 0 < sv <= s.number && Counted(s, sv) && Balanced(s, s', t, sv)
    ensures Counted(s', sv)
  {
    hide Count, InFlight, ThreadCleaners, Weight, CleanWeight;
    ThreadMoves(s.pcs, t, s'.pcs[t], sv);
    CountMoves(s.slots, t, s'.slots[t], Cached(sv));
  }

  lemma TakingMoves(s: State, a: Action)
    requires Inv(s) && Enabled(s, a) && Safe(s, a)
    requires a.Swap? || a.Check? || a.AcquireCurrent? || a.Ref?
    ensures Moved(s, Step(s, a), a.t)
  {
    hide Counted, PhaseOk, InFlight, Holders, Cleaners, ThreadOk, FreshAt;
    var s' := Step(s, a);
    assert s'.pcs == s.pcs[a.t := s'.pcs[a.t]];
    assert s'.slots == s.slots[a.t := s'.slots[a.t]];
  }

  lemma DroppingMoves(s: State, a: Action)
    requires Inv(s) && Enabled(s, a) && Safe(s, a)
    requires a.Unref? || a.Clean? || a.DropSurplus?
    ensures Moved(s, Step(s, a), a.t)
  {
    hide Counted, PhaseOk, InFlight, Holders, Cleaners, ThreadOk, FreshAt;
    var s' := Step(s, a);
    assert s'.pcs == s.pcs[a.t := s'.pcs[a.t]];
    assert s'.slots == s.slots[a.t := s'.slots[a.t]];
  }

  lemma ReturningMoves(s: State, a: Action)
    requires Inv(s) && Enabled(s, a) && Safe(s, a)
    requires a.Return? || a.ClientRelease?
    ensures Moved(s, Step(s, a), a.t)
  {
    hide Counted, PhaseOk, InFlight, Holders, Cleaners, ThreadOk, FreshAt;
    var s' := Step(s, a);
    assert s'.pcs == s.pcs[a.t := s'.pcs[a.t]];
    assert s'.slots == s.slots[a.t := s'.slots[a.t]];
  }

  lemma ThreadStepMoves(s: State, a: Action)
    requires Inv(s) && Enabled(s, a) && Safe(s, a) && ByThread(a)
    ensures Moved(s, Step(s, a), a.t)
  {
    hide Inv, Step, Safe, Enabled, Moved;
    if a.Swap? || a.Check? || a.AcquireCurrent? || a.Ref? {
      TakingMoves(s, a);
    } else if a.Return? || a.ClientRelease? {
      ReturningMoves(s, a);
    } else {
      DroppingMoves(s, a);
    }
  }

  /** Steps that read slots and version numbers, or take a reference. */
  lemma TakingBalances(s: State, a: Action, sv: nat)
    requires Inv(s) && Enabled(s, a) && Safe(s, a) && 0 < sv <= s.number
    requires a.Swap? || a.Check? || a.AcquireCurrent? || a.Ref?
    ensures SameShape(s, Step(s, a)) && Balanced(s, Step(s, a), a.t, sv)
  {
    hide Inv, Counted, FreshAt, PhaseOk, InFlight, Holders, Cleaners;
    ThreadStepSafe(s, a.t);
  }

  /** Giving up a reference. */
  lemma DroppingBalances(s: State, a: Action, sv: nat)
    requires Inv(s) && Enabled(s, a) && Safe(s, a) && 0 < sv <= s.number
    requires a.Unref? || a.DropSurplus?
    ensures SameShape(s, Step(s, a)) && Balanced(s, Step(s, a), a.t, sv)
  {
    hide Inv, FreshAt, PhaseOk, InFlight, Holders, Cleaners, Counted;
    ThreadStepSafe(s, a.t);
    assert s.number > 0 ==> s.refs[s.number] > 0 by { CurrentIsReferenced(s); }
  }

  /** The cleanup that follows the last one. */
  lemma CleaningBalances(s: State, a: Action, sv: nat)
    requires Inv(s) && Enabled(s, a) && Safe(s, a) && 0 < sv <= s.number && a.Clean?
    ensures SameShape(s, Step(s, a)) && Balanced(s, Step(s, a), a.t, sv)
  {
    hide Inv, FreshAt, PhaseOk, InFlight, Holders, Cleaners, Counted;
    ThreadStepSafe(s, a.t);
    assert s.number > 0 ==> s.refs[s.number] > 0 by { CurrentIsReferenced(s); }
  }

  /** Putting the SuperVersion back into the slot, or finding the slot scraped. */
  lemma ReturningBalances(s: State, a: Action, sv: nat)
    requires Inv(s) && Enabled(s, a) && Safe(s, a) && 0 < sv <= s.number && a.Return?
    ensures SameShape(s, Step(s, a)) && Balanced(s, Step(s, a), a.t, sv)
  {
    hide Inv, Counted, FreshAt, PhaseOk, InFlight, Holders, Cleaners;
    ThreadStepSafe(s, a.t);
  }

  lemma ReleasingBalances(s: State, a: Action, sv: nat)
    requires Inv(s) && Enabled(s, a) && Safe(s, a) && 0 < sv <= s.number && a.ClientRelease?
    ensures SameShape(s, Step(s, a)) && Balanced(s, Step(s, a), a.t, sv)
  {
    hide Inv, Counted, FreshAt, PhaseOk, InFlight, Holders, Cleaners;
    ThreadStepSafe(s, a.t);
  }

  lemma ThreadStepBalances(s: State, a: Action, sv: nat)
    requires Inv(s) && Enabled(s, a) && Safe(s, a) && ByThread(a) && 0 < sv <= s.number
    ensures SameShape(s, Step(s, a)) && Balanced(s, Step(s, a), a.t, sv)
  {
    hide Inv, Step, Safe, Enabled, Balanced;
    match a
    case Swap(_) => TakingBalances(s, a, sv);
    case Check(_) => TakingBalances(s, a, sv);
    case AcquireCurrent(_) => TakingBalances(s, a, sv);
    case Ref(_) => TakingBalances(s, a, sv);
    case Unref(_) => DroppingBalances(s, a, sv);
    case Clean(_) => CleaningBalances(s, a, sv);
    case DropSurplus(_) => DroppingBalances(s, a, sv);
    case Return(_) => ReturningBalances(s, a, sv);
    case ClientRelease(_, _) => ReleasingBalances(s, a, sv);
    case _ =>
  }

  lemma GettingOk(s: State, a: Action)
    requires Inv(s) && Enabled(s, a) && Safe(s, a)
    requires a.Swap? || a.Check? || a.AcquireCurrent? || a.Clean? || a.Unref?
    ensures SameShape(s, Step(s, a)) && ThreadOk(Step(s, a), a.t)
  {
    hide Inv, Counted, PhaseOk, InFlight, Holders, Cleaners, Weight, CleanWeight, FreshAt;
    ThreadStepSafe(s, a.t);
  }

  lemma ReturningOk(s: State, a: Action)
    requires Inv(s) && Enabled(s, a) && Safe(s, a)
    requires a.Return? || a.ClientRelease?
    ensures SameShape(s, Step(s, a)) && ThreadOk(Step(s, a), a.t)
  {
    hide Inv, Counted, PhaseOk, InFlight, Holders, Cleaners, Weight, CleanWeight, FreshAt;
    ThreadStepSafe(s, a.t);
    ClientsNamed(s);
  }

  lemma DoubledOk(s: State, a: Action)
    requires Inv(s) && Enabled(s, a) && Safe(s, a)
    requires a.Ref? || a.DropSurplus?
    ensures SameShape(s, Step(s, a)) && ThreadOk(Step(s, a), a.t)
  {
    hide Inv, Counted, PhaseOk, InFlight, Holders, Cleaners, Weight, CleanWeight, FreshAt;
    ThreadStepSafe(s, a.t);
  }

  lemma GettingFresh(s: State, a: Action)
    requires Inv(s) && Enabled(s, a) && Safe(s, a)
    requires a.Swap? || a.Check? || a.AcquireCurrent? || a.Clean? || a.Unref?
    ensures SameShape(s, Step(s, a)) && FreshAt(Step(s, a), a.t)
  {
    hide Inv, Counted, PhaseOk, InFlight, Holders, Cleaners, Weight, CleanWeight, ThreadOk;
    ThreadStepSafe(s, a.t);
  }

  lemma ReturningFresh(s: State, a: Action)
    requires Inv(s) && Enabled(s, a) && Safe(s, a)
    requires a.Return? || a.ClientRelease?
    ensures SameShape(s, Step(s, a)) && FreshAt(Step(s, a), a.t)
  {
    hide Inv, Counted, PhaseOk, InFlight, Holders, Cleaners, Weight, CleanWeight, ThreadOk;
    ThreadStepSafe(s, a.t);
  }

  lemma DoubledFresh(s: State, a: Action)
    requires Inv(s) && Enabled(s, a) && Safe(s, a)
    requires a.Ref? || a.DropSurplus?
    ensures SameShape(s, Step(s, a)) && FreshAt(Step(s, a), a.t)
  {
    hide Inv, Counted, PhaseOk, InFlight, Holders, Cleaners, Weight, CleanWeight, ThreadOk;
    ThreadStepSafe(s, a.t);
  }

  lemma ClientsNamed(s: State)
    requires Inv(s)
    ensures forall sv :: sv in s.clients || sv in s.cleaned ==> 0 < sv <= s.number
  {
  }

  lemma ThreadStepClients(s: State, a: Action)
    requires Inv(s) && Enabled(s, a) && Safe(s, a) && ByThread(a)
    ensures var s' := Step(s, a); forall sv :: sv in s'.clients || sv in s'.cleaned ==> 0 < sv <= s.number
  {
    hide Inv, Counted, PhaseOk, InFlight, Holders, Cleaners, Weight, CleanWeight, FreshAt;
    ThreadStepSafe(s, a.t);
    ClientsNamed(s);
  }

  lemma ThreadStepKeepsInv(s: State, a: Action)
    requires Inv(s) && Enabled(s, a) && Safe(s, a) && ByThread(a)
    ensures Inv(Step(s, a))
  {
    hide Step, Counted, ThreadOk, FreshAt;
    var s' := Step(s, a);
    ThreadStepMoves(s, a);
    if a.Return? || a.ClientRelease? {
      ReturningOk(s, a);
      ReturningFresh(s, a);
    } else if a.Ref? || a.DropSurplus? {
      DoubledOk(s, a);
      DoubledFresh(s, a);
    } else {
      GettingOk(s, a);
      GettingFresh(s, a);
    }
    ThreadStepClients(s, a);
    forall sv | 0 < sv <= s'.number
      ensures Counted(s', sv)
    {
      ThreadStepBalances(s, a, sv);
      BalancedKeepsCount(s, s', a.t, sv);
    }
    forall u | 0 <= u < |s'.pcs|
      ensures ThreadOk(s', u) && FreshAt(s', u)
    {
      if u != a.t { OthersUntouched(s, s', a.t, u); }
    }
  }

  lemma OthersUntouched(s: State, s': State, t: nat, u: nat)
    requires Moved(s, s', t) && u < |s.pcs| && u != t && ThreadOk(s, u) && FreshAt(s, u)
    ensures ThreadOk(s', u) && FreshAt(s', u)
  {
  }

  // ---- the installer ----

  lemma InstallKeepsInv(s: State)
    requires Inv(s) && Enabled(s, Install)
    ensures Inv(Step(s, Install))
  {
    var s' := Step(s, Install);
    forall sv | 0 < sv <= s'.number
      ensures Counted(s', sv)
    {
      assert s'.refs[sv] == if sv == s'.number then 1 else s.refs[sv];
      if sv == s'.number { NothingNamed(s, sv); } else { assert Counted(s, sv); }
    }
    forall t | 0 <= t < |s'.pcs|
      ensures ThreadOk(s', t) && FreshAt(s', t)
    {
      assert ThreadOk(s, t);
    }
  }

  /** Nobody holds or cleans a SuperVersion that has not been installed. */
  lemma NothingNamed(s: State, sv: nat)
    requires Inv(s) && sv > s.number && s.phase.Free?
    ensures Count(s.slots, Cached(sv)) == 0 && InFlight(s.pcs, sv) == 0 && ThreadCleaners(s.pcs, sv) == 0
    ensures s.clients[sv] == 0 && s.cleaned[sv] == 0
  {
    forall t | 0 <= t < |s.slots|
      ensures s.slots[t] != Cached(sv)
    {
      assert ThreadOk(s, t);
    }
    forall pc | pc in s.pcs
      ensures Weight(pc, sv) == 0 && CleanWeight(pc, sv) == 0
    {
      var t :| 0 <= t < |s.pcs| && s.pcs[t] == pc;
      assert ThreadOk(s, t);
    }
    assert Weight(Swapped(Cached(sv)), sv) == 1 && Weight(Dropping(sv, Acquire), sv) == 1;
    assert Weight(Dropping(sv, Finish), sv) == 1 && Weight(Using(sv), sv) == 1;
    assert Weight(Doubled(sv), sv) == 2 && Weight(Surplus(sv), sv) == 2;
    assert CleanWeight(Cleaning(sv, Acquire), sv) == 1 && CleanWeight(Cleaning(sv, Finish), sv) == 1;
  }

  lemma ScrapeCounts(s: State, sv: nat)
    requires Inv(s) && Enabled(s, Scrape) && 0 < sv <= s.number
    ensures |Step(s, Scrape).refs| == s.number + 1 && Counted(Step(s, Scrape), sv)
  {
    hide FreshAt, ThreadOk, InFlight;
    assert Counted(s, sv);
    CountMoves(s.slots, s.phase.at, Obsolete, Cached(sv));
  }

  lemma ScrapeKeepsInv(s: State)
    requires Inv(s) && Enabled(s, Scrape)
    ensures Inv(Step(s, Scrape))
  {
    hide Counted, InFlight, Holders, Cleaners;
    var s' := Step(s, Scrape);
    assert ThreadOk(s, s.phase.at);
    forall sv | 0 < sv <= s'.number
      ensures Counted(s', sv)
    {
      ScrapeCounts(s, sv);
    }
    forall t | 0 <= t < |s'.pcs|
      ensures ThreadOk(s', t) && FreshAt(s', t)
    {
      assert ThreadOk(s, t) && FreshAt(s, t);
    }
  }

  /** Installer steps after the scrape leave the threads and the version number alone. */
  ghost predicate ThreadsAside(s: State, s': State) {
    && s'.pcs == s.pcs && s'.slots == s.slots && s'.number == s.number && |s'.refs| == |s.refs|
    && (forall t :: 0 <= t < |s.slots| && Settled(s', t) ==> Settled(s, t))
  }

  lemma ThreadsAsideOk(s: State, s': State)
    requires Inv(s) && ThreadsAside(s, s')
    ensures forall t :: 0 <= t < |s'.pcs| ==> ThreadOk(s', t) && FreshAt(s', t)
  {
    forall t | 0 <= t < |s'.pcs|
      ensures ThreadOk(s', t) && FreshAt(s', t)
    {
      assert ThreadOk(s, t) && FreshAt(s, t);
    }
  }

  lemma EndScrapeKeepsInv(s: State)
    requires Inv(s) && Enabled(s, EndScrape)
    ensures Inv(Step(s, EndScrape))
  {
    hide ThreadOk, FreshAt, InFlight;
    var s' := Step(s, EndScrape);
    forall sv | 0 < sv <= s'.number
      ensures Counted(s', sv)
    {
      assert Counted(s, sv);
    }
    ThreadsAsideOk(s, s');
  }

  lemma InstallerUnrefKeepsInv(s: State)
    requires Inv(s) && Enabled(s, InstallerUnref) && Safe(s, InstallerUnref)
    ensures Inv(Step(s, InstallerUnref))
  {
    hide ThreadOk, FreshAt, InFlight;
    var s' := Step(s, InstallerUnref);
    var pending := s.phase.pending;
    assert pending == [pending[0]] + pending[1..];
    forall sv | 0 < sv <= s'.number
      ensures Counted(s', sv)
    {
      assert Counted(s, sv);
      assert multiset(pending)[sv] == multiset(pending[1..])[sv] + if sv == pending[0] then 1 else 0;
    }
    ThreadsAsideOk(s, s');
  }

  lemma InstallerCleanKeepsInv(s: State)
    requires Inv(s) && Enabled(s, InstallerClean) && Safe(s, InstallerClean)
    ensures Inv(Step(s, InstallerClean))
  {
    hide ThreadOk, FreshAt, InFlight;
    var s' := Step(s, InstallerClean);
    forall sv | 0 < sv <= s'.number
      ensures Counted(s', sv)
    {
      assert Counted(s, sv);
    }
    ThreadsAsideOk(s, s');
  }

  lemma EndInstallKeepsInv(s: State)
    requires Inv(s) && Enabled(s, EndInstall)
    ensures Inv(Step(s, EndInstall))
  {
    hide ThreadOk, FreshAt, InFlight;
    var s' := Step(s, EndInstall);
    forall sv | 0 < sv <= s'.number
      ensures Counted(s', sv)
    {
      assert Counted(s, sv);
    }
    ThreadsAsideOk(s, s');
  }

  lemma StepKeepsInv(s: State, a: Action)
    requires Inv(s) && Enabled(s, a)
    ensures Safe(s, a) && Inv(Step(s, a))
  {
    hide Inv, Step, Safe;
    EnabledStepsAreSafe(s, a);
    match a
    case Install => InstallKeepsInv(s);
    case Scrape => ScrapeKeepsInv(s);
    case EndScrape => EndScrapeKeepsInv(s);
    case InstallerUnref => InstallerUnrefKeepsInv(s);
    case InstallerClean => InstallerCleanKeepsInv(s);
    case EndInstall => EndInstallKeepsInv(s);
    case _ => ThreadStepKeepsInv(s, a);
  }

  // ---- whole runs ----

  /** The state after a run, or nothing if some action was not enabled or broke an assertion. */
  ghost predicate Runs(s: State, actions: seq<Action>, end: State)
    decreases |actions|
  {
    if actions == [] then end == s
    else Enabled(s, actions[0]) && Safe(s, actions[0]) && Runs(Step(s, actions[0]), actions[1..], end)
  }

  /** Every interleaving that respects the program counters keeps all assertions and the invariant. */
  ghost predicate Schedulable(s: State, actions: seq<Action>)
    decreases |actions|
  {
    actions == [] || (Enabled(s, actions[0]) && (Safe(s, actions[0]) ==> Schedulable(Step(s, actions[0]), actions[1..])))
  }

  lemma {:induction false} RunsAreSafe(s: State, actions: seq<Action>) returns (end: State)
    requires Inv(s) && Schedulable(s, actions)
    ensures Runs(s, actions, end) && Inv(end)
    decreases |actions|
  {
    if actions == [] {
      end := s;
    } else {
      StepKeepsInv(s, actions[0]);
      end := RunsAreSafe(Step(s, actions[0]), actions[1..]);
    }
  }

  lemma {:induction false} ReachableInv(s: State, actions: seq<Action>, end: State)
    requires Inv(s) && Runs(s, actions, end)
    ensures Inv(end)
    decreases |actions|
  {
    if actions != [] {
      StepKeepsInv(s, actions[0]);
      ReachableInv(Step(s, actions[0]), actions[1..], end);
    }
  }

  lemma InitInv(s: State)
    requires Init(s)
    ensures Inv(s)
  {
  }

  /** In every reachable state the count is exactly the holders, and a cleaned SuperVersion has none. */
  lemma ReferenceCountsAreExact(s: State, actions: seq<Action>, end: State, sv: nat)
    requires Init(s) && Runs(s, actions, end) && 0 < sv <= end.number
    ensures |end.refs| == end.number + 1 && end.refs[sv] == Holders(end, sv)
    ensures end.cleaned[sv] <= 1
    ensures sv in end.cleaned ==> Holders(end, sv) == 0 && Cleaners(end, sv) == 0
    ensures Holders(end, sv) == 0 && sv !in end.cleaned ==> Cleaners(end, sv) == 1
  {
    InitInv(s);
    ReachableInv(s, actions, end);
    assert Counted(end, sv);
  }

  /** A thread between Get and Return never works on a SuperVersion that was cleaned up or is about to be. */
  lemma NeverCleanedInUse(s: State, actions: seq<Action>, end: State, t: nat)
    requires Init(s) && Runs(s, actions, end) && t < |end.pcs|
    requires end.pcs[t].Using? || end.pcs[t].Doubled?
    ensures end.pcs[t].sv !in end.cleaned && Cleaners(end, end.pcs[t].sv) == 0
  {
    InitInv(s);
    ReachableInv(s, actions, end);
    assert ThreadOk(end, t);
    assert Counted(end, end.pcs[t].sv);
    ThreadMoves(end.pcs, t, Idle, end.pcs[t].sv);
  }

  /** Once an installation is over, every cached pointer is the current SuperVersion. */
  lemma CachesAreCurrent(s: State, actions: seq<Action>, end: State, t: nat)
    requires Init(s) && Runs(s, actions, end) && t < |end.slots| && !end.phase.Scraping?
    ensures end.slots[t].Cached? ==> end.slots[t].sv == end.number
  {
    InitInv(s);
    ReachableInv(s, actions, end);
    assert FreshAt(end, t);
  }

  /** Nothing leaks: at rest with no client references, all but the current SuperVersion were cleaned, once. */
  lemma QuiescentMeansCleaned(s: State, actions: seq<Action>, end: State, sv: nat)
    requires Init(s) && Runs(s, actions, end) && 0 < sv < end.number
    requires end.phase.Free? && end.clients == multiset{} && forall t :: 0 <= t < |end.pcs| ==> end.pcs[t].Idle?
    ensures end.cleaned[sv] == 1
  {
    InitInv(s);
    ReachableInv(s, actions, end);
    assert Counted(end, sv);
    forall t | 0 <= t < |end.slots|
      ensures end.slots[t] != Cached(sv)
    {
      assert FreshAt(end, t);
    }
    assert forall pc :: pc in end.pcs ==> pc == Idle;
    assert Swapped(Cached(sv)) !in end.pcs && Dropping(sv, Acquire) !in end.pcs && Dropping(sv, Finish) !in end.pcs;
    assert Using(sv) !in end.pcs && Doubled(sv) !in end.pcs && Surplus(sv) !in end.pcs;
    assert Cleaning(sv, Acquire) !in end.pcs && Cleaning(sv, Finish) !in end.pcs;
  }

  // ---- which SuperVersion a Get returns ----

  /** The thread works on nothing older than `since`. */
  predicate UsesSince(pc: Pc, since: nat) {
    pc.Using? || pc.Doubled? ==> pc.sv >= since
  }

  /**
   * A thread that has begun no use of a SuperVersion older than `since`, when `since` was installed, uses none later:
   * whatever a Get finds cached is returned only if it is current.
   */
  lemma {:induction false} UsesAreFresh(s: State, actions: seq<Action>, end: State, t: nat, since: nat)
    requires Inv(s) && Runs(s, actions, end) && t < |s.pcs| && since <= s.number && UsesSince(s.pcs[t], since)
    ensures since <= end.number && t < |end.pcs| && UsesSince(end.pcs[t], since)
    decreases |actions|
  {
    if actions != [] {
      StepKeepsInv(s, actions[0]);
      StepIsFresh(s, actions[0], t, since);
      UsesAreFresh(Step(s, actions[0]), actions[1..], end, t, since);
    }
  }

  lemma StepIsFresh(s: State, a: Action, t: nat, since: nat)
    requires Enabled(s, a) && Safe(s, a) && t < |s.pcs| && since <= s.number && UsesSince(s.pcs[t], since)
    ensures var s' := Step(s, a); since <= s'.number && t < |s'.pcs| && UsesSince(s'.pcs[t], since)
  {
  }

  /** A Get that begins in `s` ends with a SuperVersion that was current in `s` or was installed later. */
  lemma GetIsCurrentAtStart(s: State, actions: seq<Action>, end: State, t: nat)
    requires Inv(s) && Runs(s, actions, end) && t < |s.pcs| && s.pcs[t].Idle?
    ensures t < |end.pcs| && (end.pcs[t].Using? ==> end.pcs[t].sv >= s.number)
  {
    UsesAreFresh(s, actions, end, t, s.number);
  }

  /** The slot has not been scraped since the thread marked it, or caches the current SuperVersion. */
  ghost predicate Attached(s: State, t: nat)
    requires t < |s.pcs| == |s.slots|
  {
    Settled(s, t) && s.slots[t] == (if Inside(s.pcs[t]) then InUse else Cached(s.number)) && !s.pcs[t].Surplus?
  }

  /** The thread is not on its way to the mutex for a Get. */
  predicate NeedsNoMutex(pc: Pc) {
    match pc
    case Swapped(found) => found.Cached?
    case Dropping(_, goal) => goal == Finish
    case Cleaning(_, goal) => goal == Finish
    case Acquiring => false
    case _ => true
  }

  ghost predicate WithoutInstall(actions: seq<Action>) {
    forall i :: 0 <= i < |actions| ==> actions[i] != Install
  }

  /** Until the next Install an attached thread stays attached, and one that needs no mutex needs none later. */
  lemma {:induction false} CacheServes(s: State, actions: seq<Action>, end: State, t: nat)
    requires Inv(s) && Runs(s, actions, end) && WithoutInstall(actions)
    requires t < |s.pcs| && Attached(s, t)
    ensures Inv(end) && t < |end.pcs| && Attached(end, t) && end.number == s.number
    ensures NeedsNoMutex(s.pcs[t]) ==> NeedsNoMutex(end.pcs[t])
    decreases |actions|
  {
    if actions != [] {
      StepKeepsInv(s, actions[0]);
      StepStaysAttached(s, actions[0], t);
      assert forall i :: 0 <= i < |actions[1..]| ==> actions[1..][i] == actions[i + 1];
      CacheServes(Step(s, actions[0]), actions[1..], end, t);
    }
  }

  lemma StepStaysAttached(s: State, a: Action, t: nat)
    requires Inv(s) && Enabled(s, a) && Safe(s, a) && a != Install && t < |s.pcs| && Attached(s, t)
    ensures var s' := Step(s, a);
            && t < |s'.pcs| == |s'.slots| && Attached(s', t) && s'.number == s.number
            && (NeedsNoMutex(s.pcs[t]) ==> NeedsNoMutex(s'.pcs[t]))
  {
    assert ThreadOk(s, t) && FreshAt(s, t);
    assert ByThread(a) ==> ThreadOk(s, a.t);
    hide Inv;
    if ByThread(a) && a.t == t {
      OwnStepStaysAttached(s, a);
    } else if ByThread(a) {
      OtherStepStaysAttached(s, a, t);
    }
  }

  lemma OwnStepStaysAttached(s: State, a: Action)
    requires Enabled(s, a) && Safe(s, a) && ByThread(a) && |s.pcs| == |s.slots| && a.t < |s.pcs|
    requires Attached(s, a.t) && ThreadOk(s, a.t) && FreshAt(s, a.t)
    ensures var s' := Step(s, a);
            && a.t < |s'.pcs| == |s'.slots| && Attached(s', a.t) && s'.number == s.number
            && (NeedsNoMutex(s.pcs[a.t]) ==> NeedsNoMutex(s'.pcs[a.t]))
  {
  }

  lemma OtherStepStaysAttached(s: State, a: Action, t: nat)
    requires Enabled(s, a) && Safe(s, a) && ByThread(a) && |s.pcs| == |s.slots| && t < |s.pcs| && a.t != t && a.t < |s.pcs|
    requires Attached(s, t)
    ensures var s' := Step(s, a);
            |s'.pcs| == |s'.slots| == |s.pcs| && Attached(s', t) && s'.number == s.number && s'.pcs[t] == s.pcs[t]
  {
  }

  /** So a Get of such a thread takes two atomic steps on its own slot, and no reference. */
  lemma CachedGet(s: State, t: nat)
    requires Inv(s) && t < |s.pcs| && s.pcs[t].Idle? && Attached(s, t)
    ensures Enabled(s, Swap(t)) && Safe(s, Swap(t))
    ensures var s' := Step(s, Swap(t));
            && Enabled(s', Check(t)) && Safe(s', Check(t))
            && Step(s', Check(t)) == s.(slots := s.slots[t := InUse], pcs := s.pcs[t := Using(s.number)])
  {
    hide Counted, PhaseOk;
    assert ThreadOk(s, t);
  }

  /** A thread that gets hold of the current SuperVersion is attached, if its slot still has its mark. */
  lemma FirstGetAttaches(s: State, t: nat)
    requires Inv(s) && t < |s.pcs| && Inside(s.pcs[t]) && s.slots[t].InUse? && Settled(s, t)
    ensures Attached(s, t)
  {
    assert ThreadOk(s, t);
  }

  // ---- nobody gets stuck ----

  ghost predicate OnlyInstaller(actions: seq<Action>) {
    forall i :: 0 <= i < |actions| ==> !ByThread(actions[i])
  }

  ghost function InstallerWork(s: State): nat {
    match s.phase
    case Free => 0
    case Scraping(at, _, found) => (if at <= |s.slots| then 3 * (|s.slots| - at) else 0) + 2 * |found| + 4
    case Releasing(pending) => 2 * |pending| + 1
    case Disposing(_, pending) => 2 * |pending| + 2
  }

  /** An installation under way can be carried through, whatever the threads are doing. */
  lemma {:induction false} InstallationEnds(s: State) returns (actions: seq<Action>, end: State)
    requires Inv(s)
    ensures OnlyInstaller(actions) && Runs(s, actions, end) && Inv(end)
    ensures end.phase.Free? && end.number == s.number && end.pcs == s.pcs
    decreases InstallerWork(s)
  {
    if s.phase.Free? {
      actions, end := [], s;
    } else {
      var a := InstallerMove(s);
      StepKeepsInv(s, a);
      InstallerProgress(s, a);
      var rest;
      rest, end := InstallationEnds(Step(s, a));
      actions := [a] + rest;
      assert actions[1..] == rest;
    }
  }

  lemma InstallerMove(s: State) returns (a: Action)
    requires Inv(s) && !s.phase.Free?
    ensures Enabled(s, a) && !ByThread(a) && a != Install
  {
    a := match s.phase
      case Scraping(at, _, _) => if at < |s.slots| then Scrape else EndScrape
      case Releasing(pending) => if pending == [] then EndInstall else InstallerUnref
      case _ => InstallerClean;
  }

  lemma InstallerProgress(s: State, a: Action)
    requires Inv(s) && Enabled(s, a) && Safe(s, a) && !ByThread(a) && a != Install
    ensures InstallerWork(Step(s, a)) < InstallerWork(s)
    ensures Step(s, a).number == s.number && Step(s, a).pcs == s.pcs
  {
  }

  ghost predicate OnlyBy(actions: seq<Action>, t: nat) {
    forall i :: 0 <= i < |actions| ==> ByThread(actions[i]) && actions[i].t == t
  }

  function ThreadWork(pc: Pc): nat {
    match pc
    case Idle => 0
    case Swapped(_) => 9
    case Dropping(_, goal) => if goal == Acquire then 8 else 2
    case Cleaning(_, goal) => if goal == Acquire then 7 else 1
    case Acquiring => 7
    case Using(_) => 6
    case Doubled(_) => 5
    case Surplus(_) => 4
  }

  /** With the mutex free and a SuperVersion installed, a thread alone completes what it has begun. */
  lemma {:induction false} ThreadEnds(s: State, t: nat) returns (actions: seq<Action>, end: State)
    requires Inv(s) && s.phase.Free? && s.number > 0 && t < |s.pcs|
    ensures OnlyBy(actions, t) && Runs(s, actions, end) && Inv(end)
    ensures |end.pcs| == |s.pcs| && end.pcs[t].Idle? && end.number == s.number && end.phase.Free?
    decreases ThreadWork(s.pcs[t])
  {
    if s.pcs[t].Idle? {
      actions, end := [], s;
    } else {
      var a := ThreadMove(s, t);
      StepKeepsInv(s, a);
      ThreadProgress(s, a);
      var rest;
      rest, end := ThreadEnds(Step(s, a), t);
      actions := [a] + rest;
      assert actions[1..] == rest;
    }
  }

  lemma ThreadMove(s: State, t: nat) returns (a: Action)
    requires Inv(s) && s.phase.Free? && s.number > 0 && t < |s.pcs| && !s.pcs[t].Idle?
    ensures Enabled(s, a) && ByThread(a) && a.t == t && !a.Ref? && !a.ClientRelease? && !a.Swap?
  {
    a := match s.pcs[t]
      case Swapped(_) => Check(t)
      case Dropping(_, _) => Unref(t)
      case Cleaning(_, _) => Clean(t)
      case Acquiring => AcquireCurrent(t)
      case Surplus(_) => DropSurplus(t)
      case _ => Return(t);
  }

  lemma ThreadProgress(s: State, a: Action)
    requires Inv(s) && Enabled(s, a) && Safe(s, a) && ByThread(a) && !a.Ref? && !a.ClientRelease? && !a.Swap?
    ensures var s' := Step(s, a);
            && |s'.pcs| == |s.pcs| && ThreadWork(s'.pcs[a.t]) < ThreadWork(s.pcs[a.t])
            && s'.number == s.number && s'.phase == s.phase
  {
  }

  predicate Getting(pc: Pc) {
    pc.Swapped? || pc.Acquiring? || ((pc.Dropping? || pc.Cleaning?) && pc.goal == Acquire)
  }

  /** A Get that has begun comes to an end with the current SuperVersion, by the thread's own steps. */
  lemma {:induction false} GetProceeds(s: State, t: nat) returns (actions: seq<Action>, end: State)
    requires Inv(s) && s.phase.Free? && s.number > 0 && t < |s.pcs|
    requires Getting(s.pcs[t]) || s.pcs[t] == Using(s.number)
    ensures OnlyBy(actions, t) && Runs(s, actions, end) && Inv(end)
    ensures end.number == s.number && |end.pcs| == |s.pcs| && end.pcs[t] == Using(s.number)
    decreases ThreadWork(s.pcs[t])
  {
    if s.pcs[t].Using? {
      actions, end := [], s;
    } else {
      var a := ThreadMove(s, t);
      StepKeepsInv(s, a);
      ThreadProgress(s, a);
      GettingGoesOn(s, a);
      var rest;
      rest, end := GetProceeds(Step(s, a), t);
      actions := [a] + rest;
      assert actions[1..] == rest;
    }
  }

  lemma GettingGoesOn(s: State, a: Action)
    requires Enabled(s, a) && Safe(s, a) && ByThread(a) && a.t < |s.pcs| && Getting(s.pcs[a.t])
    ensures var s' := Step(s, a); a.t < |s'.pcs| && (Getting(s'.pcs[a.t]) || s'.pcs[a.t] == Using(s'.number))
  {
  }

  /** Whatever the slot holds, an idle thread can get the current SuperVersion whenever the mutex is free. */
  lemma GetCompletes(s: State, t: nat) returns (actions: seq<Action>, end: State)
    requires Inv(s) && s.phase.Free? && s.number > 0 && t < |s.pcs| && s.pcs[t].Idle?
    ensures OnlyBy(actions, t) && Runs(s, actions, end) && Inv(end)
    ensures end.number == s.number && |end.pcs| == |s.pcs| && end.pcs[t] == Using(s.number)
  {
    assert ThreadOk(s, t) && Enabled(s, Swap(t));
    StepKeepsInv(s, Swap(t));
    var rest;
    rest, end := GetProceeds(Step(s, Swap(t)), t);
    actions := [Swap(t)] + rest;
    assert actions[1..] == rest;
  }

  /** A caller that asked for a reference of its own is handed one to what the thread uses, and the cached one goes back
      into the slot if the slot still has the thread's mark. */
  lemma ReferencedGet(s: State, t: nat) returns (actions: seq<Action>, end: State)
    requires Inv(s) && t < |s.pcs| && s.pcs[t].Using?
    ensures OnlyBy(actions, t) && Runs(s, actions, end) && Inv(end)
    ensures |end.pcs| == |s.pcs| && end.pcs[t].Idle? && end.number == s.number
    ensures end.clients == s.clients + multiset{s.pcs[t].sv}
    ensures t < |s.slots| && end.slots == if s.slots[t] == InUse then s.slots[t := Cached(s.pcs[t].sv)] else s.slots
    ensures s.pcs[t].sv < |s.refs| &&
            end.refs == s.refs[s.pcs[t].sv := s.refs[s.pcs[t].sv] + if s.slots[t] == InUse then 1 else 0]
  {
    StepKeepsInv(s, Ref(t));
    var doubled := Step(s, Ref(t));
    StepKeepsInv(doubled, Return(t));
    var returned := Step(doubled, Return(t));
    hide Inv;
    if s.slots[t] == InUse {
      actions, end := [Ref(t), Return(t)], returned;
      assert Runs(end, [], end) && actions[1..] == [Return(t)] && [Return(t)][1..] == [];
      assert Runs(doubled, [Return(t)], end);
    } else {
      StepKeepsInv(returned, DropSurplus(t));
      end := Step(returned, DropSurplus(t));
      var last := [Return(t), DropSurplus(t)];
      actions := [Ref(t)] + last;
      assert Runs(end, [], end) && actions[1..] == last && last[1..] == [DropSurplus(t)] && [DropSurplus(t)][1..] == [];
      assert Runs(returned, [DropSurplus(t)], end);
      assert Runs(doubled, last, end);
    }
  }

  /** Otherwise the caller keeps nothing, and the reference stays in the slot for the next Get. */
  lemma CachedReturn(s: State, t: nat)
    requires Inv(s) && t < |s.pcs| && s.pcs[t].Using? && t < |s.slots| && s.slots[t] == InUse
    ensures Enabled(s, Return(t)) && Safe(s, Return(t))
    ensures Step(s, Return(t)) == s.(pcs := s.pcs[t := Idle], slots := s.slots[t := Cached(s.pcs[t].sv)])
  {
    StepKeepsInv(s, Return(t));
    hide Inv;
  }
}
