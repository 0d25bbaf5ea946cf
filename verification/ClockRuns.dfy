/** What the steps on the flag words come to over whole runs: use spares an entry, an unused one goes, lookups succeed. */
module ClockRuns {
  import opened Counting
  import opened ClockFlags

  /** How often a run examines the handle for eviction. */
  ghost function Looks(actions: seq<Action>, h: nat): nat {
    if actions == [] then 0 else Bit(actions[0] == TryEvict(h)) + Looks(actions[1..], h)
  }

  ghost predicate TakesNoStep(actions: seq<Action>, t: nat) {
    forall i :: 0 <= i < |actions| ==> !(ByTask(actions[i]) && actions[i].t == t)
  }

  ghost predicate NotErased(actions: seq<Action>, h: nat) {
    forall i :: 0 <= i < |actions| ==> actions[i] != UnsetInCache(h)
  }

  ghost predicate NotReleased(actions: seq<Action>, h: nat) {
    forall i :: 0 <= i < |actions| ==> !(actions[i].StartRelease? && actions[i].h == h)
  }

  /** Examinations that an entry is sure to outlast. */
  ghost function Chances(s: State, h: nat): nat
    requires h < |s.flags|
  {
    Bit(s.flags[h].usage && s.section != Sparing(h))
  }

  // ---- steps ----

  /** A live handle is neither being retired nor being filled. */
  lemma LiveIsSettled(s: State, h: nat)
    requires Inv(s) && h < |s.flags| && Live(s.flags[h])
    ensures s.section != Filling(h) && s.section != Retiring(h) && h < |s.born| == |s.flags| == |s.retired|
    ensures s.section.Sparing? || s.section.Retiring? || s.section.Filling? ==> s.section.h < |s.flags|
  {
    assert HandleOk(s, h);
  }

  /** A live handle keeps its entry through a step. */
  lemma LiveKeepsEntry(s: State, a: Action, h: nat)
    requires Inv(s) && Enabled(s, a) && Safe(s, a) && h < |s.flags| && Live(s.flags[h])
    ensures h < |Step(s, a).flags| && h < |Step(s, a).born| && h < |s.born| && Step(s, a).born[h] == s.born[h]
  {
    LiveIsSettled(s, h);
    hide Inv, HandleOk, References, Retirers, TaskOk;
  }

  lemma ChanceStep(s: State, a: Action, h: nat)
    requires Inv(s) && Enabled(s, a) && Safe(s, a) && h < |s.flags| && s.flags[h].inCache
    requires a != UnsetInCache(h) && Bit(a == TryEvict(h)) <= Chances(s, h)
    ensures h < |Step(s, a).flags| && Step(s, a).flags[h].inCache
    ensures Chances(s, h) <= Chances(Step(s, a), h) + Bit(a == TryEvict(h))
  {
    LiveIsSettled(s, h);
    hide Inv, HandleOk, References, Retirers, TaskOk;
    if ByTask(a) { ChanceTaskStep(s, a, h); }
  }

  lemma ChanceTaskStep(s: State, a: Action, h: nat)
    requires Enabled(s, a) && Safe(s, a) && h < |s.flags| && ByTask(a)
    ensures h < |Step(s, a).flags| && Step(s, a).flags[h].inCache == s.flags[h].inCache
    ensures s.flags[h].usage ==> Step(s, a).flags[h].usage
    ensures Step(s, a).section == s.section
  {
  }

  /** Only clearing the bit takes use away, and that follows an examination. */
  lemma UseStep(s: State, a: Action, h: nat)
    requires Inv(s) && Enabled(s, a) && Safe(s, a) && h < |s.flags| && s.flags[h].inCache
    requires s.section != Sparing(h) && a != TryEvict(h) && a != UnsetInCache(h)
    ensures h < |Step(s, a).flags| && Step(s, a).flags[h].inCache && Step(s, a).section != Sparing(h)
    ensures s.flags[h].usage ==> Step(s, a).flags[h].usage
  {
    LiveIsSettled(s, h);
    hide Inv, HandleOk, References, Retirers, TaskOk;
    if ByTask(a) { ChanceTaskStep(s, a, h); }
  }

  lemma SettingStep(s: State, a: Action, h: nat, t: nat)
    requires Enabled(s, a) && Safe(s, a) && h < |s.flags| && t < |s.tasks| && s.tasks[t] == SettingUsage(h)
    ensures t < |Step(s, a).tasks| && h < |Step(s, a).flags|
    ensures Step(s, a).tasks[t] == SettingUsage(h) || Step(s, a).flags[h].usage
  {
    TasksFollow(s, a);
    if ByTask(a) && a.t == t {
      assert a == SetUsage(t);
    } else {
      hide Step, Enabled, Safe;
    }
  }

  /** The bit is clear, and nobody is about to set it. */
  ghost predicate Unused(s: State, h: nat) {
    h < |s.flags| && !s.flags[h].usage && forall t :: 0 <= t < |s.tasks| ==> s.tasks[t] != SettingUsage(h)
  }

  lemma UnusedStep(s: State, a: Action, h: nat)
    requires Inv(s) && Enabled(s, a) && Safe(s, a) && Unused(s, h) && !(a.StartRelease? && a.h == h)
    ensures Unused(Step(s, a), h)
  {
    TasksFollow(s, a);
    hide Inv, HandleOk, TaskOk;
  }

  lemma OutStep(s: State, a: Action, h: nat)
    requires Inv(s) && Enabled(s, a) && Safe(s, a) && h < |s.flags| && !s.flags[h].inCache
    ensures h < |Step(s, a).flags| && h < |s.born| && h < |Step(s, a).born|
    ensures s.born[h] <= Step(s, a).born[h] && (Step(s, a).born[h] == s.born[h] ==> !Step(s, a).flags[h].inCache)
  {
    assert HandleOk(s, h);
    hide HandleOk, References, Retirers, TaskOk;
  }

  lemma EntriesOnlyGrow(s: State, a: Action, h: nat)
    requires Inv(s) && Enabled(s, a) && Safe(s, a) && h < |s.flags|
    ensures h < |Step(s, a).flags| && h < |s.born| && h < |Step(s, a).born| && s.born[h] <= Step(s, a).born[h]
  {
    hide HandleOk, References, Retirers, TaskOk;
  }

  // ---- runs ----

  /** An entry outlasts an examination for each chance it has, and another use gives it a new one. */
  lemma {:induction false} UsedEntryStays(s: State, actions: seq<Action>, end: State, h: nat)
    requires Inv(s) && Runs(s, actions, end) && h < |s.flags| && s.flags[h].inCache
    requires NotErased(actions, h) && Looks(actions, h) <= Chances(s, h)
    ensures h < |end.flags| && end.flags[h].inCache && h < |s.born| && h < |end.born| && end.born[h] == s.born[h]
    decreases |actions|
  {
    if actions != [] {
      var a, rest := actions[0], actions[1..];
      hide HandleOk, Step, Enabled, Chances, TaskOk;
      StepKeepsInv(s, a);
      ChanceStep(s, a, h);
      LiveKeepsEntry(s, a, h);
      assert forall i :: 0 <= i < |rest| ==> rest[i] == actions[i + 1];
      UsedEntryStays(Step(s, a), rest, end, h);
    }
  }

  /** A release leaves the entry used, unless it was examined or erased meanwhile. */
  lemma {:induction false} ReleaseIsUse(s: State, actions: seq<Action>, end: State, t: nat, h: nat)
    requires Inv(s) && Runs(s, actions, end) && h < |s.flags| && s.flags[h].inCache && t < |s.tasks|
    requires s.section != Sparing(h) && NotErased(actions, h) && Looks(actions, h) == 0
    requires s.tasks[t] == SettingUsage(h) || s.flags[h].usage
    ensures h < |end.flags| && t < |end.tasks| && end.flags[h].inCache && end.section != Sparing(h)
    ensures end.tasks[t] == SettingUsage(h) || end.flags[h].usage
    decreases |actions|
  {
    if actions != [] {
      var a, rest := actions[0], actions[1..];
      hide HandleOk, Step, Enabled, TaskOk;
      StepKeepsInv(s, a);
      UseStep(s, a, h);
      TasksFollow(s, a);
      if s.tasks[t] == SettingUsage(h) { SettingStep(s, a, h, t); }
      assert forall i :: 0 <= i < |rest| ==> rest[i] == actions[i + 1];
      ReleaseIsUse(Step(s, a), rest, end, t, h);
    }
  }

  /** So after a release the next examination leaves the entry where it is, whatever else happens. */
  lemma ReleasedGetsSecondChance(s: State, before: seq<Action>, mid: State, after: seq<Action>, end: State, t: nat, h: nat)
    requires Inv(s) && h < |s.flags| && s.flags[h].inCache && s.section != Sparing(h)
    requires t < |s.tasks| && s.tasks[t] == SettingUsage(h)
    requires Runs(s, before, mid) && NotErased(before, h) && Looks(before, h) == 0
    requires t < |mid.tasks| && mid.tasks[t] != SettingUsage(h)
    requires Runs(mid, after, end) && NotErased(after, h) && Looks(after, h) <= 1
    ensures h < |end.flags| && end.flags[h].inCache
  {
    hide HandleOk, TaskOk, Inv, NotErased;
    ReachableInv(s, before, mid);
    ReleaseIsUse(s, before, mid, t, h);
    UsedEntryStays(mid, after, end, h);
  }

  lemma {:induction false} UnusedStays(s: State, actions: seq<Action>, end: State, h: nat)
    requires Inv(s) && Runs(s, actions, end) && Unused(s, h) && NotReleased(actions, h)
    ensures Unused(end, h)
    decreases |actions|
  {
    if actions != [] {
      var a, rest := actions[0], actions[1..];
      hide HandleOk, Step, Enabled, Unused, TaskOk;
      StepKeepsInv(s, a);
      UnusedStep(s, a, h);
      assert forall i :: 0 <= i < |rest| ==> rest[i] == actions[i + 1];
      UnusedStays(Step(s, a), rest, end, h);
    }
  }

  /** An examination that finds an entry idle and unused evicts and recycles it. */
  lemma UnusedIsEvicted(s: State, h: nat) returns (end: State)
    requires Inv(s) && s.section == Locked && h < |s.flags| && s.flags[h].inCache && s.flags[h].refs == 0 && !s.flags[h].usage
    ensures Runs(s, [TryEvict(h), PushRetired], end) && end.section == Locked
    ensures h < |end.flags| && !Live(end.flags[h]) && h in end.recycle
    ensures h < |s.retired| && h < |end.retired| && end.retired[h] == s.retired[h] + 1
  {
    hide HandleOk, TaskOk, Safe;
    StepKeepsInv(s, TryEvict(h));
    var mid := Step(s, TryEvict(h));
    StepKeepsInv(mid, PushRetired);
    end := Step(mid, PushRetired);
    assert Runs(end, [], end);
    assert [TryEvict(h), PushRetired][1..] == [PushRetired];
    assert [PushRetired][1..] == [];
    assert Runs(mid, [PushRetired], end);
  }

  /** A newly filled handle is unused. As long as nobody gives a reference to it back, it is gone at the first
      examination that finds it idle. */
  lemma NewEntryGoesFirst(s: State, hold: bool, actions: seq<Action>, mid: State, h: nat) returns (end: State)
    requires Inv(s) && s.section == Filling(h) && Runs(s, [Fill(hold)] + actions, mid) && NotReleased(actions, h)
    requires mid.section == Locked && h < |mid.flags| && mid.flags[h].inCache && mid.flags[h].refs == 0
    ensures Runs(mid, [TryEvict(h), PushRetired], end) && h in end.recycle
  {
    hide TaskOk, Step, Enabled, Safe, HandleOk;
    assert ([Fill(hold)] + actions)[1..] == actions;
    StepKeepsInv(s, Fill(hold));
    FilledIsUnused(s, hold, h);
    UnusedStays(Step(s, Fill(hold)), actions, mid, h);
    ReachableInv(Step(s, Fill(hold)), actions, mid);
    end := UnusedIsEvicted(mid, h);
  }

  lemma FilledIsUnused(s: State, hold: bool, h: nat)
    requires Inv(s) && s.section == Filling(h) && Enabled(s, Fill(hold)) && Safe(s, Fill(hold))
    ensures Unused(Step(s, Fill(hold)), h)
  {
    assert HandleOk(s, h);
    CountZero(s.tasks, SettingUsage(h));
  }

  /** Two examinations evict an idle entry, used or not. */
  lemma TwoLooksEvict(s: State, h: nat) returns (actions: seq<Action>, end: State)
    requires Inv(s) && s.section == Locked && h < |s.flags| && s.flags[h].inCache && s.flags[h].refs == 0
    ensures Runs(s, actions, end) && h in end.recycle && end.section == Locked
    ensures Looks(actions, h) <= 2 && forall a :: a in actions ==> a == TryEvict(h) || a == ClearUsage || a == PushRetired
  {
    hide HandleOk, TaskOk, Safe;
    var last := [TryEvict(h), PushRetired];
    assert last[1..] == [PushRetired] && [PushRetired][1..] == [];
    assert Looks([PushRetired], h) == Looks([], h);
    if !s.flags[h].usage {
      end := UnusedIsEvicted(s, h);
      return last, end;
    }
    StepKeepsInv(s, TryEvict(h));
    var spared := Step(s, TryEvict(h));
    StepKeepsInv(spared, ClearUsage);
    var cleared := Step(spared, ClearUsage);
    end := UnusedIsEvicted(cleared, h);
    actions := [TryEvict(h), ClearUsage] + last;
    assert actions[1..] == [ClearUsage] + last && ([ClearUsage] + last)[1..] == last;
    assert Runs(spared, [ClearUsage] + last, end);
    assert Looks([ClearUsage] + last, h) == Looks(last, h);
  }

  /** An entry that has left the cache does not come back: only a new entry can be found in its handle. */
  lemma {:induction false} OutStaysOut(s: State, actions: seq<Action>, end: State, h: nat)
    requires Inv(s) && Runs(s, actions, end) && h < |s.flags| && !s.flags[h].inCache
    ensures h < |end.flags| && h < |s.born| && h < |end.born| && s.born[h] <= end.born[h]
    ensures end.born[h] == s.born[h] ==> !end.flags[h].inCache
    decreases |actions|
  {
    if actions != [] {
      hide HandleOk, Step, Enabled, TaskOk;
      StepKeepsInv(s, actions[0]);
      OutStep(s, actions[0], h);
      if Step(s, actions[0]).born[h] == s.born[h] {
        OutStaysOut(Step(s, actions[0]), actions[1..], end, h);
      } else {
        EntriesGrow(Step(s, actions[0]), actions[1..], end, h);
      }
    }
  }

  lemma {:induction false} EntriesGrow(s: State, actions: seq<Action>, end: State, h: nat)
    requires Inv(s) && Runs(s, actions, end) && h < |s.flags|
    ensures h < |end.flags| && h < |s.born| && h < |end.born| && s.born[h] <= end.born[h]
    decreases |actions|
  {
    if actions != [] {
      hide HandleOk, Step, Enabled, TaskOk;
      StepKeepsInv(s, actions[0]);
      EntriesOnlyGrow(s, actions[0], h);
      EntriesGrow(Step(s, actions[0]), actions[1..], end, h);
    }
  }

  /** An erased entry is not found again, and is recycled at once if nobody refers to it. */
  lemma ErasedIsGone(s: State, actions: seq<Action>, end: State, h: nat)
    requires Inv(s) && Runs(s, [UnsetInCache(h)] + actions, end) && h < |s.flags| && s.flags[h].inCache
    ensures h < |end.flags| && h < |s.born| && h < |end.born|
    ensures end.born[h] == s.born[h] ==> !end.flags[h].inCache
    ensures Step(s, UnsetInCache(h)).section == if s.flags[h].refs == 0 then Retiring(h) else Locked
  {
    assert ([UnsetInCache(h)] + actions)[1..] == actions;
    StepKeepsInv(s, UnsetInCache(h));
    hide HandleOk, TaskOk;
    OutStaysOut(Step(s, UnsetInCache(h)), actions, end, h);
  }

  // ---- lookups ----

  /** A reference that a lookup took holds the entry until the lookup has compared the key. */
  lemma {:induction false} CheckedIsHeld(s: State, actions: seq<Action>, end: State, t: nat, h: nat)
    requires Inv(s) && Runs(s, actions, end) && t < |s.tasks| && s.tasks[t] == Checking(h) && TakesNoStep(actions, t)
    ensures t < |end.tasks| && end.tasks[t] == Checking(h) && Inv(end)
    ensures h < |end.flags| && end.flags[h].refs > 0 && h < |s.born| && h < |end.born| && end.born[h] == s.born[h]
    decreases |actions|
  {
    HeldIsLive(s, t, h);
    if actions != [] {
      var a, rest := actions[0], actions[1..];
      hide HandleOk, Step, Enabled, TaskOk;
      StepKeepsInv(s, a);
      TasksFollow(s, a);
      LiveKeepsEntry(s, a, h);
      assert forall i :: 0 <= i < |rest| ==> rest[i] == actions[i + 1];
      CheckedIsHeld(Step(s, a), rest, end, t, h);
    }
  }

  lemma HeldIsLive(s: State, t: nat, h: nat)
    requires Inv(s) && t < |s.tasks| && s.tasks[t] == Checking(h)
    ensures h < |s.flags| && s.flags[h].refs > 0
  {
    assert TaskOk(s, t) && HandleOk(s, h);
    CountZero(s.tasks, Checking(h));
  }

  /** A lookup that finds its handle in the cache gets a reference to the entry that is there. */
  lemma LookupSucceeds(s: State, actions: seq<Action>, mid: State, t: nat, h: nat)
    requires Inv(s) && t < |s.tasks| && s.tasks[t] == Found(h) && h < |s.flags| && s.flags[h].inCache
    requires Runs(s, [TryRef(t)] + actions, mid) && TakesNoStep(actions, t)
    ensures Enabled(mid, Accept(t)) && Safe(mid, Accept(t))
    ensures Step(mid, Accept(t)).clients == mid.clients + multiset{h} && Step(mid, Accept(t)).tasks[t] == Idle
    ensures h < |s.born| && h < |mid.born| && mid.born[h] == s.born[h]
  {
    assert ([TryRef(t)] + actions)[1..] == actions;
    StepKeepsInv(s, TryRef(t));
    assert Step(s, TryRef(t)).tasks[t] == Checking(h);
    assert Step(s, TryRef(t)).born == s.born;
    hide HandleOk, TaskOk;
    CheckedIsHeld(Step(s, TryRef(t)), actions, mid, t, h);
  }

  /** A lookup whose handle has left the cache finds nothing. */
  lemma LookupFails(s: State, t: nat)
    requires Inv(s) && Enabled(s, TryRef(t)) && Safe(s, TryRef(t)) && !s.flags[s.tasks[t].h].inCache
    ensures Step(s, TryRef(t)).tasks[t] == Idle && Step(s, TryRef(t)).flags == s.flags
  {
  }

  // ---- nobody is stuck ----

  /** The thread in the critical section can always finish by itself. */
  lemma SectionEnds(s: State) returns (actions: seq<Action>, end: State)
    requires Inv(s)
    ensures Runs(s, actions, end) && end.section == Unlocked && |actions| <= 2 && end.tasks == s.tasks
  {
    hide HandleOk, TaskOk, Safe;
    if s.section.Unlocked? {
      return [], s;
    }
    var mid, first := s, [];
    if !s.section.Locked? {
      var a := if s.section.Sparing? then ClearUsage else if s.section.Retiring? then PushRetired else Fill(false);
      StepKeepsInv(s, a);
      mid, first := Step(s, a), [a];
    }
    StepKeepsInv(mid, Unlock);
    end := Step(mid, Unlock);
    actions := first + [Unlock];
    assert Runs(end, [], end) && [Unlock][1..] == [];
    assert Runs(mid, [Unlock], end);
    assert first != [] ==> actions[1..] == [Unlock];
  }

  /** Every task can come to its end; giving a reference back, or failing to get one, takes at most three steps of its own. */
  lemma {:induction false} TaskEnds(s: State, t: nat) returns (actions: seq<Action>, end: State)
    requires Inv(s) && t < |s.tasks| && s.section == Unlocked
    ensures Runs(s, actions, end) && t < |end.tasks| && end.tasks[t] == Idle && |actions| <= StepsLeft(s.tasks[t])
    decreases StepsLeft(s.tasks[t])
  {
    hide HandleOk, TaskOk, Safe;
    if s.tasks[t].Idle? {
      return [], s;
    }
    var a := match s.tasks[t]
      case Found(_) => TryRef(t)
      case Checking(_) => Accept(t)
      case SettingUsage(_) => SetUsage(t)
      case Unreffing(_) => Unref(t)
      case _ => Recycle(t);
    StepKeepsInv(s, a);
    var rest;
    rest, end := TaskEnds(Step(s, a), t);
    actions := [a] + rest;
    assert actions[1..] == rest;
  }

  function StepsLeft(task: Task): nat {
    match task
    case Idle => 0
    case Found(_) => 2
    case Checking(_) => 1
    case SettingUsage(_) => 3
    case Unreffing(_) => 2
    case Recycling(_) => 1
  }

  // ---- reuse ----

  ghost function Taken(actions: seq<Action>): nat {
    if actions == [] then 0 else Bit(actions[0].TakeHandle?) + Taken(actions[1..])
  }

  /** Free handles are used before new ones are made. */
  lemma {:induction false} HandlesAreReused(s: State, actions: seq<Action>, end: State)
    requires Inv(s) && Runs(s, actions, end) && Taken(actions) <= |s.recycle|
    ensures |end.flags| == |s.flags|
    decreases |actions|
  {
    if actions != [] {
      BinStep(s, actions[0]);
      StepKeepsInv(s, actions[0]);
      hide HandleOk, Step, Enabled, TaskOk;
      HandlesAreReused(Step(s, actions[0]), actions[1..], end);
    }
  }

  lemma BinStep(s: State, a: Action)
    requires Inv(s) && Enabled(s, a) && Safe(s, a) && Bit(a.TakeHandle?) <= |s.recycle|
    ensures |Step(s, a).flags| == |s.flags| && |Step(s, a).recycle| + Bit(a.TakeHandle?) >= |s.recycle|
  {
    hide HandleOk, TaskOk;
  }

  // ---- who holds references ----

  /** A step that may hand a reference to a client. */
  predicate HandsOut(a: Action) {
    a.Accept? || a == Fill(true)
  }

  /** Without one, clients get no reference; and a reference is theirs until they release it. */
  lemma {:induction false} ClientsHold(s: State, actions: seq<Action>, end: State, h: nat)
    requires Inv(s) && Runs(s, actions, end)
    ensures NotReleased(actions, h) ==> end.clients[h] >= s.clients[h]
    ensures (forall i :: 0 <= i < |actions| ==> !HandsOut(actions[i])) ==> end.clients[h] <= s.clients[h]
    decreases |actions|
  {
    if actions != [] {
      var a, rest := actions[0], actions[1..];
      StepKeepsInv(s, a);
      ClientStep(s, a, h);
      assert forall i :: 0 <= i < |rest| ==> rest[i] == actions[i + 1];
      hide HandleOk, Step, Enabled, TaskOk;
      ClientsHold(Step(s, a), rest, end, h);
    }
  }

  lemma ClientStep(s: State, a: Action, h: nat)
    requires Enabled(s, a) && Safe(s, a)
    ensures !(a.StartRelease? && a.h == h) ==> Step(s, a).clients[h] >= s.clients[h]
    ensures !HandsOut(a) ==> Step(s, a).clients[h] <= s.clients[h]
  {
  }

  /** An insertion leaves the entry cached, and gives its caller a reference just when one is wanted. */
  lemma InsertHolds(s: State, hold: bool)
    requires Inv(s) && Enabled(s, Fill(hold))
    ensures Safe(s, Fill(hold))
    ensures var s' := Step(s, Fill(hold)); var h := s.section.h;
            && h < |s'.flags| && s'.flags[h].inCache && s'.section == Locked
            && s'.clients[h] == s.clients[h] + Bit(hold) && s'.flags[h].refs == Bit(hold)
  {
    StepKeepsInv(s, Fill(hold));
  }
}
