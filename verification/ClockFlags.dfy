/**
 * The CLOCK cache's handle flags as a transition system: one step per atomic operation on a flag
 * word, and one per operation on `recycle_` or `list_` by the thread that holds the mutex.
 */
module ClockFlags {
  import opened Counting

  /** The packed word: in-cache bit, usage bit, reference count. Unused when all are clear. */
  datatype Flags = Flags(inCache: bool, usage: bool, refs: nat)

  const CLEAR := Flags(false, false, 0)

  datatype Task =
    | Idle
    | Found(h: nat)          // Lookup has the pointer but no reference; the handle may be reused meanwhile
    | Checking(h: nat)       // holds a reference, comparing the key
    | SettingUsage(h: nat)   // Release: about to set the usage bit
    | Unreffing(h: nat)      // about to subtract its reference
    | Recycling(h: nat)      // brought the word to zero; waiting for the mutex

  /** The critical section: at most one thread is in it. */
  datatype Section =
    | Unlocked
    | Locked
    | Sparing(h: nat)        // could not evict `h`; about to clear its usage bit
    | Retiring(h: nat)       // cleared the last bit of `h`; about to push it
    | Filling(h: nat)        // took `h` for a new entry; its flags are not stored yet

  /** `born` and `retired` count, per handle, the entries it has held and the times it was recycled. */
  datatype State = State(flags: seq<Flags>, recycle: seq<nat>, section: Section, tasks: seq<Task>,
                         clients: multiset<nat>, born: seq<nat>, retired: seq<nat>)

  datatype Action =
    | LookupFind(t: nat, h: nat) | TryRef(t: nat) | Accept(t: nat) | Reject(t: nat)
    | StartRelease(t: nat, h: nat) | SetUsage(t: nat) | Unref(t: nat) | Recycle(t: nat)
    | Lock | TryEvict(h: nat) | ClearUsage | UnsetInCache(h: nat) | PushRetired | TakeHandle | Fill(hold: bool) | Unlock

  ghost predicate Init(s: State) {
    && s.flags == [] && s.recycle == [] && s.section == Unlocked
    && (forall t :: 0 <= t < |s.tasks| ==> s.tasks[t] == Idle)
    && s.clients == multiset{} && s.born == [] && s.retired == []
  }

  predicate Enabled(s: State, a: Action) {
    match a
    case LookupFind(t, h) => t < |s.tasks| && s.tasks[t].Idle? && h < |s.flags|
    case TryRef(t) => t < |s.tasks| && s.tasks[t].Found?
    case Accept(t) => t < |s.tasks| && s.tasks[t].Checking?
    case Reject(t) => t < |s.tasks| && s.tasks[t].Checking?
    case StartRelease(t, h) => t < |s.tasks| && s.tasks[t].Idle? && h in s.clients
    case SetUsage(t) => t < |s.tasks| && s.tasks[t].SettingUsage?
    case Unref(t) => t < |s.tasks| && s.tasks[t].Unreffing?
    case Recycle(t) => t < |s.tasks| && s.tasks[t].Recycling? && s.section.Unlocked?
    case Lock => s.section.Unlocked?
    case TryEvict(h) => s.section.Locked? && h < |s.flags|
    case ClearUsage => s.section.Sparing?
    case UnsetInCache(h) => s.section.Locked? && h < |s.flags|
    case PushRetired => s.section.Retiring?
    case TakeHandle => s.section.Locked?
    case Fill(_) => s.section.Filling?
    case Unlock => s.section.Locked?
  }

  predicate Quiet(s: State, h: nat) {
    h < |s.flags| == |s.retired| && !s.flags[h].inCache && s.flags[h].refs == 0
  }

  /** The assertions of the source, and that no step touches memory that is not there. */
  predicate Safe(s: State, a: Action)
    requires Enabled(s, a)
  {
    match a
    case TryRef(t) => s.tasks[t].h < |s.flags|
    case SetUsage(t) => s.tasks[t].h < |s.flags|
    case Unref(t) => s.tasks[t].h < |s.flags| && s.flags[s.tasks[t].h].refs > 0
    case ClearUsage => s.section.h < |s.flags|
    case Recycle(t) => Quiet(s, s.tasks[t].h) && s.tasks[t].h !in s.recycle
    case PushRetired => Quiet(s, s.section.h) && s.section.h !in s.recycle
    case Fill(_) => Quiet(s, s.section.h) && |s.born| == |s.flags| && s.section.h !in s.recycle
    case _ => true
  }

  function To(s: State, t: nat, task: Task): State
    requires t < |s.tasks|
  {
    s.(tasks := s.tasks[t := task])
  }

  function Bump(counts: seq<nat>, h: nat): seq<nat>
    requires h < |counts|
  {
    counts[h := counts[h] + 1]
  }

  function Step(s: State, a: Action): State
    requires Enabled(s, a) && Safe(s, a)
  {
    match a
    case LookupFind(t, h) => To(s, t, Found(h))
    case TryRef(t) =>
      var h := s.tasks[t].h;
      var f := s.flags[h];
      if f.inCache then To(s, t, Checking(h)).(flags := s.flags[h := f.(refs := f.refs + 1)]) else To(s, t, Idle)
    case Accept(t) => To(s, t, Idle).(clients := s.clients + multiset{s.tasks[t].h})
    case Reject(t) => To(s, t, Unreffing(s.tasks[t].h))
    case StartRelease(t, h) => To(s, t, SettingUsage(h)).(clients := s.clients - multiset{h})
    case SetUsage(t) =>
      var h := s.tasks[t].h;
      To(s, t, Unreffing(h)).(flags := s.flags[h := s.flags[h].(usage := true)])
    case Unref(t) =>
      var h := s.tasks[t].h;
      var f := s.flags[h];
      To(s, t, if f.refs == 1 && !f.inCache then Recycling(h) else Idle).(flags := s.flags[h := f.(refs := f.refs - 1)])
    case Recycle(t) =>
      var h := s.tasks[t].h;
      To(s, t, Idle).(recycle := s.recycle + [h], retired := Bump(s.retired, h))
    case Lock => s.(section := Locked)
    case TryEvict(h) =>
      if s.flags[h] == Flags(true, false, 0)
      then s.(flags := s.flags[h := CLEAR], section := Retiring(h))
      else s.(section := Sparing(h))
    case ClearUsage =>
      var h := s.section.h;
      s.(flags := s.flags[h := s.flags[h].(usage := false)], section := Locked)
    case UnsetInCache(h) =>
      var f := s.flags[h];
      s.(flags := s.flags[h := f.(inCache := false)], section := if f.inCache && f.refs == 0 then Retiring(h) else Locked)
    case PushRetired =>
      s.(recycle := s.recycle + [s.section.h], retired := Bump(s.retired, s.section.h), section := Locked)
    case TakeHandle =>
      if s.recycle != []
      then s.(recycle := s.recycle[..|s.recycle| - 1], section := Filling(s.recycle[|s.recycle| - 1]))
      else s.(flags := s.flags + [CLEAR], born := s.born + [0], retired := s.retired + [0], section := Filling(|s.flags|))
    case Fill(hold) =>
      var h := s.section.h;
      s.(flags := s.flags[h := Flags(true, false, if hold then 1 else 0)], born := Bump(s.born, h), section := Locked,
         clients := if hold then s.clients + multiset{h} else s.clients)
    case Unlock => s.(section := Unlocked)
  }

  // ---- who holds what ----

  ghost function References(tasks: seq<Task>, h: nat): nat {
    Count(tasks, Checking(h)) + Count(tasks, SettingUsage(h)) + Count(tasks, Unreffing(h))
  }

  function Bit(b: bool): nat {
    if b then 1 else 0
  }

  /** The handle holds an entry: it is in the cache or somebody refers to it. */
  predicate Live(f: Flags) {
    f.inCache || f.refs > 0
  }

  /** Agents that have emptied the handle and still have to push it: in or outside the section. */
  ghost function Retirers(s: State, h: nat): nat {
    Count(s.tasks, Recycling(h)) + Bit(s.section == Retiring(h))
  }

  /**
   * Every handle is in exactly one place: live, being retired, free in the bin, or being filled; its
   * count is exact; and it has been retired once for every entry it no longer holds.
   */
  ghost predicate HandleOk(s: State, h: nat)
    requires h < |s.flags| == |s.born| == |s.retired|
  {
    && s.flags[h].refs == References(s.tasks, h) + s.clients[h]
    && Bit(Live(s.flags[h])) + Retirers(s, h) + Count(s.recycle, h) + Bit(s.section == Filling(h)) == 1
    && s.born[h] == s.retired[h] + Bit(Live(s.flags[h])) + Retirers(s, h)
  }

  ghost predicate TaskOk(s: State, t: nat)
    requires t < |s.tasks|
  {
    s.tasks[t].Idle? || s.tasks[t].h < |s.flags|
  }

  ghost predicate Inv(s: State) {
    && |s.flags| == |s.born| == |s.retired|
    && (forall t :: 0 <= t < |s.tasks| ==> TaskOk(s, t))
    && (forall h :: h in s.clients ==> h < |s.flags|)
    && (forall h :: h in s.recycle ==> h < |s.flags|)
    && (s.section.Sparing? || s.section.Retiring? || s.section.Filling? ==> s.section.h < |s.flags|)
    && (forall h :: 0 <= h < |s.flags| ==> HandleOk(s, h))
  }

  // ---- every step keeps the invariant ----

  ghost function TaskRefs(task: Task, h: nat): nat {
    Bit(task == Checking(h) || task == SettingUsage(h) || task == Unreffing(h))
  }

  lemma TaskMoves(tasks: seq<Task>, t: nat, task: Task, h: nat)
    requires t < |tasks|
    ensures References(tasks[t := task], h) == References(tasks, h) - TaskRefs(tasks[t], h) + TaskRefs(task, h)
    ensures Count(tasks[t := task], Recycling(h)) ==
            Count(tasks, Recycling(h)) - Bit(tasks[t] == Recycling(h)) + Bit(task == Recycling(h))
    ensures References(tasks, h) >= TaskRefs(tasks[t], h) && Count(tasks, Recycling(h)) >= Bit(tasks[t] == Recycling(h))
  {
    hide Count;
    CountMoves(tasks, t, task, Checking(h));
    CountMoves(tasks, t, task, SettingUsage(h));
    CountMoves(tasks, t, task, Unreffing(h));
    CountMoves(tasks, t, task, Recycling(h));
  }

  ghost predicate ByTask(a: Action) {
    a.LookupFind? || a.TryRef? || a.Accept? || a.Reject? || a.StartRelease? || a.SetUsage? || a.Unref? || a.Recycle?
  }

  lemma EnabledStepsAreSafe(s: State, a: Action)
    requires Inv(s) && Enabled(s, a)
    ensures Safe(s, a)
  {
    if ByTask(a) {
      assert TaskOk(s, a.t);
      if s.tasks[a.t].Idle? { return; }
      var h := s.tasks[a.t].h;
      assert HandleOk(s, h);
      TaskMoves(s.tasks, a.t, Idle, h);
      CountZero(s.recycle, h);
    } else if s.section.Retiring? || s.section.Filling? {
      assert HandleOk(s, s.section.h);
      CountZero(s.recycle, s.section.h);
    }
  }

  /** Steps of a lookup. */
  lemma LookupStepHandle(s: State, a: Action, h: nat)
    requires Inv(s) && Enabled(s, a) && Safe(s, a) && h < |s.flags|
    requires a.LookupFind? || a.TryRef? || a.Accept? || a.Reject?
    ensures var s' := Step(s, a); |s'.flags| == |s.flags| == |s'.born| == |s'.retired| && HandleOk(s', h)
  {
    hide Count, References, TaskOk;
    var s' := Step(s, a);
    assert HandleOk(s, h);
    TaskMoves(s.tasks, a.t, s'.tasks[a.t], h);
    assert s'.tasks == s.tasks[a.t := s'.tasks[a.t]];
  }

  /** Steps of a release, and the recycling that follows the last one. */
  lemma ReleaseStepHandle(s: State, a: Action, h: nat)
    requires Inv(s) && Enabled(s, a) && Safe(s, a) && h < |s.flags|
    requires a.StartRelease? || a.SetUsage? || a.Unref? || a.Recycle?
    ensures var s' := Step(s, a); |s'.flags| == |s.flags| == |s'.born| == |s'.retired| && HandleOk(s', h)
  {
    hide Count, References, TaskOk;
    var s' := Step(s, a);
    assert HandleOk(s, h);
    TaskMoves(s.tasks, a.t, s'.tasks[a.t], h);
    if a.Recycle? { CountPush(s.recycle, s.tasks[a.t].h, h); }
    assert s'.tasks == s.tasks[a.t := s'.tasks[a.t]];
  }

  lemma SectionStepHandle(s: State, a: Action, h: nat)
    requires Inv(s) && Enabled(s, a) && Safe(s, a) && !ByTask(a) && h < |s.flags|
    ensures var s' := Step(s, a); h < |s'.flags| == |s'.born| == |s'.retired| && HandleOk(s', h)
  {
    hide Count, References, TaskOk;
    assert HandleOk(s, h);
    if a.PushRetired? { CountPush(s.recycle, s.section.h, h); }
    if a.TakeHandle? && s.recycle != [] { CountPop(s.recycle, h); }
  }

  lemma OldHandle(s: State, a: Action, h: nat)
    requires Inv(s) && Enabled(s, a) && Safe(s, a) && h < |s.flags|
    ensures var s' := Step(s, a); h < |s'.flags| == |s'.born| == |s'.retired| && HandleOk(s', h)
  {
    hide Inv, Enabled, Safe, Step, HandleOk;
    if a.LookupFind? || a.TryRef? || a.Accept? || a.Reject? {
      LookupStepHandle(s, a, h);
    } else if ByTask(a) {
      ReleaseStepHandle(s, a, h);
    } else {
      SectionStepHandle(s, a, h);
    }
  }

  /** A handle that does not exist yet is nowhere. */
  lemma NewHandle(s: State)
    requires Inv(s) && s.section == Locked && s.recycle == []
    ensures HandleOk(Step(s, TakeHandle), |s.flags|)
  {
    var h := |s.flags|;
    forall t | 0 <= t < |s.tasks|
      ensures s.tasks[t] != Checking(h) && s.tasks[t] != SettingUsage(h) && s.tasks[t] != Unreffing(h) && s.tasks[t] != Recycling(h)
    {
      assert TaskOk(s, t);
    }
    CountZero(s.tasks, Checking(h));
    CountZero(s.tasks, SettingUsage(h));
    CountZero(s.tasks, Unreffing(h));
    CountZero(s.tasks, Recycling(h));
  }

  /** Every handle named anywhere exists. */
  ghost predicate NamesOk(s: State) {
    && |s.flags| == |s.born| == |s.retired|
    && (forall h :: h in s.clients ==> h < |s.flags|)
    && (forall h :: h in s.recycle ==> h < |s.flags|)
    && (s.section.Sparing? || s.section.Retiring? || s.section.Filling? ==> s.section.h < |s.flags|)
  }

  lemma TaskStepNames(s: State, a: Action)
    requires Inv(s) && Enabled(s, a) && Safe(s, a) && ByTask(a)
    ensures NamesOk(Step(s, a)) && TaskOk(Step(s, a), a.t)
  {
    hide HandleOk;
    assert TaskOk(s, a.t);
    assert NamesOk(s);
    hide Inv;
  }

  lemma SectionStepNames(s: State, a: Action)
    requires Inv(s) && Enabled(s, a) && Safe(s, a) && !ByTask(a)
    ensures NamesOk(Step(s, a)) && Step(s, a).tasks == s.tasks && |Step(s, a).flags| >= |s.flags|
  {
    hide HandleOk, TaskOk;
    assert NamesOk(s);
    assert s.recycle != [] ==> s.recycle[|s.recycle| - 1] in s.recycle;
    hide Inv;
    if a.TakeHandle? && s.recycle != [] {
      var s' := Step(s, a);
      var n := |s.recycle| - 1;
      assert s'.recycle == s.recycle[..n] && s'.section == Filling(s.recycle[n]);
      forall h | h in s'.recycle
        ensures h < |s'.flags|
      {
        var i :| 0 <= i < n && s.recycle[..n][i] == h;
        assert s.recycle[i] in s.recycle;
      }
    }
  }

  lemma StepKeepsTasks(s: State, a: Action)
    requires Inv(s) && Enabled(s, a) && Safe(s, a)
    ensures NamesOk(Step(s, a))
    ensures var s' := Step(s, a); forall t :: 0 <= t < |s'.tasks| ==> TaskOk(s', t)
  {
    hide HandleOk, NamesOk, TaskOk;
    var s' := Step(s, a);
    if ByTask(a) { TaskStepNames(s, a); } else { SectionStepNames(s, a); }
    forall t | 0 <= t < |s'.tasks|
      ensures TaskOk(s', t)
    {
      if !(ByTask(a) && t == a.t) { OtherTasksOk(s, a, t); }
    }
  }

  lemma OtherTasksOk(s: State, a: Action, t: nat)
    requires Inv(s) && Enabled(s, a) && Safe(s, a) && t < |s.tasks| && !(ByTask(a) && t == a.t)
    ensures t < |Step(s, a).tasks| && TaskOk(Step(s, a), t)
  {
    assert TaskOk(s, t);
    TasksFollow(s, a);
    hide Inv, Enabled, Safe, Step;
  }

  /** A step changes at most its own task, and handles never go away. */
  lemma TasksFollow(s: State, a: Action)
    requires Enabled(s, a) && Safe(s, a)
    ensures |Step(s, a).tasks| == |s.tasks| && |Step(s, a).flags| >= |s.flags|
    ensures forall t :: 0 <= t < |s.tasks| && !(ByTask(a) && t == a.t) ==> Step(s, a).tasks[t] == s.tasks[t]
  {
  }

  lemma StepKeepsInv(s: State, a: Action)
    requires Inv(s) && Enabled(s, a)
    ensures Safe(s, a) && Inv(Step(s, a))
  {
    hide HandleOk, TaskOk, Safe;
    EnabledStepsAreSafe(s, a);
    StepKeepsTasks(s, a);
    var s' := Step(s, a);
    forall h | 0 <= h < |s'.flags|
      ensures HandleOk(s', h)
    {
      if h >= |s.flags| { NewHandle(s); } else { OldHandle(s, a, h); }
    }
  }

  // ---- whole runs ----

  ghost predicate Runs(s: State, actions: seq<Action>, end: State)
    decreases |actions|
  {
    if actions == [] then end == s
    else Enabled(s, actions[0]) && Safe(s, actions[0]) && Runs(Step(s, actions[0]), actions[1..], end)
  }

  ghost predicate Schedulable(s: State, actions: seq<Action>)
    decreases |actions|
  {
    actions == [] || (Enabled(s, actions[0]) && (Safe(s, actions[0]) ==> Schedulable(Step(s, actions[0]), actions[1..])))
  }

  /** Every interleaving runs to its end without failing an assertion. */
  lemma {:induction false} RunsAreSafe(s: State, actions: seq<Action>) returns (end: State)
    requires Inv(s) && Schedulable(s, actions)
    ensures Runs(s, actions, end) && Inv(end)
    decreases |actions|
  {
    if actions == [] {
      end := s;
    } else {
      StepKeepsInv(s, actions[0]);
      end := RunsAreSafe(Step(s, actions[0]), actions[1..]);
    }
  }

  lemma {:induction false} ReachableInv(s: State, actions: seq<Action>, end: State)
    requires Inv(s) && Runs(s, actions, end)
    ensures Inv(end)
    decreases |actions|
  {
    if actions != [] {
      StepKeepsInv(s, actions[0]);
      ReachableInv(Step(s, actions[0]), actions[1..], end);
    }
  }

  /** The bin holds each free handle once, and never one that is in the cache or referenced. */
  lemma BinHoldsOnlyFreeHandles(s: State, actions: seq<Action>, end: State, h: nat)
    requires Init(s) && Runs(s, actions, end) && h in end.recycle
    ensures h < |end.flags| && !Live(end.flags[h]) && Count(end.recycle, h) == 1 && Retirers(end, h) == 0
  {
    ReachableInv(s, actions, end);
    assert HandleOk(end, h);
    CountZero(end.recycle, h);
  }

  /** Each entry a handle has held was recycled exactly once, or is live, or has one agent retiring it. */
  lemma EachLifeRecycledOnce(s: State, actions: seq<Action>, end: State, h: nat)
    requires Init(s) && Runs(s, actions, end) && h < |end.flags|
    ensures h < |end.born| == |end.retired|
    ensures end.retired[h] <= end.born[h] <= end.retired[h] + 1
    ensures end.born[h] == end.retired[h] + 1 <==> Live(end.flags[h]) || Retirers(end, h) == 1
    ensures Live(end.flags[h]) ==> Retirers(end, h) == 0
  {
    ReachableInv(s, actions, end);
    assert HandleOk(end, h);
  }

  /** A holder of a reference keeps the entry alive: it is neither recycled nor refilled under it. */
  lemma ReferencedIsNotReused(s: State, actions: seq<Action>, end: State, h: nat)
    requires Init(s) && Runs(s, actions, end) && h in end.clients
    ensures h < |end.flags| && end.flags[h].refs > 0 && h !in end.recycle && end.section != Filling(h) && Retirers(end, h) == 0
  {
    ReachableInv(s, actions, end);
    assert HandleOk(end, h);
    CountZero(end.recycle, h);
  }
}
