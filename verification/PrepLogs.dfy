/** Which write-ahead logs still hold prepared, unfinished transactions: a min-heap with lazy deletion. */
module PrepLogs {
  /** Prepare marks not yet answered by a flush mark. */
  function Outstanding(prepared: multiset<nat>, flushed: multiset<nat>): multiset<nat> {
    prepared - flushed
  }

  /** The least log with an outstanding prepare, or 0 when there is none. */
  ghost predicate IsLeastOutstanding(log: nat, outstanding: multiset<nat>) {
    if outstanding == multiset{} then log == 0
    else log in outstanding && forall other :: other in outstanding ==> log <= other
  }

  lemma LeastExists(bag: multiset<nat>) returns (least: nat)
    requires bag != multiset{}
    ensures least in bag && forall x :: x in bag ==> least <= x
    decreases |bag|
  {
    least :| least in bag;
    var rest := bag - multiset{least};
    if rest == multiset{} {
      assert bag == multiset{least};
    } else {
      var m := LeastExists(rest);
      assert forall x :: x in bag ==> x == least || x in rest;
      least := if m < least then m else least;
    }
  }

  ghost predicate IsTop(heap: multiset<nat>, top: nat) {
    top in heap && forall other :: other in heap ==> top <= other
  }

  /** `priority_queue::top` of a heap whose least element comes first. */
  method Top(heap: multiset<nat>) returns (top: nat)
    requires heap != multiset{}
    ensures top in heap && IsTop(heap, top)
  {
    ghost var least := LeastExists(heap);
    top :| top in heap && forall other :: other in heap ==> top <= other;
  }

  ghost function Pending(completed: map<nat, nat>, log: nat): nat {
    if log in completed then completed[log] else 0
  }

  /** The heap is ahead of the outstanding prepares by exactly the deletions not yet carried out. */
  ghost predicate Books(heap: multiset<nat>, completed: map<nat, nat>, prepared: multiset<nat>, flushed: multiset<nat>) {
    && flushed <= prepared && 0 !in prepared
    && (forall log :: log in prepared ==> log in completed)
    && (forall log: nat :: heap[log] + flushed[log] == prepared[log] + Pending(completed, log))
  }

  lemma PopKeepsBooks(heap: multiset<nat>, completed: map<nat, nat>, prepared: multiset<nat>, flushed: multiset<nat>, log: nat)
    requires Books(heap, completed, prepared, flushed) && log in heap && log in completed && completed[log] > 0
    ensures Books(heap - multiset{log}, completed[log := completed[log] - 1], prepared, flushed)
    ensures |heap - multiset{log}| == |heap| - 1
  {
  }

  lemma PushKeepsBooks(heap: multiset<nat>, completed: map<nat, nat>, prepared: multiset<nat>, flushed: multiset<nat>, log: nat)
    requires Books(heap, completed, prepared, flushed) && log != 0
    ensures Books(heap + multiset{log}, if log in completed then completed else completed[log := 0],
                  prepared + multiset{log}, flushed)
  {
  }

  lemma FlushKeepsBooks(heap: multiset<nat>, completed: map<nat, nat>, prepared: multiset<nat>, flushed: multiset<nat>, log: nat)
    requires Books(heap, completed, prepared, flushed) && log in Outstanding(prepared, flushed)
    ensures log != 0 && log in completed
    ensures Books(heap, completed[log := completed[log] + 1], prepared, flushed + multiset{log})
  {
    assert log in prepared;
  }

  /** A top with no deletion pending is the least outstanding log. */
  lemma CleanTopIsLeast(heap: multiset<nat>, completed: map<nat, nat>, prepared: multiset<nat>, flushed: multiset<nat>, top: nat)
    requires Books(heap, completed, prepared, flushed)
    requires IsTop(heap, top) && Pending(completed, top) == 0
    ensures IsLeastOutstanding(top, Outstanding(prepared, flushed))
  {
    assert heap[top] + flushed[top] == prepared[top];
    forall other | other in Outstanding(prepared, flushed)
      ensures top <= other
    {
      assert heap[other] + flushed[other] == prepared[other] + Pending(completed, other);
    }
  }

  lemma EmptyHeapMeansNone(heap: multiset<nat>, completed: map<nat, nat>, prepared: multiset<nat>, flushed: multiset<nat>)
    requires heap == multiset{} && Books(heap, completed, prepared, flushed)
    ensures IsLeastOutstanding(0, Outstanding(prepared, flushed))
  {
    forall log: nat
      ensures log !in Outstanding(prepared, flushed)
    {
      assert heap[log] + flushed[log] == prepared[log] + Pending(completed, log);
    }
  }

  class PrepTracker {
    const allow2pc: bool
    // The heap: a bag of log numbers of which only the least can be seen or removed.
    var minLogWithPrep: multiset<nat>
    var preparedSectionCompleted: map<nat, nat>

    /** Every mark made so far. */
    ghost var prepared: multiset<nat>
    ghost var flushed: multiset<nat>

    ghost predicate Valid()
      reads this
    {
      Books(minLogWithPrep, preparedSectionCompleted, prepared, flushed)
    }

    constructor (allow2pc: bool)
      ensures Valid() && prepared == multiset{} && flushed == multiset{} && this.allow2pc == allow2pc
    {
      this.allow2pc := allow2pc;
      minLogWithPrep, preparedSectionCompleted := multiset{}, map[];
      prepared, flushed := multiset{}, multiset{};
    }

    method MarkLogAsContainingPrepSection(log: nat)
      requires Valid() && log != 0
      modifies this
      ensures Valid() && prepared == old(prepared) + multiset{log} && flushed == old(flushed)
    {
      hide Books;
      PushKeepsBooks(minLogWithPrep, preparedSectionCompleted, prepared, flushed, log);
      minLogWithPrep := minLogWithPrep + multiset{log};
      if log !in preparedSectionCompleted {
        preparedSectionCompleted := preparedSectionCompleted[log := 0];
      }
      prepared := prepared + multiset{log};
    }

    /** A flush mark answers an earlier prepare mark of the same log. */
    method MarkLogAsHavingPrepSectionFlushed(log: nat)
      requires Valid() && log in Outstanding(prepared, flushed)
      modifies this
      ensures Valid() && flushed == old(flushed) + multiset{log} && prepared == old(prepared)
    {
      hide Books;
      FlushKeepsBooks(minLogWithPrep, preparedSectionCompleted, prepared, flushed, log);
      assert log != 0 && log in preparedSectionCompleted;
      preparedSectionCompleted := preparedSectionCompleted[log := preparedSectionCompleted[log] + 1];
      flushed := flushed + multiset{log};
    }

    /** Carries out one pending deletion of the log at the top. */
    method DeleteTop(top: nat)
      requires Valid() && top in minLogWithPrep
      requires top in preparedSectionCompleted && preparedSectionCompleted[top] > 0
      modifies this`minLogWithPrep, this`preparedSectionCompleted
      ensures Valid()
      ensures minLogWithPrep == old(minLogWithPrep) - multiset{top} && |minLogWithPrep| == |old(minLogWithPrep)| - 1
      ensures preparedSectionCompleted == old(preparedSectionCompleted)[top := old(preparedSectionCompleted[top]) - 1]
    {
      hide Books;
      PopKeepsBooks(minLogWithPrep, preparedSectionCompleted, prepared, flushed, top);
      preparedSectionCompleted := preparedSectionCompleted[top := preparedSectionCompleted[top] - 1];
      minLogWithPrep := minLogWithPrep - multiset{top};
    }

    /** Carries out pending deletions at the top, then reads the top. */
    method FindMinLogContainingOutstandingPrep() returns (minLog: nat)
      requires Valid()
      modifies this`minLogWithPrep, this`preparedSectionCompleted
      ensures Valid()
      ensures allow2pc ==> IsLeastOutstanding(minLog, Outstanding(prepared, flushed))
      ensures !allow2pc ==> minLog == 0
    {
      minLog := 0;
      if !allow2pc {
        return;
      }
      hide Books, IsLeastOutstanding, IsTop, Outstanding;
      while minLogWithPrep != multiset{}
        invariant Valid() && minLog == 0
        decreases |minLogWithPrep|
      {
        minLog := Top(minLogWithPrep);
        if minLog in preparedSectionCompleted && preparedSectionCompleted[minLog] > 0 {
          DeleteTop(minLog);
          minLog := 0;
        } else {
          CleanTopIsLeast(minLogWithPrep, preparedSectionCompleted, prepared, flushed, minLog);
          return;
        }
      }
      EmptyHeapMeansNone(minLogWithPrep, preparedSectionCompleted, prepared, flushed);
    }

    /** No log at or above the result is needed less than the three sources say, and one of them is exact. */
    method MinLogNumberToKeep(logNumber: nat, memtableLogs: seq<nat>) returns (keep: nat)
      requires Valid()
      modifies this`minLogWithPrep, this`preparedSectionCompleted
      ensures Valid()
      ensures keep <= logNumber
      ensures allow2pc ==> forall log :: log in Outstanding(prepared, flushed) ==> keep <= log
      ensures allow2pc ==> forall log :: log in memtableLogs && log != 0 ==> keep <= log
      ensures keep == logNumber || (allow2pc && (keep in Outstanding(prepared, flushed) || keep in memtableLogs))
    {
      keep := logNumber;
      if allow2pc {
        var inHeap := FindMinLogContainingOutstandingPrep();
        if inHeap != 0 && inHeap < keep {
          keep := inHeap;
        }
        forall log | log in Outstanding(prepared, flushed)
          ensures keep <= log
        {
          assert log != 0;
        }
        var byMem := FindMinPrepLogReferencedByMemTable(memtableLogs);
        if byMem != 0 && byMem < keep {
          keep := byMem;
        }
      }
    }
  }

  /** The least nonzero log a live memtable refers to. */
  method FindMinPrepLogReferencedByMemTable(logs: seq<nat>) returns (minLog: nat)
    ensures minLog == 0 <==> forall log :: log in logs ==> log == 0
    ensures minLog != 0 ==> minLog in logs && forall log :: log in logs && log != 0 ==> minLog <= log
  {
    minLog := 0;
    for i := 0 to |logs|
      invariant minLog == 0 <==> forall log :: log in logs[..i] ==> log == 0
      invariant minLog != 0 ==> minLog in logs[..i] && forall log :: log in logs[..i] && log != 0 ==> minLog <= log
    {
      if logs[i] > 0 && (minLog == 0 || logs[i] < minLog) {
        minLog := logs[i];
      }
      assert logs[..i + 1] == logs[..i] + [logs[i]];
      assert logs[i] in logs[..i + 1] && forall log :: log in logs[..i] ==> log in logs[..i + 1];
    }
    assert logs[..|logs|] == logs;
  }
}
