/** A compaction built from its input files: what the flags and tests computed from files say about records. */
module CompactionJobs {
  import opened Records
  import opened Snapshots
  import opened LevelFiles
  import opened CompactionPlan
  import opened CompactionSteps
  import opened SingleDeleteReads
  import opened CompactionOrder
  import opened CompactionTheorems

  /** Every record lies in one of the files. */
  ghost predicate StoredIn(files: set<File>, input: seq<Record>) {
    forall i :: 0 <= i < |input| ==> exists f :: f in files && Covers(f, input[i].key)
  }

  /** Deeper records live in files: each is inside a file below the output level. */
  ghost predicate StoredBelow(p: Plan, deeper: seq<Record>) {
    forall r :: r in deeper ==> !NoDeeperFile(p.levels, p.outputLevel, r.key)
  }

  /** A job over `inputs`: its plan comes from them, its records from their files. */
  ghost predicate PlannedJob(s: Setting, inputs: seq<InputFiles>, input: seq<Record>) {
    && JobSetting(s) && s.plan.Some? && BuiltFor(s.plan.value, inputs)
    && Sorted(input) && Sequenced(input) && StoredIn(FilesOf(inputs), input)
  }

  /** The bottommost flag computed from the input files may be trusted for every input record. */
  lemma FlagIsHonest(s: Setting, inputs: seq<InputFiles>, input: seq<Record>)
    requires PlannedJob(s, inputs, input)
    ensures BottommostHonest(s, input)
  {
    var p := s.plan.value;
    if p.bottommost && !p.universal {
      forall i | 0 <= i < |input|
        ensures NotBeyond(p, input[i].key)
      {
        var f :| f in FilesOf(inputs) && Covers(f, input[i].key);
        BottommostCovers(p, inputs, f, input[i].key);
      }
    }
  }

  /** When everything behind the inputs lies below the output level, the level test is honest for input keys. */
  lemma LevelTestIsHonest(s: Setting, inputs: seq<InputFiles>, input: seq<Record>, deeper: seq<Record>, key: int)
    requires PlannedJob(s, inputs, input) && StoredBelow(s.plan.value, deeper) && HasKey(input, key)
    ensures LevelTestHonest(s, deeper, key)
  {
    var p := s.plan.value;
    if NotBeyond(p, key) {
      if p.universal {
        var i :| 0 <= i < |input| && input[i].key == key;
        var f :| f in FilesOf(inputs) && Covers(f, input[i].key);
        BottommostCovers(p, inputs, f, key);
      }
      assert NoDeeperFile(p.levels, p.outputLevel, key);
    }
  }

  /** Every live read of every key within its contract survives, for a plan computed from the input files. */
  lemma JobPreservesReads(s: Setting, inputs: seq<InputFiles>, input: seq<Record>, deeper: seq<Record>, key: int, at: nat)
    requires PlannedJob(s, inputs, input) && StoredBelow(s.plan.value, deeper) && Live(s.snapshots, at)
    requires UsageContract(s, input, deeper, key)
    ensures Read(Compacted(s, input) + deeper, key, at) == Read(input + deeper, key, at)
  {
    if HasKey(input, key) {
      LevelTestIsHonest(s, inputs, input, deeper, key);
      CompactionPreservesReads(s, input, deeper, key, at);
    } else {
      RunAddsNoKeys(s, START, input, true, key);
      VisibleOnlyIfPresent(input, key, at);
      VisibleOnlyIfPresent(Compacted(s, input), key, at);
      VisibleAppend(input, deeper, key, at);
      VisibleAppend(Compacted(s, input), deeper, key, at);
    }
  }

  /** Its output is strictly sorted, squashed sequence numbers included. */
  lemma JobOutputIsSorted(s: Setting, inputs: seq<InputFiles>, input: seq<Record>)
    requires PlannedJob(s, inputs, input) && StrictlySorted(input)
    ensures StrictlySorted(Compacted(s, input))
  {
    if Earliest(s.snapshots) == 0 {
      RunStrictlySortedAtZero(s, START, input, true);
    } else {
      FlagIsHonest(s, inputs, input);
      EveryVersionIsPastZero(s, input);
      RunStrictlySorted(s, START, input, true);
    }
  }

  lemma EveryVersionIsPastZero(s: Setting, input: seq<Record>)
    requires ValidSetting(s) && Sequenced(input) && Earliest(s.snapshots) > 0
    ensures EveryVersionCounts(s, input)
  {
    forall i | 0 <= i < |input|
      ensures Stripe(s.snapshots, input[i].sequence) > 0
    {
      SequencedAt(input, i);
      EarliestStripe(s.snapshots, input[i].sequence);
    }
  }
}
