/** packAllDependencies (packageDependencies.ts:76-122): the walker's state
    as an object, the walk as a method on it, and the run around it. */
module Packer {
  import opened Deps
  import opened Format
  import opened TreeWalk

  /** The state promiseToPack closes over: the scheduled packs (`promises`),
      the spinner position (`index`) and the packed set
      (`packedDependencies`). */
  class Walker {
    var tasks: seq<PackTask>
    var index: nat
    var packed: set<string>

    /** The spinner position always names a glyph. */
    ghost predicate Valid()
      reads this
    {
      index < |Spinner|
    }

    function Snapshot(): State
      reads this
    {
      State(tasks, index, packed)
    }

    constructor ()
      ensures Valid()
      ensures tasks == [] && index == 0 && packed == {}
    {
      tasks := [];
      index := 0;
      packed := {};
    }

    /** promiseToPack. With `record` false this is the loop as the source
        writes it, where `packedDependencies` is read but never added to;
        with `record` true each name is added to it before its pack is
        scheduled. */
    method PromiseToPack(deps: Dependencies, record: bool)
      requires Valid()
      modifies this
      ensures Valid()
      ensures Snapshot() == Apply(old(Snapshot()), Walk(deps, old(packed), record))
      decreases deps, 1
    {
      ghost var start := Snapshot();
      var i := 0;
      while i < |deps.entries|
        invariant i <= |deps.entries|
        invariant Snapshot() == Apply(start, WalkPrefix(deps, i, start.packed, record))
      {
        ghost var done := WalkPrefix(deps, i, start.packed, record);
        Visit(deps, i, record);
        ApplyThen(start, done, WalkAt(deps, i, done.packed, record));
        i := i + 1;
      }
    }

    /** One turn of promiseToPack's loop: advance the spinner and, unless the
        name is packed, schedule its pack and walk its two sub-mappings. */
    method Visit(deps: Dependencies, i: nat, record: bool)
      requires Valid()
      requires i < |deps.entries|
      modifies this
      ensures Snapshot() == Apply(old(Snapshot()), WalkAt(deps, i, old(packed), record))
      decreases deps, 0
    {
      ghost var start := Snapshot();
      var (name, dep) := deps.entries[i];
      var glyph := Spinner[index];
      index := (index + 1) % |Spinner|;
      if name !in packed {
        if record {
          packed := packed + {name};
        }
        tasks := tasks + [PackTask(name, dep.version, |tasks| + 1)];
        ghost var self := WalkResult([Target(name, dep.version)], packed, 1);
        assert Numbered(self.targets, |start.tasks|) == [PackTask(name, dep.version, |start.tasks| + 1)];
        assert Snapshot() == Apply(start, self);
        ghost var below := WalkOptional(dep.dependencies, packed, record);
        PromiseToPackOptional(dep.dependencies, record);
        ApplyThen(start, self, below);
        ghost var optional := WalkOptional(dep.optionalDependencies, packed, record);
        PromiseToPackOptional(dep.optionalDependencies, record);
        ApplyThen(start, Then(self, below), optional);
      } else {
        assert Numbered([], |start.tasks|) == [];
      }
    }

    /** `if (subDependencies) promiseToPack(subDependencies)`. */
    method PromiseToPackOptional(o: Option<Dependencies>, record: bool)
      requires Valid()
      modifies this
      ensures Snapshot() == Apply(old(Snapshot()), WalkOptional(o, old(packed), record))
      decreases o, 2
    {
      match o {
        case None =>
          assert Numbered([], |tasks|) == [];
        case Some(sub) =>
          PromiseToPack(sub, record);
      }
    }
  }

  /** packAllDependencies without its I/O: take the listing's top-level
      mapping (the run aborts when there is none), walk it from an empty
      packed set as the source does, and return the scheduled packs, whose
      number is the total the run reports. */
  method PackAllDependencies(output: Output) returns (r: Result<seq<PackTask>, string>)
    ensures r.Failure? <==> output.dependencies.None?
    ensures r.Failure? ==> r.error == NoDependenciesFound
    ensures r.Success? ==> r.value == Numbered(Walk(output.dependencies.value, {}, false).targets, 0)
    ensures r.Success? ==> |r.value| == EntryCount(output.dependencies.value)
    ensures r.Success? ==> forall k :: 0 <= k < |r.value| ==> r.value[k].index == k + 1
  {
    match GetDependencies(output) {
      case Failure(e) =>
        r := Failure(e);
      case Success(deps) =>
        var walker := new Walker();
        walker.PromiseToPack(deps, false);
        WalkPacksEveryEntry(deps);
        r := Success(walker.tasks);
    }
  }

  // ---------------------------------------------------------------------
  // What the run prints once the packs settle

  /** How one call of `npm pack` ended; `message` is the process error. */
  datatype PackOutcome = Packed | Failed(message: string)

  /** The rejection value of execCommand. */
  function ExecutionError(message: string): string {
    "Execution error: " + message
  }

  /** The lines packDependency logs for one scheduled pack; a failure is
      logged and swallowed. */
  function PackLog(task: PackTask, outcome: PackOutcome): seq<string> {
    match outcome
    case Packed => [SuccessLine(task.index, task.name, task.version)]
    case Failed(message) => ["Failed to pack " + task.name, ExecutionError(message)]
  }

  /** A successful pack logs one line that reads back as the task's index,
      name and shown version (for the names the registry allows, which have
      no `:`); a failed one logs two lines, the first ending in the package's
      name, and neither of them reads as a success line. */
  lemma PackLogReportsTask(task: PackTask, outcome: PackOutcome)
    ensures outcome.Packed? && (forall k :: 0 <= k < |task.name| ==> task.name[k] != ':') ==>
      |PackLog(task, outcome)| == 1 &&
      ParseSuccessLine(PackLog(task, outcome)[0]) == Some((task.index, task.name, Shown(task.version)))
    ensures outcome.Failed? ==>
      var log := PackLog(task, outcome);
      && |log| == 2
      && |task.name| <= |log[0]| && log[0][|log[0]| - |task.name|..] == task.name
      && ParseSuccessLine(log[0]) == None
      && ParseSuccessLine(log[1]) == None
  {
    match outcome {
      case Packed =>
        if forall k :: 0 <= k < |task.name| ==> task.name[k] != ':' {
          SuccessLineRoundTrip(task.index, task.name, task.version);
        }
      case Failed(message) =>
        var log := PackLog(task, outcome);
        assert log[0][..3] == "Fai";
        assert log[1][..3] == "Exe";
    }
  }

  /** The closing line, which reports `promises.length`. */
  function PackedLine(total: nat): string {
    Decimal(total) + " dependencies packed"
  }

  function SuccessCount(outcomes: seq<PackOutcome>): nat {
    if outcomes == [] then 0
    else (if outcomes[0].Packed? then 1 else 0) + SuccessCount(outcomes[1..])
  }

  lemma {:induction false} SuccessCountBound(outcomes: seq<PackOutcome>)
    ensures SuccessCount(outcomes) <= |outcomes|
    ensures SuccessCount(outcomes) == |outcomes| <==> forall k :: 0 <= k < |outcomes| ==> outcomes[k].Packed?
    decreases |outcomes|
  {
    if outcomes != [] {
      SuccessCountBound(outcomes[1..]);
      if outcomes[0].Packed? {
        forall k | 0 < k < |outcomes| ensures outcomes[k] == outcomes[1..][k - 1] { }
      }
    }
  }

  lemma DecimalInjective(a: nat, b: nat)
    ensures Decimal(a) == Decimal(b) <==> a == b
  {
    DecimalRoundTrip(a);
    DecimalRoundTrip(b);
  }

  /** The closing line counts attempts: it reports the number of successful
      packs exactly when no pack failed, and never fewer than succeeded. */
  lemma ReportCountsAttempts(tasks: seq<PackTask>, outcomes: seq<PackOutcome>)
    requires |outcomes| == |tasks|
    ensures SuccessCount(outcomes) <= |tasks|
    ensures PackedLine(|tasks|) == PackedLine(SuccessCount(outcomes))
            <==> forall k :: 0 <= k < |outcomes| ==> outcomes[k].Packed?
  {
    SuccessCountBound(outcomes);
    var a, b := Decimal(|tasks|), Decimal(SuccessCount(outcomes));
    DecimalInjective(|tasks|, SuccessCount(outcomes));
    if PackedLine(|tasks|) == PackedLine(SuccessCount(outcomes)) {
      var tail := " dependencies packed";
      assert a + tail == b + tail;
      assert a == (a + tail)[..|a + tail| - |tail|];
      assert b == (b + tail)[..|b + tail| - |tail|];
    }
  }
}
