/** One run of one upgrade recipe (b2share/modules/upgrade/api.py).

    Every run leaves a row in the migration table whose log says how far it got. The default
    condition of a step reads the log of the newest failed row only. `RowOfRun` is the row a run
    leaves, whatever happens at its steps, and `Effects` the steps that it applied. */
module UpgradeRun {
  import opened Options
  import opened Sequences
  import opened UpgradePath

  /** A registered step. `custom` marks a step that was given a condition of its own. */
  datatype Step = Step(name: string, custom: bool)

  datatype StepStatus = Start | Success | Skip | Error

  datatype StepLog = StepLog(name: string, status: StepStatus)

  datatype Status = Started | Failed | Succeeded

  /** A row of the migration table. */
  datatype Migration = Migration(version: Version, steps: seq<StepLog>, status: Status)

  /** What happens at a step of a run, decided outside: `Breaks` raises before the step function
      is reached (closing the connection, or in a custom condition); else a custom condition
      answers `holds`, and the step function, if called, finishes or raises. */
  datatype Event = Breaks | Goes(holds: bool, finishes: bool)

  /** The events at the steps of one run. Steps that are not listed go well. */
  type Events = seq<Event>

  function EventAt(events: Events, k: nat): Event {
    if k < |events| then events[k] else Goes(true, true)
  }

  /** The steps of each recipe, by source and target version. */
  type Plan = map<(Version, Version), seq<Step>>

  function Names(steps: seq<Step>): seq<string> {
    seq(|steps|, i requires 0 <= i < |steps| => steps[i].name)
  }

  ghost predicate DistinctNames(steps: seq<Step>) {
    NoRepeat(Names(steps))
  }

  lemma {:induction false} NamesApart(steps: seq<Step>, i: nat, j: nat)
    requires DistinctNames(steps) && i < j < |steps|
    ensures steps[i].name != steps[j].name
  {
    NoRepeatApart(Names(steps), i, j);
  }

  lemma {:induction false} NamesSnoc(steps: seq<Step>, step: Step)
    requires DistinctNames(steps) && forall i :: 0 <= i < |steps| ==> steps[i].name != step.name
    ensures DistinctNames(steps + [step])
  {
    NoRepeatSnoc(Names(steps), step.name);
    assert Names(steps + [step]) == Names(steps) + [step.name];
  }

  // ---------------------------------------------------------------------------------------
  // One run of one recipe
  // ---------------------------------------------------------------------------------------

  /** The first log entry of a step; the length of the log when there is none. */
  function EntryOf(log: seq<StepLog>, name: string): (i: nat)
    ensures i <= |log|
    ensures i < |log| ==> log[i].name == name
    ensures forall j :: 0 <= j < i ==> log[j].name != name
  {
    if log == [] || log[0].name == name then 0 else 1 + EntryOf(log[1..], name)
  }

  predicate DefaultCondition(target: Version, name: string, failed: Option<Migration>) {
    if failed.Some? && failed.value.version == target then
      var i := EntryOf(failed.value.steps, name);
      i == |failed.value.steps| || failed.value.steps[i].status !in {Success, Skip}
    else true
  }

  function Outcome(step: Step, target: Version, failed: Option<Migration>, event: Event): StepStatus {
    if event.Breaks? then Error
    else if !(if step.custom then event.holds else DefaultCondition(target, step.name, failed)) then Skip
    else if event.finishes then Success
    else Error
  }

  /** The first step from `k` on that fails; the number of steps when none does. */
  function FailsAt(steps: seq<Step>, target: Version, failed: Option<Migration>, events: Events, k: nat): (f: nat)
    requires k <= |steps|
    ensures k <= f <= |steps|
    decreases |steps| - k
  {
    if k == |steps| || Outcome(steps[k], target, failed, EventAt(events, k)) == Error then k
    else FailsAt(steps, target, failed, events, k + 1)
  }

  /** The entries of the first `n` steps of a run, when none of them fails. */
  function DoneLog(steps: seq<Step>, target: Version, failed: Option<Migration>, events: Events, n: nat): (log: seq<StepLog>)
    requires n <= |steps|
    ensures |log| == n
  {
    if n == 0 then []
    else
      DoneLog(steps, target, failed, events, n - 1)
      + [StepLog(steps[n - 1].name, Outcome(steps[n - 1], target, failed, EventAt(events, n - 1)))]
  }

  lemma {:induction false} DoneLogAt(steps: seq<Step>, target: Version, failed: Option<Migration>, events: Events, n: nat, i: nat)
    requires i < n <= |steps|
    ensures DoneLog(steps, target, failed, events, n)[i] ==
            StepLog(steps[i].name, Outcome(steps[i], target, failed, EventAt(events, i)))
  {
    if i < n - 1 {
      DoneLogAt(steps, target, failed, events, n - 1, i);
    }
  }

  /** The row a run leaves: an entry for each step that did not fail; then, for the step that
      failed, the entry it began with and a second one. */
  function RowOfRun(steps: seq<Step>, target: Version, failed: Option<Migration>, events: Events): Migration {
    var f := FailsAt(steps, target, failed, events, 0);
    var done := DoneLog(steps, target, failed, events, f);
    if f == |steps| then Migration(target, done, Succeeded)
    else Migration(target, done + [StepLog(steps[f].name, Start), StepLog(steps[f].name, Error)], Failed)
  }

  /** How many steps of its recipe a row shows as done. */
  function Reached(m: Migration): nat {
    if m.status == Succeeded || |m.steps| < 2 then |m.steps| else |m.steps| - 2
  }

  /** A step function that returned, as part of the upgrade to `version`. */
  datatype Effect = Effect(version: Version, step: Step)

  function EffectsOfLog(steps: seq<Step>, version: Version, log: seq<StepLog>): seq<Effect>
    requires |log| <= |steps|
  {
    if log == [] then []
    else
      var k := |log| - 1;
      EffectsOfLog(steps, version, log[..k]) + if log[k].status == Success then [Effect(version, steps[k])] else []
  }

  lemma LogGrows(steps: seq<Step>, version: Version, log: seq<StepLog>, outcome: StepStatus)
    requires |log| < |steps|
    ensures EffectsOfLog(steps, version, log + [StepLog(steps[|log|].name, outcome)]) ==
            EffectsOfLog(steps, version, log) + if outcome == Success then [Effect(version, steps[|log|])] else []
  {
    var entry := StepLog(steps[|log|].name, outcome);
    assert (log + [entry])[..|log|] == log;
  }

  /** The step functions that returned in the run that left the row `m`. */
  function Effects(steps: seq<Step>, m: Migration): seq<Effect> {
    if Reached(m) <= |steps| then EffectsOfLog(steps, m.version, m.steps[..Reached(m)]) else []
  }

  /** The row a run leaves, from the entries of the steps that did not fail. */
  function RowOfLog(steps: seq<Step>, target: Version, log: seq<StepLog>): Migration {
    var f := |log|;
    if f >= |steps| then Migration(target, log, Succeeded)
    else Migration(target, log + [StepLog(steps[f].name, Start), StepLog(steps[f].name, Error)], Failed)
  }

  lemma LogOfRun(steps: seq<Step>, target: Version, failed: Option<Migration>, events: Events, log: seq<StepLog>)
    requires |log| == FailsAt(steps, target, failed, events, 0) && log == DoneLog(steps, target, failed, events, |log|)
    ensures RowOfRun(steps, target, failed, events) == RowOfLog(steps, target, log)
    ensures Effects(steps, RowOfLog(steps, target, log)) == EffectsOfLog(steps, target, log)
  {
    assert RowOfLog(steps, target, log).steps[..|log|] == log;
  }

  /** The parts of the database the upgrades touch: the migration table, oldest row first, and
      the step functions that have returned. */
  class Database {
    var migrations: seq<Migration>
    var applied: seq<Effect>

    constructor (migrations: seq<Migration>)
      ensures this.migrations == migrations && applied == []
    {
      this.migrations, applied := migrations, [];
    }

    /** The body of the `try` of a run: what becomes of one step. */
    method Attempt(step: Step, target: Version, failed: Option<Migration>, event: Event) returns (outcome: StepStatus)
      modifies this`applied
      ensures outcome == Outcome(step, target, failed, event)
      ensures applied == old(applied) + if outcome == Success then [Effect(target, step)] else []
    {
      if event.Breaks? {
        return Error;
      }
      if !(if step.custom then event.holds else DefaultCondition(target, step.name, failed)) {
        return Skip;
      }
      if !event.finishes {
        return Error;
      }
      applied := applied + [Effect(target, step)];
      return Success;
    }

    /** The loop of a run: the entries of the steps that did not fail. The row is saved after
        every step. */
    method RunSteps(steps: seq<Step>, target: Version, failed: Option<Migration>, events: Events, before: seq<Migration>)
        returns (log: seq<StepLog>)
      modifies this
      ensures |log| == FailsAt(steps, target, failed, events, 0)
      ensures log == DoneLog(steps, target, failed, events, |log|)
      ensures applied == old(applied) + EffectsOfLog(steps, target, log)
    {
      log := [];
      for k := 0 to |steps|
        invariant |log| == k && FailsAt(steps, target, failed, events, k) == FailsAt(steps, target, failed, events, 0)
        invariant log == DoneLog(steps, target, failed, events, k)
        invariant applied == old(applied) + EffectsOfLog(steps, target, log)
      {
        var outcome := Attempt(steps[k], target, failed, EventAt(events, k));
        if outcome == Error {
          return;
        }
        LogGrows(steps, target, log, outcome);
        log := log + [StepLog(steps[k].name, outcome)];
        migrations := before + [Migration(target, log, Started)];
      }
    }

    /** `UpgradeRecipe.run`; false when it raises. */
    method Run(steps: seq<Step>, target: Version, failed: Option<Migration>, events: Events) returns (ok: bool)
      modifies this
      ensures var row := RowOfRun(steps, target, failed, events);
              && migrations == old(migrations) + [row]
              && applied == old(applied) + Effects(steps, row)
              && (ok <==> row.status == Succeeded)
    {
      var before := migrations;
      migrations := before + [Migration(target, [], Started)];
      var log := RunSteps(steps, target, failed, events, before);
      LogOfRun(steps, target, failed, events, log);
      ok := |log| == |steps|;
      if ok {
        migrations := before + [Migration(target, log, Succeeded)];
      } else {
        var name := steps[|log|].name;
        migrations := before + [Migration(target, log + [StepLog(name, Start), StepLog(name, Error)], Failed)];
      }
    }
  }
}
