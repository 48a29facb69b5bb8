/** What any sequence of failing and repeated upgrades leaves behind
    (b2share/modules/upgrade/api.py). */
module UpgradeHistory {
  import opened Options
  import opened Sequences
  import opened UpgradePath
  import opened UpgradeRun

  function StepsOf(plan: Plan, src: Version, dst: Version): seq<Step> {
    if (src, dst) in plan then plan[(src, dst)] else []
  }

  ghost predicate NamesDistinct(plan: Plan) {
    forall e :: e in plan ==> DistinctNames(plan[e])
  }

  /** The steps of the `d`-th recipe of a path. */
  function StepsAt(plan: Plan, src: Version, p: Walk, d: nat): seq<Step>
    requires d < |p|
  {
    StepsOf(plan, if d == 0 then src else p[d - 1], p[d])
  }

  // ---------------------------------------------------------------------------------------
  // Reading a table back: the progress its rows stand for
  // ---------------------------------------------------------------------------------------

  /** How many steps the newest failed row marks as done. */
  function Marked(last: Option<Migration>): nat {
    if last.Some? then Reached(last.value) else 0
  }

  /** `m` is a row that a run of the recipe with these steps can leave when `last` is the newest
      failed row of this recipe: a step with the default condition is skipped if and only if
      `last` marks it. */
  ghost predicate RowOf(steps: seq<Step>, version: Version, last: Option<Migration>, m: Migration) {
    && m.version == version && Reached(m) <= |steps|
    && ((m.status == Succeeded && Reached(m) == |steps|) || FailedRow(steps, m))
    && forall i :: 0 <= i < Reached(m) ==> EntryFor(steps[i], i < Marked(last), m.steps[i])
  }

  ghost predicate EntryFor(step: Step, marked: bool, entry: StepLog) {
    && entry.name == step.name
    && entry.status in {Success, Skip}
    && (!step.custom ==> (entry.status == Skip <==> marked))
  }

  ghost predicate FailedRow(steps: seq<Step>, m: Migration) {
    var f := Reached(m);
    && m.status == Failed && |m.steps| == f + 2 && f < |steps|
    && m.steps[f] == StepLog(steps[f].name, Start)
    && m.steps[f + 1] == StepLog(steps[f].name, Error)
  }

  /** Where a phase of upgrades stands: `done` recipes of the path have succeeded; `last` is the
      newest failed row of the next one, and `reach` the furthest any of its runs has got. */
  datatype Cursor = Cursor(done: nat, last: Option<Migration>, reach: nat)

  ghost function Advance(plan: Plan, src: Version, p: Walk, c: Cursor, m: Migration): Option<Cursor> {
    if c.done < |p| && RowOf(StepsAt(plan, src, p, c.done), p[c.done], c.last, m) then
      if m.status == Succeeded then Some(Cursor(c.done + 1, None, 0))
      else Some(Cursor(c.done, Some(m), if Reached(m) > c.reach then Reached(m) else c.reach))
    else None
  }

  /** The progress of the rows added since the search first answered `p`; None if the rows do
      not follow the path. */
  ghost function Replay(plan: Plan, src: Version, p: Walk, rows: seq<Migration>): Option<Cursor> {
    if rows == [] then Some(Cursor(0, None, 0))
    else
      var c := Replay(plan, src, p, rows[..|rows| - 1]);
      if c.None? then None else Advance(plan, src, p, c.value, rows[|rows| - 1])
  }

  lemma {:induction false} ReplaySnoc(plan: Plan, src: Version, p: Walk, rows: seq<Migration>, m: Migration)
    ensures var c := Replay(plan, src, p, rows);
            Replay(plan, src, p, rows + [m]) == if c.None? then None else Advance(plan, src, p, c.value, m)
  {
    assert (rows + [m])[..|rows|] == rows;
  }

  /** The marks of a failed row are those of its recipe's steps, and never past its failure. */
  ghost predicate Sound(plan: Plan, src: Version, p: Walk, c: Cursor) {
    && c.done <= |p|
    && Marked(c.last) <= c.reach
    && (c.done == |p| ==> c.last.None? && c.reach == 0)
    && (c.last.Some? ==> c.done < |p| && FailedRowOf(StepsAt(plan, src, p, c.done), p[c.done], c.last.value))
    && (c.done < |p| ==> c.reach <= |StepsAt(plan, src, p, c.done)|)
  }

  /** What the default condition can read from a failed row. */
  ghost predicate FailedRowOf(steps: seq<Step>, version: Version, m: Migration) {
    && m.version == version && FailedRow(steps, m)
    && forall i :: 0 <= i < Reached(m) ==> m.steps[i].name == steps[i].name && m.steps[i].status in {Success, Skip}
  }

  lemma {:induction false} ReplayIsSound(plan: Plan, src: Version, p: Walk, rows: seq<Migration>)
    requires Replay(plan, src, p, rows).Some?
    ensures Sound(plan, src, p, Replay(plan, src, p, rows).value)
  {
    if rows != [] {
      ReplayIsSound(plan, src, p, rows[..|rows| - 1]);
    }
  }

  /** The first entry of a step tells whether an earlier run got past it. */
  lemma {:induction false} DefaultConditionReadsMarks(steps: seq<Step>, version: Version, last: Migration, i: nat)
    requires DistinctNames(steps) && FailedRowOf(steps, version, last) && i < |steps|
    ensures DefaultCondition(version, steps[i].name, Some(last)) <==> Reached(last) <= i
  {
    var k, f := EntryOf(last.steps, steps[i].name), Reached(last);
    if i <= f {
      assert last.steps[i].name == steps[i].name;
    }
    if k < f && k != i {
      assert last.steps[k].name == steps[k].name;
      NamesApart(steps, if k < i then k else i, if k < i then i else k);
    }
  }

  /** `failed` says about the recipe to `version` what `last` says: nothing, or the same row. */
  predicate Tells(failed: Option<Migration>, last: Option<Migration>, version: Version) {
    if last.Some? then failed == last else failed.None? || failed.value.version != version
  }

  lemma {:induction false} RunFollows(steps: seq<Step>, version: Version, failed: Option<Migration>, events: Events, last: Option<Migration>)
    requires DistinctNames(steps) && Tells(failed, last, version)
    requires last.Some? ==> FailedRowOf(steps, version, last.value)
    ensures RowOf(steps, version, last, RowOfRun(steps, version, failed, events))
  {
    var m := RowOfRun(steps, version, failed, events);
    var f := FailsAt(steps, version, failed, events, 0);
    FailsAtFirst(steps, version, failed, events, 0);
    assert Reached(m) == f;
    forall i | 0 <= i < f
      ensures EntryFor(steps[i], i < Marked(last), m.steps[i])
    {
      DoneLogAt(steps, version, failed, events, f, i);
      if last.Some? {
        DefaultConditionReadsMarks(steps, version, last.value, i);
      }
    }
  }

  lemma {:induction false} FailsAtFirst(steps: seq<Step>, version: Version, failed: Option<Migration>, events: Events, k: nat)
    requires k <= |steps|
    ensures forall i :: k <= i < FailsAt(steps, version, failed, events, k) ==>
              Outcome(steps[i], version, failed, EventAt(events, i)) != Error
    ensures var f := FailsAt(steps, version, failed, events, k);
            f < |steps| ==> Outcome(steps[f], version, failed, EventAt(events, f)) == Error
    decreases |steps| - k
  {
    if k < |steps| && Outcome(steps[k], version, failed, EventAt(events, k)) != Error {
      FailsAtFirst(steps, version, failed, events, k + 1);
    }
  }

  /** A run that comes to this step applies it: by the step's own condition, or by the default one,
      which holds for the steps that are not marked. */
  predicate Applies(step: Step, marked: bool, event: Event) {
    event.Goes? && event.finishes && if step.custom then event.holds else !marked
  }

  /** A run that comes to this step ends there. */
  predicate EndsRun(step: Step, marked: bool, event: Event) {
    event.Breaks? || (!event.finishes && if step.custom then event.holds else !marked)
  }

  /** The effects of a run that gets past the first `n` steps. */
  function AppliedBy(steps: seq<Step>, version: Version, marked: nat, events: Events, n: nat): seq<Effect>
    requires n <= |steps|
  {
    if n == 0 then []
    else
      AppliedBy(steps, version, marked, events, n - 1)
      + if Applies(steps[n - 1], n - 1 < marked, EventAt(events, n - 1)) then [Effect(version, steps[n - 1])] else []
  }

  lemma {:induction false} OutcomeIs(steps: seq<Step>, version: Version, failed: Option<Migration>, events: Events,
                                     last: Option<Migration>, i: nat)
    requires DistinctNames(steps) && Tells(failed, last, version) && i < |steps|
    requires last.Some? ==> FailedRowOf(steps, version, last.value)
    ensures var outcome := Outcome(steps[i], version, failed, EventAt(events, i));
            && (outcome == Success <==> Applies(steps[i], i < Marked(last), EventAt(events, i)))
            && (outcome == Error <==> EndsRun(steps[i], i < Marked(last), EventAt(events, i)))
  {
    if last.Some? {
      DefaultConditionReadsMarks(steps, version, last.value, i);
    }
  }

  /** Where a run ends and what each entry says, told from the events and the marks alone: it ends at
      the first step that stops it, and of those before it the entry says success exactly if the step
      applies. */
  lemma {:induction false} RunIs(steps: seq<Step>, version: Version, failed: Option<Migration>, events: Events, last: Option<Migration>)
    requires DistinctNames(steps) && Tells(failed, last, version)
    requires last.Some? ==> FailedRowOf(steps, version, last.value)
    ensures var m := RowOfRun(steps, version, failed, events);
            && Reached(m) <= |steps|
            && (m.status == Succeeded <==> Reached(m) == |steps|)
            && (Reached(m) < |steps| ==> EndsRun(steps[Reached(m)], Reached(m) < Marked(last), EventAt(events, Reached(m))))
            && forall i :: 0 <= i < Reached(m) ==>
                 && !EndsRun(steps[i], i < Marked(last), EventAt(events, i))
                 && m.steps[i].name == steps[i].name
                 && m.steps[i].status == if Applies(steps[i], i < Marked(last), EventAt(events, i)) then Success else Skip
  {
    var m := RowOfRun(steps, version, failed, events);
    var f := FailsAt(steps, version, failed, events, 0);
    FailsAtFirst(steps, version, failed, events, 0);
    if f < |steps| {
      OutcomeIs(steps, version, failed, events, last, f);
    }
    forall i | 0 <= i < f
      ensures !EndsRun(steps[i], i < Marked(last), EventAt(events, i))
      ensures m.steps[i].name == steps[i].name
      ensures m.steps[i].status == if Applies(steps[i], i < Marked(last), EventAt(events, i)) then Success else Skip
    {
      DoneLogAt(steps, version, failed, events, f, i);
      OutcomeIs(steps, version, failed, events, last, i);
    }
  }

  lemma {:induction false} LogIsApplied(steps: seq<Step>, version: Version, marked: nat, events: Events, log: seq<StepLog>, n: nat)
    requires n <= |log| && n <= |steps|
    requires forall i :: 0 <= i < n ==> (log[i].status == Success <==> Applies(steps[i], i < marked, EventAt(events, i)))
    ensures EffectsOfLog(steps, version, log[..n]) == AppliedBy(steps, version, marked, events, n)
  {
    if n > 0 {
      LogIsApplied(steps, version, marked, events, log, n - 1);
      assert log[..n][..n - 1] == log[..n - 1];
    }
  }

  /** What a run applies: of the steps it gets past, the custom ones whose condition holds and the
      default ones that are not marked, in order. */
  lemma {:induction false} RunApplies(steps: seq<Step>, version: Version, failed: Option<Migration>, events: Events, last: Option<Migration>)
    requires DistinctNames(steps) && Tells(failed, last, version)
    requires last.Some? ==> FailedRowOf(steps, version, last.value)
    ensures var m := RowOfRun(steps, version, failed, events);
            Reached(m) <= |steps| && Effects(steps, m) == AppliedBy(steps, version, Marked(last), events, Reached(m))
  {
    var m := RowOfRun(steps, version, failed, events);
    RunIs(steps, version, failed, events, last);
    LogIsApplied(steps, version, Marked(last), events, m.steps, Reached(m));
  }

  /** A run in which all goes well gets to the end and applies every custom step and every default
      step that is not marked. */
  lemma {:induction false} GoodRun(steps: seq<Step>, version: Version, failed: Option<Migration>, last: Option<Migration>)
    requires DistinctNames(steps) && Tells(failed, last, version)
    requires last.Some? ==> FailedRowOf(steps, version, last.value)
    ensures var m := RowOfRun(steps, version, failed, []);
            && m.status == Succeeded && Reached(m) == |steps|
            && forall i :: 0 <= i < |steps| ==> (m.steps[i].status == Success <==> steps[i].custom || Marked(last) <= i)
  {
    RunIs(steps, version, failed, [], last);
  }

  // ---------------------------------------------------------------------------------------
  // One attempt: every recipe of the path in turn, until one raises
  // ---------------------------------------------------------------------------------------

  /** The version an unversioned database is taken to have, 2.0.0. */
  const OLDEST_VERSION: Version := 200

  /** The version of the newest successful row. */
  function CurrentVersion(rows: seq<Migration>): Version {
    if rows == [] then OLDEST_VERSION
    else if rows[|rows| - 1].status == Succeeded then rows[|rows| - 1].version
    else CurrentVersion(rows[..|rows| - 1])
  }

  function LastFailure(rows: seq<Migration>): Option<Migration> {
    if rows == [] || rows[|rows| - 1].status == Succeeded then None else Some(rows[|rows| - 1])
  }

  /** The table, the effects so far, and whether every recipe succeeded. */
  datatype Ran = Ran(rows: seq<Migration>, applied: seq<Effect>, done: bool)

  function EventsOf(events: seq<Events>, k: nat): Events {
    if k < |events| then events[k] else []
  }

  /** Running the recipes of `q` from the `d`-th on, the `k`-th of an attempt, each with the events
      of its run, from a given table, until one raises. */
  function RunAll(plan: Plan, src: Version, q: Walk, d: nat, failed: Option<Migration>, events: seq<Events>, k: nat,
                  rows: seq<Migration>, applied: seq<Effect>): Ran
    requires d <= |q|
    decreases |q| - d
  {
    if d == |q| then Ran(rows, applied, true)
    else
      var steps := StepsAt(plan, src, q, d);
      var row := RowOfRun(steps, q[d], failed, EventsOf(events, k));
      var table, effects := rows + [row], applied + Effects(steps, row);
      if row.status == Succeeded then RunAll(plan, src, q, d + 1, failed, events, k + 1, table, effects)
      else Ran(table, effects, false)
  }

  datatype Report =
    | NoHistory               // IndexError: the table has no row
    | UpToDate
    | NoPath(why: PathResult) // the search raised, or returned None
    | Ended(done: bool)       // false when a step raised

  /** What an attempt leaves when the search for a path answers `r`. */
  function Attempted(plan: Plan, target: Version, r: PathResult, events: seq<Events>,
                     rows: seq<Migration>, applied: seq<Effect>): (Report, Ran) {
    var same := Ran(rows, applied, true);
    if rows == [] then (NoHistory, same)
    else if LastFailure(rows).None? && rows[|rows| - 1].version == target then (UpToDate, same)
    else if !r.Path? then (NoPath(r), same)
    else
      var ran := RunAll(plan, CurrentVersion(rows), r.upgrades, 0, LastFailure(rows), events, 0, rows, applied);
      (Ended(ran.done), ran)
  }

  /** An attempt searches unless the table is empty or ends with a success at the target. */
  predicate Searches(rows: seq<Migration>, target: Version) {
    rows != [] && !(LastFailure(rows).None? && rows[|rows| - 1].version == target)
  }

  /** Recipes that are run are done if and only if the last row they leave is a success. */
  lemma {:induction false} DoneIff(plan: Plan, src: Version, q: Walk, d: nat, failed: Option<Migration>, events: seq<Events>, k: nat,
                                   rows: seq<Migration>, applied: seq<Effect>)
    requires d < |q|
    ensures var ran := RunAll(plan, src, q, d, failed, events, k, rows, applied);
            && ran.rows != []
            && (ran.done <==> LastFailure(ran.rows).None?)
            && (ran.done ==> ran.rows[|ran.rows| - 1].version == q[|q| - 1])
    decreases |q| - d
  {
    var steps := StepsAt(plan, src, q, d);
    var row := RowOfRun(steps, q[d], failed, EventsOf(events, k));
    if row.status == Succeeded && d + 1 < |q| {
      DoneIff(plan, src, q, d + 1, failed, events, k + 1, rows + [row], applied + Effects(steps, row));
    }
  }

  /** An attempt that searches reports success if and only if the next one would find the table up
      to date, except that it has nothing to run where the newest success is at the target already. */
  lemma {:induction false} EndedIff(g: Graph, plan: Plan, target: Version, r: PathResult, events: seq<Events>,
                                    rows: seq<Migration>, applied: seq<Effect>)
    requires Answers(g, CurrentVersion(rows), target, r) && Searches(rows, target)
    ensures var (report, ran) := Attempted(plan, target, r, events, rows, applied);
            && ran.rows != []
            && (report == Ended(true) <==> CurrentVersion(rows) == target || !Searches(ran.rows, target))
            && (report == Ended(false) <==> r.Path? && CurrentVersion(rows) != target && Searches(ran.rows, target))
            && (report == NoPath(r) <==> !r.Path?)
  {
    if CurrentVersion(rows) == target && r.Path? {
      AlreadyThere(g, target, r.upgrades);
    } else if r.Path? {
      DoneIff(plan, CurrentVersion(rows), r.upgrades, 0, LastFailure(rows), events, 0, rows, applied);
    }
  }

  /** `upgrade_to_last_version`. */
  method UpgradeToLastVersion(db: Database, g: Graph, plan: Plan, target: Version, events: seq<Events>)
      returns (report: Report, ghost r: PathResult)
    requires WellFormed(g)
    requires Searches(db.migrations, target) ==> Stops(g, CurrentVersion(db.migrations), target)
    modifies db
    ensures Searches(old(db.migrations), target) ==> Answers(g, CurrentVersion(old(db.migrations)), target, r)
    ensures var (told, ran) := Attempted(plan, target, r, events, old(db.migrations), old(db.applied));
            report == told && db.migrations == ran.rows && db.applied == ran.applied
  {
    if db.migrations == [] {
      return NoHistory, NothingFound;
    }
    var last := db.migrations[|db.migrations| - 1];
    var failed := None;
    if last.status == Succeeded {
      if last.version == target {
        return UpToDate, NothingFound;
      }
    } else {
      failed := Some(last);
    }
    var path := BuildUpgradePath(g, CurrentVersion(db.migrations), target);
    if !path.Path? {
      return NoPath(path), path;
    }
    var done := RunUpgrades(db, plan, CurrentVersion(db.migrations), path.upgrades, failed, events);
    return Ended(done), path;
  }

  /** The loop of an attempt over its path; false when a step raised. */
  method RunUpgrades(db: Database, plan: Plan, src: Version, path: Walk, failed: Option<Migration>, events: seq<Events>)
      returns (done: bool)
    modifies db
    ensures Ran(db.migrations, db.applied, done) ==
            RunAll(plan, src, path, 0, failed, events, 0, old(db.migrations), old(db.applied))
  {
    for i := 0 to |path|
      invariant RunAll(plan, src, path, i, failed, events, i, db.migrations, db.applied) ==
                RunAll(plan, src, path, 0, failed, events, 0, old(db.migrations), old(db.applied))
    {
      done := db.Run(StepsAt(plan, src, path, i), path[i], failed, EventsOf(events, i));
      if !done {
        return;
      }
    }
    done := true;
  }

  // ---------------------------------------------------------------------------------------
  // Any number of attempts stay on the path first computed
  // ---------------------------------------------------------------------------------------

  /** The step functions that returned in the runs that left these rows. */
  ghost function Journal(plan: Plan, src: Version, p: Walk, rows: seq<Migration>): seq<Effect> {
    if rows == [] then []
    else
      var before, m := rows[..|rows| - 1], rows[|rows| - 1];
      var c := Replay(plan, src, p, before);
      Journal(plan, src, p, before) +
      if c.Some? && c.value.done < |p| then Effects(StepsAt(plan, src, p, c.value.done), m) else []
  }

  function Place(src: Version, p: Walk, d: nat): Version
    requires d <= |p|
  {
    if d == 0 then src else p[d - 1]
  }

  /** The table `base` ends with a successful upgrade to `src`; before the first row, the version is
      the one an unversioned database is taken to have. */
  ghost predicate EndsAt(base: seq<Migration>, src: Version) {
    if base == [] then src == OLDEST_VERSION
    else base[|base| - 1].status == Succeeded && base[|base| - 1].version == src
  }

  /** The table is `base` and rows that follow the path, and the effects are those of the rows. */
  ghost predicate OnPath(plan: Plan, src: Version, p: Walk, base: seq<Migration>, applied0: seq<Effect>,
                         rows: seq<Migration>, applied: seq<Effect>, news: seq<Migration>) {
    rows == base + news && Replay(plan, src, p, news).Some? && applied == applied0 + Journal(plan, src, p, news)
  }

  ghost predicate InPhase(plan: Plan, src: Version, p: Walk, base: seq<Migration>, applied0: seq<Effect>,
                          rows: seq<Migration>, applied: seq<Effect>) {
    exists news :: OnPath(plan, src, p, base, applied0, rows, applied, news)
  }

  /** What the detection of the current version reads from such a table. */
  lemma {:induction false} DetectsPlace(plan: Plan, src: Version, p: Walk, base: seq<Migration>, news: seq<Migration>)
    requires EndsAt(base, src) && Replay(plan, src, p, news).Some?
    ensures var c := Replay(plan, src, p, news).value;
            && c.done <= |p|
            && CurrentVersion(base + news) == Place(src, p, c.done)
            && LastFailure(base + news) == c.last
            && (c.last.None? && base + news != [] ==> (base + news)[|base + news| - 1].version == Place(src, p, c.done))
  {
    if news == [] {
      assert base + news == base;
    } else {
      var before := news[..|news| - 1];
      DetectsPlace(plan, src, p, base, before);
      assert (base + news)[..|base + news| - 1] == base + before;
    }
  }

  /** From a place of an answer the search answers the rest. */
  lemma {:induction false} AnswerFrom(g: Graph, src: Version, target: Version, a: Walk, q: Walk)
    requires WellFormed(g) && Answers(g, src, target, Path(a + q))
    ensures Answers(g, Place(src, a, |a|), target, Path(q))
    decreases |a|
  {
    if a == [] {
      assert a + q == q;
    } else {
      var u, a' := a[0], a[1..];
      assert a + q == [u] + (a' + q);
      ResumeIsStable(g, src, target, u, a' + q);
      AnswerFrom(g, u, target, a', q);
    }
  }

  lemma {:induction false} HeadNotLater(g: Graph, src: Version, target: Version, q: Walk)
    requires FirstShortest(g, src, target, q) && q != []
    ensures q[0] !in q[1..]
  {
    var u, rest := q[0], q[1..];
    if u in rest {
      var j :| 0 <= j < |rest| && rest[j] == u;
      var b, c := rest[..j + 1], rest[j + 1..];
      assert q == [u] + b + c;
      AnswerVisitsOnce(g, src, target, [u], b, c);
    }
  }

  lemma {:induction false} JournalSnoc(plan: Plan, src: Version, p: Walk, news: seq<Migration>, m: Migration)
    requires Replay(plan, src, p, news).Some? && Replay(plan, src, p, news).value.done < |p|
    ensures Journal(plan, src, p, news + [m]) ==
            Journal(plan, src, p, news) + Effects(StepsAt(plan, src, p, Replay(plan, src, p, news).value.done), m)
  {
    assert (news + [m])[..|news|] == news;
  }

  lemma {:induction false} RunAdvances(plan: Plan, src: Version, p: Walk, failed: Option<Migration>, events: Events,
                                       news: seq<Migration>)
    requires NamesDistinct(plan) && Replay(plan, src, p, news).Some?
    requires var c := Replay(plan, src, p, news).value; c.done < |p| && Tells(failed, c.last, p[c.done])
    ensures var c := Replay(plan, src, p, news).value;
            var row := RowOfRun(StepsAt(plan, src, p, c.done), p[c.done], failed, events);
            Advance(plan, src, p, c, row).Some? && Replay(plan, src, p, news + [row]) == Advance(plan, src, p, c, row)
  {
    var c := Replay(plan, src, p, news).value;
    var steps := StepsAt(plan, src, p, c.done);
    ReplayIsSound(plan, src, p, news);
    assert DistinctNames(steps);
    RunFollows(steps, p[c.done], failed, events, c.last);
    ReplaySnoc(plan, src, p, news, RowOfRun(steps, p[c.done], failed, events));
  }

  lemma {:induction false} OneMoreRow(plan: Plan, src: Version, p: Walk, base: seq<Migration>, applied0: seq<Effect>,
                                      rows: seq<Migration>, applied: seq<Effect>, news: seq<Migration>, row: Migration)
    requires OnPath(plan, src, p, base, applied0, rows, applied, news)
    requires Replay(plan, src, p, news).value.done < |p| && Replay(plan, src, p, news + [row]).Some?
    ensures OnPath(plan, src, p, base, applied0, rows + [row],
                   applied + Effects(StepsAt(plan, src, p, Replay(plan, src, p, news).value.done), row), news + [row])
  {
    JournalSnoc(plan, src, p, news, row);
    Regroup(base, news, [row]);
    Regroup(applied0, Journal(plan, src, p, news), Effects(StepsAt(plan, src, p, Replay(plan, src, p, news).value.done), row));
  }

  lemma {:induction false} RunStaysOnPath(plan: Plan, src: Version, p: Walk, failed: Option<Migration>, events: Events,
                                          base: seq<Migration>, applied0: seq<Effect>,
                                          rows: seq<Migration>, applied: seq<Effect>, news: seq<Migration>)
    requires NamesDistinct(plan) && OnPath(plan, src, p, base, applied0, rows, applied, news)
    requires var c := Replay(plan, src, p, news).value; c.done < |p| && Tells(failed, c.last, p[c.done])
    ensures var c := Replay(plan, src, p, news).value;
            var steps := StepsAt(plan, src, p, c.done);
            var row := RowOfRun(steps, p[c.done], failed, events);
            && OnPath(plan, src, p, base, applied0, rows + [row], applied + Effects(steps, row), news + [row])
            && (row.status == Succeeded ==> Replay(plan, src, p, news + [row]) == Some(Cursor(c.done + 1, None, 0)))
  {
    var c := Replay(plan, src, p, news).value;
    var row := RowOfRun(StepsAt(plan, src, p, c.done), p[c.done], failed, events);
    RunAdvances(plan, src, p, failed, events, news);
    OneMoreRow(plan, src, p, base, applied0, rows, applied, news, row);
  }

  /** `failed` tells the recipe at place `d` what `last` says, and the later ones nothing. */
  ghost predicate TellsFrom(p: Walk, d: nat, failed: Option<Migration>, last: Option<Migration>) {
    && (d < |p| ==> Tells(failed, last, p[d]))
    && forall i :: d < i < |p| ==> Tells(failed, None, p[i])
  }

  lemma {:induction false} TellsNext(p: Walk, d: nat, failed: Option<Migration>, last: Option<Migration>)
    requires TellsFrom(p, d, failed, last) && d < |p|
    ensures TellsFrom(p, d + 1, failed, None)
  {
  }

  lemma {:induction false} RunAllStaysOnPath(plan: Plan, src: Version, p: Walk, d: nat,
                                             failed: Option<Migration>, events: seq<Events>, k: nat,
                                             base: seq<Migration>, applied0: seq<Effect>,
                                             rows: seq<Migration>, applied: seq<Effect>, news: seq<Migration>)
      returns (news': seq<Migration>)
    requires NamesDistinct(plan) && OnPath(plan, src, p, base, applied0, rows, applied, news)
    requires d <= |p| && Replay(plan, src, p, news).value.done == d
    requires TellsFrom(p, d, failed, Replay(plan, src, p, news).value.last)
    ensures var ran := RunAll(plan, src, p, d, failed, events, k, rows, applied);
            OnPath(plan, src, p, base, applied0, ran.rows, ran.applied, news')
    decreases |p| - d
  {
    news' := news;
    if d < |p| {
      var steps := StepsAt(plan, src, p, d);
      var row := RowOfRun(steps, p[d], failed, EventsOf(events, k));
      RunStaysOnPath(plan, src, p, failed, EventsOf(events, k), base, applied0, rows, applied, news);
      news' := news + [row];
      if row.status == Succeeded {
        TellsNext(p, d, failed, Replay(plan, src, p, news).value.last);
        news' := RunAllStaysOnPath(plan, src, p, d + 1, failed, events, k + 1, base, applied0,
                                   rows + [row], applied + Effects(steps, row), news');
      }
    }
  }

  /** `q` is what `p` has from place `d` on. */
  ghost predicate IsRest(p: Walk, d: nat, q: Walk) {
    d + |q| == |p| && forall i :: 0 <= i < |q| ==> q[i] == p[d + i]
  }

  lemma RestSteps(plan: Plan, src: Version, p: Walk, d: nat, q: Walk, j: nat)
    requires IsRest(p, d, q) && j < |q|
    ensures q[j] == p[d + j]
    ensures StepsAt(plan, Place(src, p, d), q, j) == StepsAt(plan, src, p, d + j)
  {
  }

  /** Running the rest of a path from its place is running on in the path. */
  lemma {:induction false} RestRuns(plan: Plan, src: Version, p: Walk, d: nat, q: Walk, j: nat, failed: Option<Migration>,
                                    events: seq<Events>, k: nat, rows: seq<Migration>, applied: seq<Effect>)
    requires IsRest(p, d, q) && j <= |q|
    ensures RunAll(plan, Place(src, p, d), q, j, failed, events, k, rows, applied) ==
            RunAll(plan, src, p, d + j, failed, events, k, rows, applied)
    decreases |q| - j
  {
    if j < |q| {
      RestSteps(plan, src, p, d, q, j);
      var steps := StepsAt(plan, src, p, d + j);
      var row := RowOfRun(steps, p[d + j], failed, EventsOf(events, k));
      RestRuns(plan, src, p, d, q, j + 1, failed, events, k + 1, rows + [row], applied + Effects(steps, row));
    }
  }

  ghost function Rest(p: Walk, d: nat): Walk
    requires d <= |p|
  {
    if d == 0 then p else p[d..]
  }

  lemma RestHead(p: Walk, d: nat)
    requires d < |p|
    ensures Rest(p, d) != [] && Rest(p, d)[0] == p[d]
    ensures Rest(p, d)[1..] == Rest(p, d + 1)
  {
  }

  /** What an attempt does on such a table: it runs the rest of the path, if there is any, with the
      newest failed row. An empty table stops it before. */
  lemma AttemptRunsRest(g: Graph, plan: Plan, src: Version, target: Version, p: Walk, r: PathResult, events: seq<Events>,
                        base: seq<Migration>, applied0: seq<Effect>, rows: seq<Migration>, applied: seq<Effect>,
                        news: seq<Migration>)
    requires WellFormed(g) && EndsAt(base, src) && Answers(g, src, target, Path(p))
    requires OnPath(plan, src, p, base, applied0, rows, applied, news)
    requires Answers(g, CurrentVersion(rows), target, r)
    ensures var (report, ran) := Attempted(plan, target, r, events, rows, applied);
            var c := Replay(plan, src, p, news).value;
            && c.done <= |p|
            && (report.NoHistory? <==> rows == []) && !report.NoPath?
            && (rows == [] || c.done == |p| ==> ran.rows == rows && ran.applied == applied)
            && (rows != [] && c.done < |p| ==>
                  ran == RunAll(plan, src, p, c.done, c.last, events, 0, rows, applied))
  {
    var c := Replay(plan, src, p, news).value;
    DetectsPlace(plan, src, p, base, news);
    ReplayIsSound(plan, src, p, news);
    ResumesWithRest(g, src, target, p, c.done);
    AnswerIsUnique(g, CurrentVersion(rows), target, r, Path(Rest(p, c.done)));
    if rows != [] {
      if c.done < |p| {
        NotYetThere(g, src, target, p, c.done);
      }
      RunsFromPlace(plan, src, target, p, c.done, events, rows, applied);
    }
  }

  lemma RunsFromPlace(plan: Plan, src: Version, target: Version, p: Walk, d: nat, events: seq<Events>,
                      rows: seq<Migration>, applied: seq<Effect>)
    requires rows != [] && d <= |p| && CurrentVersion(rows) == Place(src, p, d)
    requires d < |p| ==> Place(src, p, d) != target
    requires LastFailure(rows).None? ==> rows[|rows| - 1].version == Place(src, p, d)
    ensures var (report, ran) := Attempted(plan, target, Path(Rest(p, d)), events, rows, applied);
            && !report.NoHistory? && !report.NoPath?
            && (d == |p| ==> ran.rows == rows && ran.applied == applied)
            && (d < |p| ==> ran == RunAll(plan, src, p, d, LastFailure(rows), events, 0, rows, applied))
  {
    RestRuns(plan, src, p, d, Rest(p, d), 0, LastFailure(rows), events, 0, rows, applied);
  }

  lemma NotYetThere(g: Graph, src: Version, target: Version, p: Walk, d: nat)
    requires d < |p| && Answers(g, Place(src, p, d), target, Path(Rest(p, d)))
    ensures Place(src, p, d) != target
  {
    RestHead(p, d);
    if Place(src, p, d) == target {
      AlreadyThere(g, target, Rest(p, d));
    }
  }

  lemma AlreadyThere(g: Graph, v: Version, q: Walk)
    requires Answers(g, v, v, Path(q))
    ensures q == []
  {
    assert IsWalk(g, v, []) && End(v, []) == v;
  }

  /** The newest failed row tells each run of the attempt what it needs. */
  lemma FailureTells(g: Graph, plan: Plan, src: Version, target: Version, p: Walk, news: seq<Migration>)
    requires WellFormed(g) && Answers(g, src, target, Path(p)) && Replay(plan, src, p, news).Some?
    ensures var c := Replay(plan, src, p, news).value; c.done <= |p| && TellsFrom(p, c.done, c.last, c.last)
  {
    var c := Replay(plan, src, p, news).value;
    ReplayIsSound(plan, src, p, news);
    if c.done < |p| {
      ResumesWithRest(g, src, target, p, c.done);
      RestDiffers(g, src, target, p, c.done);
    }
  }

  lemma RestDiffers(g: Graph, src: Version, target: Version, p: Walk, d: nat)
    requires d < |p| && Answers(g, Place(src, p, d), target, Path(Rest(p, d)))
    ensures forall i :: d < i < |p| ==> p[i] != p[d]
  {
    RestHead(p, d);
    HeadNotLater(g, Place(src, p, d), target, Rest(p, d));
    forall i | d < i < |p|
      ensures p[i] != p[d]
    {
      assert Rest(p, d)[1..][i - d - 1] == p[i];
    }
  }

  /** One attempt, whatever fails in it, leaves a table that follows the same path; once the
      path is done, attempts change nothing. */
  lemma AttemptKeepsPhase(g: Graph, plan: Plan, src: Version, target: Version, p: Walk, r: PathResult, events: seq<Events>,
                          base: seq<Migration>, applied0: seq<Effect>, rows: seq<Migration>, applied: seq<Effect>)
    requires WellFormed(g) && NamesDistinct(plan)
    requires EndsAt(base, src) && Answers(g, src, target, Path(p))
    requires InPhase(plan, src, p, base, applied0, rows, applied)
    requires Answers(g, CurrentVersion(rows), target, r)
    ensures var (report, ran) := Attempted(plan, target, r, events, rows, applied);
            && InPhase(plan, src, p, base, applied0, ran.rows, ran.applied)
            && (report.NoHistory? <==> rows == []) && !report.NoPath?
            && (!report.Ended? ==> ran.rows == rows && ran.applied == applied)
  {
    var news :| OnPath(plan, src, p, base, applied0, rows, applied, news);
    var c := Replay(plan, src, p, news).value;
    AttemptRunsRest(g, plan, src, target, p, r, events, base, applied0, rows, applied, news);
    if rows != [] && c.done < |p| {
      FailureTells(g, plan, src, target, p, news);
      news := RunAllStaysOnPath(plan, src, p, c.done, c.last, events, 0, base, applied0, rows, applied, news);
    }
  }

  /** The rows after `base` follow the path to its end. */
  ghost predicate Arrived(plan: Plan, src: Version, p: Walk, base: seq<Migration>, rows: seq<Migration>) {
    exists news ::
      rows == base + news && Replay(plan, src, p, news).Some? && Replay(plan, src, p, news).value.done == |p|
  }

  /** On such a table: nothing is to be searched for exactly when the path is done. */
  lemma {:induction false} ArrivedIff(g: Graph, plan: Plan, src: Version, target: Version, p: Walk, base: seq<Migration>,
                                      rows: seq<Migration>, news: seq<Migration>)
    requires WellFormed(g) && EndsAt(base, src) && Answers(g, src, target, Path(p))
    requires rows == base + news && rows != [] && Replay(plan, src, p, news).Some?
    ensures Arrived(plan, src, p, base, rows) <==> !Searches(rows, target)
    ensures Searches(rows, target) ==> CurrentVersion(rows) != target
  {
    var c := Replay(plan, src, p, news).value;
    DetectsPlace(plan, src, p, base, news);
    ReplayIsSound(plan, src, p, news);
    if c.done < |p| {
      ResumesWithRest(g, src, target, p, c.done);
      NotYetThere(g, src, target, p, c.done);
    }
    assert news == rows[|base|..];
    forall other | rows == base + other
      ensures other == news
    {
      assert other == rows[|base|..];
    }
  }

  /** What an attempt reports on such a table: up to date if and only if the path was done, and
      otherwise success if and only if it is done now. */
  lemma ReportIff(g: Graph, plan: Plan, src: Version, target: Version, p: Walk, r: PathResult, events: seq<Events>,
                  base: seq<Migration>, applied0: seq<Effect>, rows: seq<Migration>, applied: seq<Effect>)
    requires WellFormed(g) && NamesDistinct(plan)
    requires EndsAt(base, src) && Answers(g, src, target, Path(p))
    requires InPhase(plan, src, p, base, applied0, rows, applied) && rows != []
    requires Answers(g, CurrentVersion(rows), target, r)
    ensures var (report, ran) := Attempted(plan, target, r, events, rows, applied);
            && (report == UpToDate <==> Arrived(plan, src, p, base, rows))
            && (report == Ended(true) <==> !Arrived(plan, src, p, base, rows) && Arrived(plan, src, p, base, ran.rows))
            && (report == Ended(false) <==> !Arrived(plan, src, p, base, ran.rows))
  {
    var ran := Attempted(plan, target, r, events, rows, applied).1;
    AttemptKeepsPhase(g, plan, src, target, p, r, events, base, applied0, rows, applied);
    PhaseArrivedIff(g, plan, src, target, p, base, applied0, rows, applied);
    if Searches(rows, target) {
      EndedIff(g, plan, target, r, events, rows, applied);
      PhaseArrivedIff(g, plan, src, target, p, base, applied0, ran.rows, ran.applied);
    }
  }

  lemma PhaseArrivedIff(g: Graph, plan: Plan, src: Version, target: Version, p: Walk,
                        base: seq<Migration>, applied0: seq<Effect>, rows: seq<Migration>, applied: seq<Effect>)
    requires WellFormed(g) && EndsAt(base, src) && Answers(g, src, target, Path(p))
    requires InPhase(plan, src, p, base, applied0, rows, applied) && rows != []
    ensures Arrived(plan, src, p, base, rows) <==> !Searches(rows, target)
    ensures Searches(rows, target) ==> CurrentVersion(rows) != target
  {
    var news :| OnPath(plan, src, p, base, applied0, rows, applied, news);
    ArrivedIff(g, plan, src, target, p, base, rows, news);
  }

  lemma ResumesWithRest(g: Graph, src: Version, target: Version, p: Walk, d: nat)
    requires WellFormed(g) && Answers(g, src, target, Path(p)) && d <= |p|
    ensures Answers(g, Place(src, p, d), target, Path(Rest(p, d)))
  {
    var a := p[..d];
    assert p == a + Rest(p, d) && Place(src, a, d) == Place(src, p, d);
    AnswerFrom(g, src, target, a, Rest(p, d));
  }
}
