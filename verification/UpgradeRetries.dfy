/** What the migration table tells before an upgrade is tried again
    (b2share/modules/upgrade/api.py): whether the attempt can apply a default step a second time. */
module UpgradeRetries {
  import opened Options
  import opened Sequences
  import opened UpgradePath
  import opened UpgradeRun
  import opened UpgradeHistory
  import opened UpgradeOnce

  /** Of the recipe that comes next, no default step that some run got past is unmarked in the
      newest failed row. */
  ghost predicate Safe(plan: Plan, src: Version, p: Walk, c: Cursor) {
    c.done < |p| ==>
      var steps := StepsAt(plan, src, p, c.done);
      forall i :: 0 <= i < |steps| && Marked(c.last) <= i < c.reach ==> steps[i].custom
  }

  ghost predicate RunRepeatsNothing(plan: Plan, src: Version, p: Walk, c: Cursor, events: Events)
    requires c.done < |p|
  {
    var steps := StepsAt(plan, src, p, c.done);
    RepeatsNothing(steps, c, RowOfRun(steps, p[c.done], c.last, events))
  }

  lemma {:induction false} AllGoesWell(steps: seq<Step>, target: Version, failed: Option<Migration>, k: nat)
    requires k <= |steps|
    ensures FailsAt(steps, target, failed, [], k) == |steps|
    decreases |steps| - k
  {
    if k < |steps| {
      AllGoesWell(steps, target, failed, k + 1);
    }
  }

  /** The next run repeats no default step, whatever happens in it, exactly when the table is safe. */
  lemma {:induction false} NextRunRepeatsNothingIff(plan: Plan, src: Version, p: Walk, c: Cursor)
    requires Sound(plan, src, p, c) && c.done < |p|
    ensures (forall events :: RunRepeatsNothing(plan, src, p, c, events)) <==> Safe(plan, src, p, c)
  {
    AllGoesWell(StepsAt(plan, src, p, c.done), p[c.done], c.last, 0);
    if forall events :: RunRepeatsNothing(plan, src, p, c, events) {
      assert RunRepeatsNothing(plan, src, p, c, []);
    }
  }

  lemma HarmlessSnoc(plan: Plan, src: Version, p: Walk, news: seq<Migration>, row: Migration)
    requires Replay(plan, src, p, news).Some? && Replay(plan, src, p, news).value.done < |p|
    ensures var c := Replay(plan, src, p, news).value;
            Harmless(plan, src, p, news + [row]) <==>
            Harmless(plan, src, p, news) && RepeatsNothing(StepsAt(plan, src, p, c.done), c, row)
  {
    assert (news + [row])[..|news|] == news;
  }

  /** A run from a safe table does no harm. */
  lemma {:induction false} SafeRunIsHarmless(plan: Plan, src: Version, p: Walk, failed: Option<Migration>, events: Events,
                                             base: seq<Migration>, applied0: seq<Effect>,
                                             rows: seq<Migration>, applied: seq<Effect>, news: seq<Migration>)
    requires NamesDistinct(plan) && OnPath(plan, src, p, base, applied0, rows, applied, news)
    requires var c := Replay(plan, src, p, news).value; c.done < |p| && Tells(failed, c.last, p[c.done])
    requires Safe(plan, src, p, Replay(plan, src, p, news).value)
    ensures var c := Replay(plan, src, p, news).value;
            var steps := StepsAt(plan, src, p, c.done);
            var row := RowOfRun(steps, p[c.done], failed, events);
            && OnPath(plan, src, p, base, applied0, rows + [row], applied + Effects(steps, row), news + [row])
            && (Harmless(plan, src, p, news + [row]) <==> Harmless(plan, src, p, news))
            && (row.status == Succeeded ==> Replay(plan, src, p, news + [row]) == Some(Cursor(c.done + 1, None, 0)))
  {
    RunStaysOnPath(plan, src, p, failed, events, base, applied0, rows, applied, news);
    var c := Replay(plan, src, p, news).value;
    HarmlessSnoc(plan, src, p, news, RowOfRun(StepsAt(plan, src, p, c.done), p[c.done], failed, events));
  }

  lemma NewRecipeIsSafe(plan: Plan, src: Version, p: Walk, d: nat)
    ensures Safe(plan, src, p, Cursor(d, None, 0))
  {
  }

  /** Nor do the runs of an attempt from there: the later ones start recipes of their own. */
  lemma {:induction false} SafeRunsAreHarmless(plan: Plan, src: Version, p: Walk, d: nat,
                                               failed: Option<Migration>, events: seq<Events>, k: nat,
                                               base: seq<Migration>, applied0: seq<Effect>,
                                               rows: seq<Migration>, applied: seq<Effect>, news: seq<Migration>)
      returns (news': seq<Migration>)
    requires NamesDistinct(plan) && OnPath(plan, src, p, base, applied0, rows, applied, news)
    requires d <= |p| && Replay(plan, src, p, news).value.done == d
    requires TellsFrom(p, d, failed, Replay(plan, src, p, news).value.last)
    requires Safe(plan, src, p, Replay(plan, src, p, news).value)
    ensures var ran := RunAll(plan, src, p, d, failed, events, k, rows, applied);
            OnPath(plan, src, p, base, applied0, ran.rows, ran.applied, news')
    ensures Harmless(plan, src, p, news') <==> Harmless(plan, src, p, news)
    decreases |p| - d
  {
    news' := news;
    if d < |p| {
      var steps := StepsAt(plan, src, p, d);
      var row := RowOfRun(steps, p[d], failed, EventsOf(events, k));
      SafeRunIsHarmless(plan, src, p, failed, EventsOf(events, k), base, applied0, rows, applied, news);
      news' := news + [row];
      if row.status == Succeeded {
        TellsNext(p, d, failed, Replay(plan, src, p, news).value.last);
        NewRecipeIsSafe(plan, src, p, d + 1);
        news' := SafeRunsAreHarmless(plan, src, p, d + 1, failed, events, k + 1, base, applied0,
                                     rows + [row], applied + Effects(steps, row), news');
      }
    }
  }

  /** What an attempt adds repeats no default step. */
  ghost predicate AttemptIsHarmless(plan: Plan, src: Version, target: Version, p: Walk, r: PathResult, base: seq<Migration>,
                                    rows: seq<Migration>, applied: seq<Effect>, events: seq<Events>) {
    forall after :: Attempted(plan, target, r, events, rows, applied).1.rows == base + after ==> Harmless(plan, src, p, after)
  }

  lemma SafeAttemptIsHarmless(g: Graph, plan: Plan, src: Version, target: Version, p: Walk, r: PathResult, events: seq<Events>,
                              base: seq<Migration>, applied0: seq<Effect>, rows: seq<Migration>, applied: seq<Effect>,
                              news: seq<Migration>)
    requires WellFormed(g) && NamesDistinct(plan) && EndsAt(base, src) && Answers(g, src, target, Path(p))
    requires OnPath(plan, src, p, base, applied0, rows, applied, news) && Harmless(plan, src, p, news)
    requires Answers(g, CurrentVersion(rows), target, r)
    requires Safe(plan, src, p, Replay(plan, src, p, news).value)
    ensures AttemptIsHarmless(plan, src, target, p, r, base, rows, applied, events)
  {
    var c := Replay(plan, src, p, news).value;
    AttemptRunsRest(g, plan, src, target, p, r, events, base, applied0, rows, applied, news);
    var ended := news;
    if rows != [] && c.done < |p| {
      FailureTells(g, plan, src, target, p, news);
      ended := SafeRunsAreHarmless(plan, src, p, c.done, c.last, events, 0, base, applied0, rows, applied, news);
    }
    forall after | Attempted(plan, target, r, events, rows, applied).1.rows == base + after
      ensures Harmless(plan, src, p, after)
    {
      SameTail(base, after, ended);
    }
  }

  lemma SameTail<T>(a: seq<T>, b: seq<T>, c: seq<T>)
    requires a + b == a + c
    ensures b == c
  {
    assert |b| == |c|;
    forall i | 0 <= i < |b|
      ensures b[i] == c[i]
    {
      assert (a + b)[|a| + i] == (a + c)[|a| + i];
    }
  }

  lemma {:induction false} UnsafeRunHarms(plan: Plan, src: Version, p: Walk, news: seq<Migration>)
    requires Replay(plan, src, p, news).Some? && !Safe(plan, src, p, Replay(plan, src, p, news).value)
    ensures var c := Replay(plan, src, p, news).value;
            var steps := StepsAt(plan, src, p, c.done);
            var row := RowOfRun(steps, p[c.done], c.last, []);
            row.status == Succeeded && !Harmless(plan, src, p, news + [row])
  {
    var c := Replay(plan, src, p, news).value;
    var steps := StepsAt(plan, src, p, c.done);
    AllGoesWell(steps, p[c.done], c.last, 0);
    HarmlessSnoc(plan, src, p, news, RowOfRun(steps, p[c.done], c.last, []));
  }

  /** After a run that does harm, the rest of the attempt starts recipes of their own and cannot
      undo it. */
  lemma {:induction false} HarmStays(plan: Plan, src: Version, p: Walk, d: nat, failed: Option<Migration>,
                                     base: seq<Migration>, applied0: seq<Effect>,
                                     rows: seq<Migration>, applied: seq<Effect>, news: seq<Migration>, row: Migration)
      returns (after: seq<Migration>)
    requires NamesDistinct(plan) && OnPath(plan, src, p, base, applied0, rows, applied, news)
    requires d < |p| && Replay(plan, src, p, news).value.done == d
    requires TellsFrom(p, d, failed, Replay(plan, src, p, news).value.last)
    requires row == RowOfRun(StepsAt(plan, src, p, d), p[d], failed, []) && row.status == Succeeded
    requires !Harmless(plan, src, p, news + [row])
    ensures RunAll(plan, src, p, d, failed, [], 0, rows, applied).rows == base + after
    ensures !Harmless(plan, src, p, after)
  {
    RunStaysOnPath(plan, src, p, failed, [], base, applied0, rows, applied, news);
    after := SafeRunsAreHarmless(plan, src, p, d + 1, failed, [], 1, base, applied0,
                                 rows + [row], applied + Effects(StepsAt(plan, src, p, d), row), news + [row]);
  }

  /** From a table that is not safe, the attempt in which everything goes well applies a default
      step again. */
  lemma UnsafeAttemptHarms(g: Graph, plan: Plan, src: Version, target: Version, p: Walk, r: PathResult,
                           base: seq<Migration>, applied0: seq<Effect>, rows: seq<Migration>, applied: seq<Effect>,
                           news: seq<Migration>)
    requires WellFormed(g) && NamesDistinct(plan) && EndsAt(base, src) && Answers(g, src, target, Path(p))
    requires OnPath(plan, src, p, base, applied0, rows, applied, news)
    requires Answers(g, CurrentVersion(rows), target, r)
    requires !Safe(plan, src, p, Replay(plan, src, p, news).value)
    ensures !AttemptIsHarmless(plan, src, target, p, r, base, rows, applied, [])
  {
    var c := Replay(plan, src, p, news).value;
    ReplayIsSound(plan, src, p, news);
    assert news != [];
    AttemptRunsRest(g, plan, src, target, p, r, [], base, applied0, rows, applied, news);
    FailureTells(g, plan, src, target, p, news);
    UnsafeRunHarms(plan, src, p, news);
    var row := RowOfRun(StepsAt(plan, src, p, c.done), p[c.done], c.last, []);
    var after := HarmStays(plan, src, p, c.done, c.last, base, applied0, rows, applied, news, row);
    assert Attempted(plan, target, r, [], rows, applied).1.rows == base + after;
  }

  /** Before an attempt, the table tells whether it can apply a default step again: no course of
      events makes it do so if and only if the table is safe. */
  lemma AttemptIsHarmlessIff(g: Graph, plan: Plan, src: Version, target: Version, p: Walk, r: PathResult,
                             base: seq<Migration>, applied0: seq<Effect>, rows: seq<Migration>, applied: seq<Effect>,
                             news: seq<Migration>)
    requires WellFormed(g) && NamesDistinct(plan) && EndsAt(base, src) && Answers(g, src, target, Path(p))
    requires OnPath(plan, src, p, base, applied0, rows, applied, news) && Harmless(plan, src, p, news)
    requires Answers(g, CurrentVersion(rows), target, r)
    ensures (forall events :: AttemptIsHarmless(plan, src, target, p, r, base, rows, applied, events)) <==>
            Safe(plan, src, p, Replay(plan, src, p, news).value)
  {
    if Safe(plan, src, p, Replay(plan, src, p, news).value) {
      forall events
        ensures AttemptIsHarmless(plan, src, target, p, r, base, rows, applied, events)
      {
        SafeAttemptIsHarmless(g, plan, src, target, p, r, events, base, applied0, rows, applied, news);
      }
    } else {
      UnsafeAttemptHarms(g, plan, src, target, p, r, base, applied0, rows, applied, news);
    }
  }

  /** The table before every attempt was safe. */
  ghost predicate Checked(plan: Plan, src: Version, target: Version, p: Walk, attempts: seq<Attempt>,
                          base: seq<Migration>, rows: seq<Migration>, applied: seq<Effect>) {
    attempts != [] ==>
      var front := attempts[..|attempts| - 1];
      && Checked(plan, src, target, p, front, base, rows, applied)
      && forall news :: AfterAttempts(plan, target, front, rows, applied).rows == base + news && Replay(plan, src, p, news).Some? ==>
           Safe(plan, src, p, Replay(plan, src, p, news).value)
  }

  /** Attempts that are only made from safe tables never apply a default step twice. */
  lemma {:induction false} CheckedAttemptsAreHarmless(g: Graph, plan: Plan, src: Version, target: Version, p: Walk,
                                                      attempts: seq<Attempt>, base: seq<Migration>, applied0: seq<Effect>,
                                                      rows: seq<Migration>, applied: seq<Effect>, news: seq<Migration>)
      returns (news': seq<Migration>)
    requires WellFormed(g) && NamesDistinct(plan) && EndsAt(base, src) && Answers(g, src, target, Path(p))
    requires OnPath(plan, src, p, base, applied0, rows, applied, news) && Harmless(plan, src, p, news)
    requires Searched(g, plan, target, attempts, rows, applied)
    requires Checked(plan, src, target, p, attempts, base, rows, applied)
    ensures var ran := AfterAttempts(plan, target, attempts, rows, applied);
            && OnPath(plan, src, p, base, applied0, ran.rows, ran.applied, news')
            && NoRepeat(Defaults(Journal(plan, src, p, news')))
    ensures Harmless(plan, src, p, news')
  {
    AnswerIsDistinct(g, src, target, p);
    news' := news;
    if attempts != [] {
      var front, last := attempts[..|attempts| - 1], attempts[|attempts| - 1];
      news' := CheckedAttemptsAreHarmless(g, plan, src, target, p, front, base, applied0, rows, applied, news);
      var before := AfterAttempts(plan, target, front, rows, applied);
      SafeAttemptIsHarmless(g, plan, src, target, p, last.found, last.events, base, applied0, before.rows, before.applied, news');
      AttemptKeepsPhase(g, plan, src, target, p, last.found, last.events, base, applied0, before.rows, before.applied);
      var ran := AfterAttempts(plan, target, attempts, rows, applied);
      news' :| OnPath(plan, src, p, base, applied0, ran.rows, ran.applied, news');
    }
    AtMostOnceIff(plan, src, p, news');
  }
}
