/** How often a step is applied over any sequence of failing and repeated upgrades
    (b2share/modules/upgrade/api.py).

    The documentation of the recipes promises that a step cannot be rolled back once it succeeds,
    and the default condition is there to skip it on a retry. It reads only the newest failed
    row, so a retry that fails before it has copied the marks of an earlier run forgets them.
    `AtMostOnceIff` states exactly when that does harm. */
module UpgradeOnce {
  import opened Options
  import opened Sequences
  import opened UpgradePath
  import opened UpgradeRun
  import opened UpgradeHistory

  // ---------------------------------------------------------------------------------------
  // Sequences of attempts
  // ---------------------------------------------------------------------------------------

  /** What one attempt met: the answer of the search, and the events of each run. */
  datatype Attempt = Attempt(found: PathResult, events: seq<Events>)

  ghost function AfterAttempts(plan: Plan, target: Version, attempts: seq<Attempt>,
                               rows: seq<Migration>, applied: seq<Effect>): Ran {
    if attempts == [] then Ran(rows, applied, true)
    else
      var before := AfterAttempts(plan, target, attempts[..|attempts| - 1], rows, applied);
      var last := attempts[|attempts| - 1];
      Attempted(plan, target, last.found, last.events, before.rows, before.applied).1
  }

  /** Every attempt met the right answer to its search. */
  ghost predicate Searched(g: Graph, plan: Plan, target: Version, attempts: seq<Attempt>,
                           rows: seq<Migration>, applied: seq<Effect>) {
    attempts != [] ==>
      var front, last := attempts[..|attempts| - 1], attempts[|attempts| - 1];
      && Searched(g, plan, target, front, rows, applied)
      && Answers(g, CurrentVersion(AfterAttempts(plan, target, front, rows, applied).rows), target, last.found)
  }

  /** From a table that follows the path the first search answers, any number of attempts with any
      failures leave tables that follow it. */
  lemma {:induction false} AttemptsStayOnPath(g: Graph, plan: Plan, src: Version, target: Version, p: Walk,
                                              attempts: seq<Attempt>, base: seq<Migration>, applied0: seq<Effect>,
                                              rows: seq<Migration>, applied: seq<Effect>)
    requires WellFormed(g) && NamesDistinct(plan)
    requires EndsAt(base, src) && Answers(g, src, target, Path(p))
    requires InPhase(plan, src, p, base, applied0, rows, applied)
    requires Searched(g, plan, target, attempts, rows, applied)
    ensures var ran := AfterAttempts(plan, target, attempts, rows, applied);
            InPhase(plan, src, p, base, applied0, ran.rows, ran.applied)
  {
    if attempts != [] {
      var front, last := attempts[..|attempts| - 1], attempts[|attempts| - 1];
      AttemptsStayOnPath(g, plan, src, target, p, front, base, applied0, rows, applied);
      var before := AfterAttempts(plan, target, front, rows, applied);
      AttemptKeepsPhase(g, plan, src, target, p, last.found, last.events, base, applied0, before.rows, before.applied);
    }
  }

  function Successes(rows: seq<Migration>): seq<Version> {
    if rows == [] then []
    else
      var m := rows[|rows| - 1];
      Successes(rows[..|rows| - 1]) + if m.status == Succeeded then [m.version] else []
  }

  /** The successful rows form a beginning of the path, in its order. */
  lemma {:induction false} SuccessesArePrefix(plan: Plan, src: Version, p: Walk, rows: seq<Migration>)
    requires Replay(plan, src, p, rows).Some?
    ensures var c := Replay(plan, src, p, rows).value;
            c.done <= |p| && Successes(rows) == p[..c.done]
  {
    if rows != [] {
      SuccessesArePrefix(plan, src, p, rows[..|rows| - 1]);
      var d := Replay(plan, src, p, rows[..|rows| - 1]).value.done;
      TakeMore([], p, d);
    }
  }

  // ---------------------------------------------------------------------------------------
  // The effects of steps with the default condition
  // ---------------------------------------------------------------------------------------

  function DefaultOf(e: Effect): seq<Effect> {
    if e.step.custom then [] else [e]
  }

  function Defaults(es: seq<Effect>): seq<Effect> {
    if es == [] then [] else Defaults(es[..|es| - 1]) + DefaultOf(es[|es| - 1])
  }

  /** The steps `lo..hi` of a recipe that have the default condition, as effects, in order. */
  function DefaultsIn(version: Version, steps: seq<Step>, lo: nat, hi: nat): seq<Effect>
    requires hi <= |steps|
  {
    if hi <= lo then []
    else DefaultsIn(version, steps, lo, hi - 1) + if steps[hi - 1].custom then [] else [Effect(version, steps[hi - 1])]
  }

  /** Each default step of the first `d` recipes of the path once, in order. */
  function WholeRecipes(plan: Plan, src: Version, p: Walk, d: nat): seq<Effect>
    requires d <= |p|
  {
    if d == 0 then []
    else
      var steps := StepsAt(plan, src, p, d - 1);
      WholeRecipes(plan, src, p, d - 1) + DefaultsIn(p[d - 1], steps, 0, |steps|)
  }

  /** What should have been applied: the recipes that are done, and those default steps of the
      next one that some run got past. */
  ghost function Expected(plan: Plan, src: Version, p: Walk, c: Cursor): seq<Effect>
    requires Sound(plan, src, p, c)
  {
    WholeRecipes(plan, src, p, c.done) +
    if c.done < |p| then DefaultsIn(p[c.done], StepsAt(plan, src, p, c.done), 0, c.reach) else []
  }

  /** The run that left `m` repeats no default step: none lies past the marks it read, within
      its own reach, and within the reach of the runs before. */
  ghost predicate RepeatsNothing(steps: seq<Step>, c: Cursor, m: Migration) {
    forall i :: 0 <= i < |steps| && Marked(c.last) <= i < Reached(m) && i < c.reach ==> steps[i].custom
  }

  ghost predicate Harmless(plan: Plan, src: Version, p: Walk, rows: seq<Migration>) {
    rows != [] ==>
      var before, m := rows[..|rows| - 1], rows[|rows| - 1];
      var c := Replay(plan, src, p, before);
      && Harmless(plan, src, p, before)
      && (c.Some? && c.value.done < |p| ==> RepeatsNothing(StepsAt(plan, src, p, c.value.done), c.value, m))
  }

  lemma {:induction false} DefaultsSnoc(a: seq<Effect>, e: Effect)
    ensures Defaults(a + [e]) == Defaults(a) + DefaultOf(e)
  {
    assert (a + [e])[..|a|] == a;
  }

  lemma {:induction false} DefaultsConcatSnoc(a: seq<Effect>, front: seq<Effect>, last: Effect)
    requires Defaults(a + front) == Defaults(a) + Defaults(front)
    ensures Defaults(a + (front + [last])) == Defaults(a) + Defaults(front + [last])
  {
    DefaultsSnoc(a + front, last);
    DefaultsSnoc(front, last);
    Regroup(a, front, [last]);
    Regroup(Defaults(a), Defaults(front), DefaultOf(last));
  }

  lemma DefaultsConcatNone(a: seq<Effect>)
    ensures Defaults(a + []) == Defaults(a) + Defaults([])
  {
    assert a + [] == a;
  }

  lemma {:induction false} DefaultsConcat(a: seq<Effect>, b: seq<Effect>)
    ensures Defaults(a + b) == Defaults(a) + Defaults(b)
  {
    if b == [] {
      DefaultsConcatNone(a);
    } else {
      DefaultsConcat(a, b[..|b| - 1]);
      DefaultsConcatSnoc(a, b[..|b| - 1], b[|b| - 1]);
      SplitLast(b);
    }
  }

  lemma {:induction false} DefaultsInSplit(version: Version, steps: seq<Step>, lo: nat, mid: nat, hi: nat)
    requires lo <= mid <= hi <= |steps|
    ensures DefaultsIn(version, steps, lo, hi) == DefaultsIn(version, steps, lo, mid) + DefaultsIn(version, steps, mid, hi)
  {
    if mid < hi {
      DefaultsInSplit(version, steps, lo, mid, hi - 1);
    }
  }

  lemma {:induction false} DefaultsInNone(version: Version, steps: seq<Step>, lo: nat, hi: nat)
    requires hi <= |steps| && forall i :: lo <= i < hi ==> steps[i].custom
    ensures DefaultsIn(version, steps, lo, hi) == []
  {
    if lo < hi {
      DefaultsInNone(version, steps, lo, hi - 1);
    }
  }

  /** What the entry of one step adds. */
  lemma {:induction false} EntryAddsUnmarked(steps: seq<Step>, version: Version, marked: nat, k: nat, entry: StepLog)
    requires k < |steps| && EntryFor(steps[k], k < marked, entry)
    ensures DefaultsIn(version, steps, marked, k) + Defaults(if entry.status == Success then [Effect(version, steps[k])] else []) ==
            DefaultsIn(version, steps, marked, k + 1)
  {
    DefaultsOfOne(Effect(version, steps[k]));
    if k < marked {
      DefaultsInBeyond(version, steps, marked, k);
    }
  }

  /** The default steps a row adds are those past the marks its run read. */
  lemma {:induction false} LogAddsUnmarked(steps: seq<Step>, version: Version, marked: nat, log: seq<StepLog>, n: nat)
    requires n <= |log| && n <= |steps| && forall i :: 0 <= i < n ==> EntryFor(steps[i], i < marked, log[i])
    ensures Defaults(EffectsOfLog(steps, version, log[..n])) == DefaultsIn(version, steps, marked, n)
  {
    if n > 0 {
      var front, entry := log[..n - 1], log[n - 1];
      LogAddsUnmarked(steps, version, marked, log, n - 1);
      EntryAddsUnmarked(steps, version, marked, n - 1, entry);
      DefaultsConcat(EffectsOfLog(steps, version, front), if entry.status == Success then [Effect(version, steps[n - 1])] else []);
      LastEntry(steps, version, log, n);
    }
  }

  lemma {:induction false} LastEntry(steps: seq<Step>, version: Version, log: seq<StepLog>, n: nat)
    requires 0 < n <= |log| && n <= |steps|
    ensures EffectsOfLog(steps, version, log[..n]) ==
            EffectsOfLog(steps, version, log[..n - 1]) + if log[n - 1].status == Success then [Effect(version, steps[n - 1])] else []
  {
    assert log[..n][..n - 1] == log[..n - 1];
  }

  lemma DefaultsOfOne(e: Effect)
    ensures Defaults([e]) == DefaultOf(e)
  {
    assert [e][..0] == [];
  }

  lemma DefaultsInBeyond(version: Version, steps: seq<Step>, lo: nat, hi: nat)
    requires hi <= lo && hi <= |steps|
    ensures DefaultsIn(version, steps, lo, hi) == []
  {
  }

  lemma RowAddsUnmarked(steps: seq<Step>, version: Version, last: Option<Migration>, m: Migration)
    requires RowOf(steps, version, last, m)
    ensures Defaults(Effects(steps, m)) == DefaultsIn(version, steps, Marked(last), Reached(m))
  {
    LogAddsUnmarked(steps, version, Marked(last), m.steps, Reached(m));
  }

  // ---------------------------------------------------------------------------------------
  // Harmless histories apply every default step once, in order
  // ---------------------------------------------------------------------------------------

  function Max(a: nat, b: nat): nat {
    if a > b then a else b
  }

  lemma ReachGrows(version: Version, steps: seq<Step>, marked: nat, reach: nat, r: nat)
    requires marked <= reach <= |steps| && r <= |steps|
    requires forall i :: marked <= i < r && i < reach ==> steps[i].custom
    ensures DefaultsIn(version, steps, 0, reach) + DefaultsIn(version, steps, marked, r) ==
            DefaultsIn(version, steps, 0, Max(reach, r))
  {
    if r <= reach {
      DefaultsInNone(version, steps, marked, r);
    } else {
      DefaultsInNone(version, steps, marked, reach);
      DefaultsInSplit(version, steps, marked, reach, r);
      DefaultsInSplit(version, steps, 0, reach, r);
    }
  }

  lemma AdvanceReaches(plan: Plan, src: Version, p: Walk, c: Cursor, m: Migration)
    requires Sound(plan, src, p, c) && c.done < |p| && Advance(plan, src, p, c, m).Some?
    ensures var c' := Advance(plan, src, p, c, m).value;
            var steps := StepsAt(plan, src, p, c.done);
            Sound(plan, src, p, c') && Max(c.reach, Reached(m)) <= |steps|
            && Expected(plan, src, p, c') ==
               WholeRecipes(plan, src, p, c.done) + DefaultsIn(p[c.done], steps, 0, Max(c.reach, Reached(m)))
  {
    if m.status == Succeeded {
      SuccessReaches(plan, src, p, c, m);
    }
  }

  lemma SuccessReaches(plan: Plan, src: Version, p: Walk, c: Cursor, m: Migration)
    requires Sound(plan, src, p, c) && c.done < |p| && Advance(plan, src, p, c, m).Some? && m.status == Succeeded
    ensures var steps := StepsAt(plan, src, p, c.done);
            && Max(c.reach, Reached(m)) == |steps|
            && Expected(plan, src, p, Cursor(c.done + 1, None, 0)) ==
               WholeRecipes(plan, src, p, c.done) + DefaultsIn(p[c.done], steps, 0, |steps|)
  {
    NothingStarted(plan, src, p, c.done + 1);
  }

  lemma ExpectedGrows(plan: Plan, src: Version, p: Walk, c: Cursor, m: Migration)
    requires Sound(plan, src, p, c) && c.done < |p| && Advance(plan, src, p, c, m).Some?
    requires RepeatsNothing(StepsAt(plan, src, p, c.done), c, m)
    ensures Sound(plan, src, p, Advance(plan, src, p, c, m).value)
    ensures Expected(plan, src, p, c) + Defaults(Effects(StepsAt(plan, src, p, c.done), m)) ==
            Expected(plan, src, p, Advance(plan, src, p, c, m).value)
  {
    var v, steps := p[c.done], StepsAt(plan, src, p, c.done);
    RowAddsUnmarked(steps, v, c.last, m);
    AdvanceReaches(plan, src, p, c, m);
    ReachGrows(v, steps, Marked(c.last), c.reach, Reached(m));
    Regroup(WholeRecipes(plan, src, p, c.done), DefaultsIn(v, steps, 0, c.reach),
            DefaultsIn(v, steps, Marked(c.last), Reached(m)));
  }

  lemma NothingStarted(plan: Plan, src: Version, p: Walk, d: nat)
    requires d <= |p|
    ensures Expected(plan, src, p, Cursor(d, None, 0)) == WholeRecipes(plan, src, p, d)
  {
  }

  lemma {:induction false} AppliedInOrder(plan: Plan, src: Version, p: Walk, rows: seq<Migration>)
    requires Replay(plan, src, p, rows).Some? && Harmless(plan, src, p, rows)
    ensures Sound(plan, src, p, Replay(plan, src, p, rows).value)
    ensures Defaults(Journal(plan, src, p, rows)) == Expected(plan, src, p, Replay(plan, src, p, rows).value)
  {
    ReplayIsSound(plan, src, p, rows);
    if rows == [] {
      NothingStarted(plan, src, p, 0);
    } else {
      var before, m := rows[..|rows| - 1], rows[|rows| - 1];
      var c := Replay(plan, src, p, before).value;
      AppliedInOrder(plan, src, p, before);
      ExpectedGrows(plan, src, p, c, m);
      DefaultsConcat(Journal(plan, src, p, before), Effects(StepsAt(plan, src, p, c.done), m));
    }
  }

  // ---------------------------------------------------------------------------------------
  // and no others do
  // ---------------------------------------------------------------------------------------

  lemma {:induction false} DefaultsInMembers(version: Version, steps: seq<Step>, lo: nat, hi: nat)
    requires hi <= |steps|
    ensures forall e :: e in DefaultsIn(version, steps, lo, hi) ==> e.version == version && e.step in steps[..hi]
    ensures forall i :: lo <= i < hi && !steps[i].custom ==> Effect(version, steps[i]) in DefaultsIn(version, steps, lo, hi)
  {
    if lo < hi {
      DefaultsInMembers(version, steps, lo, hi - 1);
      assert steps[..hi] == steps[..hi - 1] + [steps[hi - 1]];
    }
  }

  lemma {:induction false} StepNotBefore(steps: seq<Step>, k: nat)
    requires DistinctNames(steps) && k < |steps|
    ensures steps[k] !in steps[..k]
  {
    forall i | 0 <= i < k
      ensures steps[i] != steps[k]
    {
      NamesApart(steps, i, k);
    }
  }

  lemma {:induction false} DefaultsInNoRepeat(version: Version, steps: seq<Step>, lo: nat, hi: nat)
    requires DistinctNames(steps) && hi <= |steps|
    ensures NoRepeat(DefaultsIn(version, steps, lo, hi))
  {
    if lo < hi {
      var front := DefaultsIn(version, steps, lo, hi - 1);
      DefaultsInNoRepeat(version, steps, lo, hi - 1);
      if steps[hi - 1].custom {
        assert front + [] == front;
      } else {
        DefaultsInMembers(version, steps, lo, hi - 1);
        StepNotBefore(steps, hi - 1);
        NoRepeatSnoc(front, Effect(version, steps[hi - 1]));
      }
    }
  }

  lemma {:induction false} WholeRecipesMembers(plan: Plan, src: Version, p: Walk, d: nat, e: Effect)
    requires d <= |p| && e in WholeRecipes(plan, src, p, d)
    ensures e.version in p[..d]
  {
    if d > 0 {
      TakeMore([], p, d - 1);
      var v, steps := p[d - 1], StepsAt(plan, src, p, d - 1);
      DefaultsInMembers(v, steps, 0, |steps|);
      if e in WholeRecipes(plan, src, p, d - 1) {
        WholeRecipesMembers(plan, src, p, d - 1, e);
      }
    }
  }

  lemma {:induction false} WholeRecipesNoRepeat(plan: Plan, src: Version, p: Walk, d: nat)
    requires NamesDistinct(plan) && NoRepeat(p) && d <= |p|
    ensures NoRepeat(WholeRecipes(plan, src, p, d))
  {
    if d > 0 {
      var v, steps := p[d - 1], StepsAt(plan, src, p, d - 1);
      WholeRecipesNoRepeat(plan, src, p, d - 1);
      DefaultsInNoRepeat(v, steps, 0, |steps|);
      NewRecipeApart(plan, src, p, d - 1, |steps|);
      NoRepeatConcat(WholeRecipes(plan, src, p, d - 1), DefaultsIn(v, steps, 0, |steps|));
    }
  }

  /** The effects of a recipe are none of those of the recipes before it. */
  lemma {:induction false} NewRecipeApart(plan: Plan, src: Version, p: Walk, d: nat, reach: nat)
    requires NoRepeat(p) && d < |p| && reach <= |StepsAt(plan, src, p, d)|
    ensures forall e :: e in DefaultsIn(p[d], StepsAt(plan, src, p, d), 0, reach) ==> e !in WholeRecipes(plan, src, p, d)
  {
    DefaultsInMembers(p[d], StepsAt(plan, src, p, d), 0, reach);
    DistinctBefore(p, d);
    forall e | e in WholeRecipes(plan, src, p, d)
      ensures e.version in p[..d]
    {
      WholeRecipesMembers(plan, src, p, d, e);
    }
  }

  lemma {:induction false} DistinctBefore(p: Walk, d: nat)
    requires NoRepeat(p) && d < |p|
    ensures p[d] !in p[..d]
  {
    forall i | 0 <= i < d
      ensures p[i] != p[d]
    {
      NoRepeatApart(p, i, d);
    }
  }

  lemma ExpectedNoRepeat(plan: Plan, src: Version, p: Walk, c: Cursor)
    requires NamesDistinct(plan) && NoRepeat(p) && Sound(plan, src, p, c)
    ensures NoRepeat(Expected(plan, src, p, c))
  {
    WholeRecipesNoRepeat(plan, src, p, c.done);
    var whole := WholeRecipes(plan, src, p, c.done);
    if c.done < |p| {
      var v, steps := p[c.done], StepsAt(plan, src, p, c.done);
      DefaultsInNoRepeat(v, steps, 0, c.reach);
      NewRecipeApart(plan, src, p, c.done, c.reach);
      NoRepeatConcat(whole, DefaultsIn(v, steps, 0, c.reach));
    } else {
      assert whole + [] == whole;
    }
  }

  /** The first harmful run applies a step that was applied before. */
  lemma HarmRepeats(plan: Plan, src: Version, p: Walk, rows: seq<Migration>)
    requires rows != [] && Replay(plan, src, p, rows).Some?
    requires Harmless(plan, src, p, rows[..|rows| - 1]) && !Harmless(plan, src, p, rows)
    ensures !NoRepeat(Defaults(Journal(plan, src, p, rows)))
  {
    var before, m := rows[..|rows| - 1], rows[|rows| - 1];
    var c := Replay(plan, src, p, before).value;
    var v, steps := p[c.done], StepsAt(plan, src, p, c.done);
    AppliedInOrder(plan, src, p, before);
    var i :| 0 <= i < |steps| && Marked(c.last) <= i < Reached(m) && i < c.reach && !steps[i].custom;
    var e := Effect(v, steps[i]);
    DefaultsInMembers(v, steps, 0, c.reach);
    DefaultsInMembers(v, steps, Marked(c.last), Reached(m));
    RowAddsUnmarked(steps, v, c.last, m);
    DefaultsConcat(Journal(plan, src, p, before), Effects(steps, m));
    assert e in Defaults(Journal(plan, src, p, before)) && e in Defaults(Effects(steps, m));
    RepeatStays(Defaults(Journal(plan, src, p, before)), Defaults(Effects(steps, m)));
  }

  /** No default step is applied twice if and only if no run gets past a default step that an
      earlier run got past and the newest failed row does not mark. */
  lemma {:induction false} AtMostOnceIff(plan: Plan, src: Version, p: Walk, rows: seq<Migration>)
    requires NamesDistinct(plan) && NoRepeat(p) && Replay(plan, src, p, rows).Some?
    ensures NoRepeat(Defaults(Journal(plan, src, p, rows))) <==> Harmless(plan, src, p, rows)
  {
    if Harmless(plan, src, p, rows) {
      AppliedInOrder(plan, src, p, rows);
      ExpectedNoRepeat(plan, src, p, Replay(plan, src, p, rows).value);
    } else {
      var before, m := rows[..|rows| - 1], rows[|rows| - 1];
      if Harmless(plan, src, p, before) {
        HarmRepeats(plan, src, p, rows);
      } else {
        AtMostOnceIff(plan, src, p, before);
        var c := Replay(plan, src, p, before).value;
        DefaultsConcat(Journal(plan, src, p, before), Effects(StepsAt(plan, src, p, c.done), m));
        RepeatStays(Defaults(Journal(plan, src, p, before)), Defaults(Effects(StepsAt(plan, src, p, c.done), m)));
      }
    }
  }

  /** The versions of an answer are distinct. */
  lemma {:induction false} AnswerIsDistinct(g: Graph, src: Version, target: Version, p: Walk)
    requires WellFormed(g) && Answers(g, src, target, Path(p))
    ensures NoRepeat(p)
    decreases |p|
  {
    if p != [] {
      HeadNotLater(g, src, target, p);
      assert p == [p[0]] + p[1..];
      ResumeIsStable(g, src, target, p[0], p[1..]);
      AnswerIsDistinct(g, p[0], target, p[1..]);
      NoRepeatCons(p[0], p[1..]);
    }
  }

  // ---------------------------------------------------------------------------------------
  // When histories are harmless
  // ---------------------------------------------------------------------------------------

  /** No retry of a recipe fails before the place where the run before it failed. */
  ghost predicate NoSetback(plan: Plan, src: Version, p: Walk, rows: seq<Migration>) {
    rows != [] ==>
      var before, m := rows[..|rows| - 1], rows[|rows| - 1];
      var c := Replay(plan, src, p, before);
      NoSetback(plan, src, p, before) && (c.Some? ==> Marked(c.value.last) <= Reached(m))
  }

  lemma {:induction false} NoSetbackIsHarmless(plan: Plan, src: Version, p: Walk, rows: seq<Migration>)
    requires Replay(plan, src, p, rows).Some? && NoSetback(plan, src, p, rows)
    ensures Harmless(plan, src, p, rows)
    ensures Replay(plan, src, p, rows).value.reach == Marked(Replay(plan, src, p, rows).value.last)
  {
    if rows != [] {
      NoSetbackIsHarmless(plan, src, p, rows[..|rows| - 1]);
    }
  }

  /** A run cannot fail at a marked step unless something outside the step function breaks: it
      gets past the marks if their steps have the default condition and nothing breaks there. */
  lemma RetryPassesMarks(steps: seq<Step>, version: Version, last: Migration, events: Events)
    requires DistinctNames(steps) && FailedRowOf(steps, version, last)
    requires forall i :: 0 <= i < Reached(last) ==> !steps[i].custom && !EventAt(events, i).Breaks?
    ensures Reached(last) <= Reached(RowOfRun(steps, version, Some(last), events))
  {
    var f := FailsAt(steps, version, Some(last), events, 0);
    FailsAtFirst(steps, version, Some(last), events, 0);
    if f < Reached(last) {
      DefaultConditionReadsMarks(steps, version, last, f);
    }
  }

  /** Once the whole path is done, a harmless history has applied every default step of every
      recipe exactly once, in the order of the path. */
  lemma ExactlyOnceWhenDone(plan: Plan, src: Version, p: Walk, rows: seq<Migration>)
    requires NamesDistinct(plan) && NoRepeat(p) && Replay(plan, src, p, rows).Some?
    requires Replay(plan, src, p, rows).value.done == |p| && Harmless(plan, src, p, rows)
    ensures Defaults(Journal(plan, src, p, rows)) == WholeRecipes(plan, src, p, |p|)
    ensures NoRepeat(Defaults(Journal(plan, src, p, rows)))
  {
    AppliedInOrder(plan, src, p, rows);
    AtMostOnceIff(plan, src, p, rows);
    assert WholeRecipes(plan, src, p, |p|) + [] == WholeRecipes(plan, src, p, |p|);
  }

  /** Any number of attempts after a successful upgrade to `src`, or on a database that has known
      failures only: they leave rows whose successes are a beginning of the path, no default step is
      applied twice exactly when the rows are harmless, and then, once the path is done, each has
      been applied exactly once, in order. */
  lemma {:induction false} AttemptsApplyOnce(g: Graph, plan: Plan, src: Version, target: Version, p: Walk,
                                             attempts: seq<Attempt>, base: seq<Migration>, applied0: seq<Effect>,
                                             rows: seq<Migration>, applied: seq<Effect>)
      returns (news: seq<Migration>)
    requires WellFormed(g) && NamesDistinct(plan)
    requires EndsAt(base, src) && Answers(g, src, target, Path(p))
    requires InPhase(plan, src, p, base, applied0, rows, applied)
    requires Searched(g, plan, target, attempts, rows, applied)
    ensures var ran := AfterAttempts(plan, target, attempts, rows, applied);
            && OnPath(plan, src, p, base, applied0, ran.rows, ran.applied, news)
            && var done := Replay(plan, src, p, news).value.done;
               && done <= |p| && Successes(news) == p[..done]
               && (NoRepeat(Defaults(Journal(plan, src, p, news))) <==> Harmless(plan, src, p, news))
               && (done == |p| && Harmless(plan, src, p, news) ==>
                     Defaults(ran.applied) == Defaults(applied0) + WholeRecipes(plan, src, p, |p|))
  {
    AttemptsStayOnPath(g, plan, src, target, p, attempts, base, applied0, rows, applied);
    var ran := AfterAttempts(plan, target, attempts, rows, applied);
    news :| OnPath(plan, src, p, base, applied0, ran.rows, ran.applied, news);
    SuccessesArePrefix(plan, src, p, news);
    AnswerIsDistinct(g, src, target, p);
    AtMostOnceIff(plan, src, p, news);
    DefaultsConcat(applied0, Journal(plan, src, p, news));
    if Replay(plan, src, p, news).value.done == |p| && Harmless(plan, src, p, news) {
      ExactlyOnceWhenDone(plan, src, p, news);
    }
  }

  lemma {:induction false} TwoNames(a: Step, b: Step)
    requires a.name != b.name
    ensures DistinctNames([a, b])
  {
    assert Names([a, b]) == [a.name, b.name];
    ApartNoRepeat([a.name, b.name]);
  }

  lemma {:induction false} ForgottenStops(a: Step, b: Step)
    requires !a.custom && !b.custom && a.name != b.name
    ensures var steps := [a, b];
            var first := RowOfRun(steps, 2, None, [Goes(true, true), Goes(true, false)]);
            var second := RowOfRun(steps, 2, Some(first), [Breaks]);
            && FailsAt(steps, 2, None, [Goes(true, true), Goes(true, false)], 0) == 1
            && FailsAt(steps, 2, Some(first), [Breaks], 0) == 0
            && FailsAt(steps, 2, Some(second), [], 0) == 2
            && FailsAt(steps, 2, Some(second), [], 1) == 2
  {
    var steps := [a, b];
    var e1, e2, e3: Events := [Goes(true, true), Goes(true, false)], [Breaks], [];
    assert FailsAt(steps, 2, None, e1, 1) == 1;
    TwoNames(a, b);
    var first := RowOfRun(steps, 2, None, e1);
    var second := RowOfRun(steps, 2, Some(first), e2);
    RunFollows(steps, 2, None, e1, None);
    RunFollows(steps, 2, Some(first), e2, Some(first));
    DefaultConditionReadsMarks(steps, 2, second, 0);
    DefaultConditionReadsMarks(steps, 2, second, 1);
  }

  lemma {:induction false} ForgottenReplay(a: Step, b: Step)
    requires !a.custom && !b.custom && a.name != b.name
    ensures var steps := [a, b];
            var first := RowOfRun(steps, 2, None, [Goes(true, true), Goes(true, false)]);
            var second := RowOfRun(steps, 2, Some(first), [Breaks]);
            var third := RowOfRun(steps, 2, Some(second), []);
            var plan := map[(1, 2) := steps];
            && Replay(plan, 1, [2], [first, second]) == Some(Cursor(0, Some(second), 1))
            && Replay(plan, 1, [2], [first, second] + [third]) == Some(Cursor(1, None, 0))
            && Reached(third) == 2 && Reached(second) == 0
  {
    var steps, plan := [a, b], map[(1, 2) := [a, b]];
    var e1, e2, e3: Events := [Goes(true, true), Goes(true, false)], [Breaks], [];
    ForgottenStops(a, b);
    TwoNames(a, b);
    var first := RowOfRun(steps, 2, None, e1);
    var second := RowOfRun(steps, 2, Some(first), e2);
    var third := RowOfRun(steps, 2, Some(second), e3);
    RunFollows(steps, 2, None, e1, None);
    RunFollows(steps, 2, Some(first), e2, Some(first));
    RunFollows(steps, 2, Some(second), e3, Some(second));
    ReplaySnoc(plan, 1, [2], [], first);
    ReplaySnoc(plan, 1, [2], [first], second);
    ReplaySnoc(plan, 1, [2], [first, second], third);
    assert [] + [first] == [first] && [first] + [second] == [first, second];
  }

  lemma {:induction false} HarmfulRow(plan: Plan, src: Version, p: Walk, before: seq<Migration>, m: Migration)
    requires Replay(plan, src, p, before).Some? && Replay(plan, src, p, before).value.done < |p|
    requires var c := Replay(plan, src, p, before).value; !RepeatsNothing(StepsAt(plan, src, p, c.done), c, m)
    ensures !Harmless(plan, src, p, before + [m])
  {
    assert (before + [m])[..|before|] == before;
  }

  /** A recipe with two steps: a run applies the first and fails in the second; its retry breaks
      before the first; the next retry applies the first step again. */
  lemma {:induction false} ForgottenMarks(a: Step, b: Step)
    requires !a.custom && !b.custom && a.name != b.name
    ensures var steps := [a, b];
            var first := RowOfRun(steps, 2, None, [Goes(true, true), Goes(true, false)]);
            var second := RowOfRun(steps, 2, Some(first), [Breaks]);
            var third := RowOfRun(steps, 2, Some(second), []);
            var rows, plan := [first, second] + [third], map[(1, 2) := steps];
            && Replay(plan, 1, [2], rows) == Some(Cursor(1, None, 0))
            && !NoRepeat(Defaults(Journal(plan, 1, [2], rows)))
  {
    ForgottenReplay(a, b);
    TwoNames(a, b);
    var steps, plan := [a, b], map[(1, 2) := [a, b]];
    var first := RowOfRun(steps, 2, None, [Goes(true, true), Goes(true, false)]);
    var second := RowOfRun(steps, 2, Some(first), [Breaks]);
    var third := RowOfRun(steps, 2, Some(second), []);
    assert !steps[0].custom;
    HarmfulRow(plan, 1, [2], [first, second], third);
    AtMostOnceIff(plan, 1, [2], [first, second] + [third]);
  }
}
