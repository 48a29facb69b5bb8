/** Registering recipes and their steps (b2share/modules/upgrade/api.py). */
module UpgradeRegistry {
  import opened Sequences
  import opened UpgradePath
  import opened UpgradeRun
  import opened UpgradeHistory

  /** The class dictionary every recipe registers in, and the steps of the recipes. */
  class Registry {
    var upgrades: Graph
    var plan: Plan

    /** What the search and the runs rely on. */
    ghost predicate Valid()
      reads this
    {
      && WellFormed(upgrades) && NamesDistinct(plan)
      && forall v, w :: (v, w) in plan <==> v in upgrades && w in upgrades[v]
    }

    constructor ()
      ensures Valid() && upgrades == map[]
    {
      upgrades, plan := map[], map[];
    }

    /** The constructor of a recipe; false is its assertion that the pair of versions is new. */
    method NewRecipe(src: Version, dst: Version) returns (ok: bool)
      requires Valid()
      modifies this
      ensures Valid()
      ensures ok <==> (src, dst) !in old(plan)
      ensures ok ==> upgrades == old(upgrades)[src := (if src in old(upgrades) then old(upgrades)[src] else []) + [dst]]
      ensures ok ==> plan == old(plan)[(src, dst) := []]
      ensures !ok ==> upgrades == old(upgrades) && plan == old(plan)
    {
      var targets := if src in upgrades then upgrades[src] else [];
      if Find(targets, dst) < |targets| {
        return false;
      }
      assert dst !in targets;
      NoRepeatSnoc(targets, dst);
      upgrades, plan := upgrades[src := targets + [dst]], plan[(src, dst) := []];
      return true;
    }

    /** The decorator that appends a step; false is its assertion that the name is new. */
    method AddStep(src: Version, dst: Version, step: Step) returns (ok: bool)
      requires Valid() && (src, dst) in plan
      modifies this`plan
      ensures Valid()
      ensures ok <==> forall i :: 0 <= i < |old(plan)[(src, dst)]| ==> old(plan)[(src, dst)][i].name != step.name
      ensures plan == if ok then old(plan)[(src, dst) := old(plan)[(src, dst)] + [step]] else old(plan)
    {
      var steps := plan[(src, dst)];
      for i := 0 to |steps|
        invariant forall j :: 0 <= j < i ==> steps[j].name != step.name
      {
        if steps[i].name == step.name {
          return false;
        }
      }
      NamesSnoc(steps, step);
      plan := plan[(src, dst) := steps + [step]];
      return true;
    }
  }
}
