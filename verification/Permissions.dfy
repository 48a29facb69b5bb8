/** Who may change a deposit, and what a run of permitted changes looks like
    (b2share/modules/access/permissions.py, b2share/modules/deposit/permissions.py,
    b2share/modules/files/permissions.py). */
module Permissions {
  import opened Options
  import opened KeyOrder
  import opened Needs
  import opened Sequences
  import VersionChains

  type State = VersionChains.State

  /** What an identity provides and a permission asks for. */
  datatype Claim = User(id: int) | Role(id: int) | Authenticated | Action(need: Need)

  /** A row of the tables that allow or deny an action to a user or to a role. A row without an
      argument speaks for every argument. */
  datatype Row = Row(action: string, argument: Option<string>, grantee: Claim, exclude: bool)

  type Identity = set<Claim>

  datatype Permission =
    | Strict(explicit: set<Claim>)
    | And(parts: seq<Permission>)
    | Or(parts: seq<Permission>)
    | Deny

  const SUPERUSER: Claim := Action(Need("superuser-access", None))

  // ---------------------------------------------------------------------------------------
  // Permissions
  // ---------------------------------------------------------------------------------------

  predicate Concerns(row: Row, need: Need) {
    row.action == need.action && (row.argument == None || row.argument == need.argument)
  }

  /** Some row about the need, allowing or denying it, names the identity. */
  ghost predicate Named(rows: seq<Row>, claim: Claim, who: Identity, exclude: bool) {
    claim.Action? && exists row :: row in rows && row.exclude == exclude && Concerns(row, claim.need) && row.grantee in who
  }

  /** The identity provides the claim itself, or the tables grant it to the identity. */
  ghost predicate Holds(rows: seq<Row>, claim: Claim, who: Identity) {
    claim in who || Named(rows, claim, who, false)
  }

  /** A permission that must be met explicitly; access for superusers is always among its needs. */
  ghost predicate StrictAllows(rows: seq<Row>, explicit: set<Claim>, who: Identity) {
    && (Holds(rows, SUPERUSER, who) || exists c :: c in explicit && Holds(rows, c, who))
    && !Named(rows, SUPERUSER, who, true)
    && !(exists c :: c in explicit && Named(rows, c, who, true))
  }

  /** An empty combination, of either kind, allows nothing. */
  ghost predicate Allows(rows: seq<Row>, p: Permission, who: Identity)
    decreases p
  {
    match p
    case Strict(explicit) => StrictAllows(rows, explicit, who)
    case And(parts) => parts != [] && forall q :: q in parts ==> Allows(rows, q, who)
    case Or(parts) => exists q :: q in parts && Allows(rows, q, who)
    case Deny => false
  }

  // ---------------------------------------------------------------------------------------
  // Updating a deposit
  // ---------------------------------------------------------------------------------------

  function Name(s: State): string {
    match s
    case Draft => "draft"
    case Submitted => "submitted"
    case Published => "published"
  }

  ghost function StateNeed(community: string, before: State, after: State): Claim {
    Action(NeedFactory("update-deposit-publication-state", StateArguments(community, before, after)))
  }

  function StateArguments(community: string, before: State, after: State): Arguments {
    map["community" := Some(community), "old_state" := Some(Name(before)), "new_state" := Some(Name(after))]
  }

  ghost function MetadataNeed(community: string, state: Option<string>): Claim {
    Action(NeedFactory("update-deposit-metadata", map["community" := Some(community), "publication_state" := state]))
  }

  function Owners(owners: set<int>): set<Claim> {
    set o | o in owners :: User(o)
  }

  /** `after` is None when no new state is given. */
  ghost function UpdateMetadata(community: string, owners: set<int>, before: State, after: Option<State>): Permission {
    Strict(Owners(owners) + {MetadataNeed(community, Some(Name(before)))}
           + if after == Some(before) then {} else {MetadataNeed(community, if after.None? then None else Some(Name(after.value)))})
  }

  ghost function UpdateState(community: string, owners: set<int>, before: State, after: State): Permission {
    Strict({StateNeed(community, before, after)}
           + if (before.Draft? && after.Submitted?) || (before.Submitted? && after.Draft?) then Owners(owners) else {})
  }

  ghost function UpdateFiles(community: string, owners: set<int>, before: State): Permission {
    if before.Published? then Or([Deny]) else Or([Strict({}), UpdateMetadata(community, owners, before, None)])
  }

  /** A JSON patch of a deposit: who sends it, the tables and the owners at that time, the state it
      asks for, and what else it changes. `storable` says whether anything but the permission and
      the workflow stops it. */
  datatype Patch = Patch(who: Identity, rows: seq<Row>, owners: set<int>, after: State,
                         metadata: bool, externalPids: bool, storable: bool)

  ghost function Required(community: string, before: State, p: Patch): seq<Permission> {
    (if p.after != before then [UpdateState(community, p.owners, before, p.after)] else [])
    + (if before != VersionChains.Published && p.metadata
       then [UpdateMetadata(community, p.owners, before, Some(p.after))] else [])
    + (if before != VersionChains.Published && p.externalPids then [UpdateFiles(community, p.owners, before)] else [])
  }

  /** Building the permission fails for a patch that changes nothing in a deposit that is not
      published: it looks up the state it has just removed from its copy of the deposit. */
  ghost function UpdateDeposit(community: string, before: State, p: Patch): Option<Permission> {
    var required := Required(community, before, p);
    if required == [] && before != VersionChains.Published then None
    else
      Some(Or([Strict({SUPERUSER}),
               if required != [] then Together(required)
               else UpdateMetadata(community, p.owners, before, Some(p.after))]))
  }

  function Together(required: seq<Permission>): Permission
    requires required != []
  {
    if |required| > 1 then And(required) else required[0]
  }

  ghost predicate Permitted(community: string, before: State, p: Patch) {
    var permission := UpdateDeposit(community, before, p);
    permission.Some? && Allows(p.rows, permission.value, p.who)
  }

  // ---------------------------------------------------------------------------------------
  // Runs
  // ---------------------------------------------------------------------------------------

  /** The state a patch leaves a deposit of a reviewing community in; a refused patch leaves it
      alone. */
  ghost function Apply(community: string, before: State, p: Patch): State {
    if !Permitted(community, before, p) || !p.storable then before
    else
      var next := VersionChains.WorkflowState(VersionChains.ReviewAndPublish, before, p.after);
      if next.None? then before else next.value
  }

  /** The state after a run of patches of a new deposit. */
  ghost function After(community: string, patches: seq<Patch>): State {
    if patches == [] then VersionChains.Draft
    else Apply(community, After(community, patches[..|patches| - 1]), patches[|patches| - 1])
  }

  /** A superuser, or the holder of the need for this very transition in this very community. */
  ghost predicate MayMove(p: Patch, community: string, before: State) {
    Holds(p.rows, SUPERUSER, p.who) || Holds(p.rows, StateNeed(community, before, p.after), p.who)
  }

  /** Patch `k` takes the deposit from one state to another. */
  ghost predicate Moves(community: string, patches: seq<Patch>, k: nat, before: State, after: State)
    requires k < |patches|
  {
    After(community, patches[..k]) == before && After(community, patches[..k + 1]) == after
  }

  ghost predicate Owns(p: Patch) {
    exists o :: o in p.owners && User(o) in p.who
  }

  ghost predicate AllowsAll(rows: seq<Row>, required: seq<Permission>, who: Identity) {
    forall q :: q in required ==> Allows(rows, q, who)
  }

  /** A combination of no permissions allows nothing, whichever way it combines them. */
  lemma {:induction false} EmptyAllowsNothing(rows: seq<Row>, who: Identity)
    ensures !Allows(rows, And([]), who) && !Allows(rows, Or([]), who)
  {
  }

  lemma {:induction false} EitherAllows(rows: seq<Row>, a: Permission, b: Permission, who: Identity)
    ensures Allows(rows, Or([a, b]), who) <==> Allows(rows, a, who) || Allows(rows, b, who)
  {
    var whole := Or([a, b]);
    assert whole.parts[0] == a && whole.parts[1] == b;
    assert forall q :: q in whole.parts <==> q == a || q == b;
  }

  lemma {:induction false} TogetherAllows(rows: seq<Row>, required: seq<Permission>, who: Identity)
    requires required != []
    ensures Allows(rows, Together(required), who) <==> AllowsAll(rows, required, who)
  {
    if |required| == 1 {
      assert required[0] in required;
      assert forall q :: q in required ==> q == required[0];
    }
  }

  /** A patch that changes something is permitted to whoever passes as a superuser or meets all the
      permissions its changes require. */
  lemma {:induction false} PermittedIff(community: string, before: State, p: Patch)
    requires Required(community, before, p) != []
    ensures Permitted(community, before, p) <==>
              Allows(p.rows, Strict({SUPERUSER}), p.who) || AllowsAll(p.rows, Required(community, before, p), p.who)
  {
    var required := Required(community, before, p);
    EitherAllows(p.rows, Strict({SUPERUSER}), Together(required), p.who);
    TogetherAllows(p.rows, required, p.who);
  }

  lemma {:induction false} HoldsOne(rows: seq<Row>, explicit: set<Claim>, who: Identity) returns (c: Claim)
    requires StrictAllows(rows, explicit, who) && !Holds(rows, SUPERUSER, who)
    ensures c in explicit && Holds(rows, c, who)
  {
    c :| c in explicit && Holds(rows, c, who);
  }

  lemma {:induction false} HeldByOwner(p: Patch, c: Claim)
    requires c in Owners(p.owners) && Holds(p.rows, c, p.who)
    ensures Owns(p)
  {
    assert c == User(c.id) && c.id in p.owners && c in p.who;
  }

  lemma {:induction false} UpdateStateNeeds(community: string, before: State, p: Patch)
    requires Allows(p.rows, UpdateState(community, p.owners, before, p.after), p.who)
    ensures MayMove(p, community, before) || (Owns(p) && before != VersionChains.Published && p.after != VersionChains.Published)
  {
    if !Holds(p.rows, SUPERUSER, p.who) {
      var c := HoldsOne(p.rows, UpdateState(community, p.owners, before, p.after).explicit, p.who);
      if c != StateNeed(community, before, p.after) {
        HeldByOwner(p, c);
      }
    }
  }

  /** Owners may submit and withdraw; every other change of state takes a superuser or the holder
      of the need for it, whoever owns the deposit. */
  lemma {:induction false} PermittedMove(community: string, before: State, p: Patch)
    requires p.after != before && Permitted(community, before, p)
    ensures MayMove(p, community, before) || (Owns(p) && before != VersionChains.Published && p.after != VersionChains.Published)
  {
    var own := UpdateState(community, p.owners, before, p.after);
    assert Required(community, before, p)[0] == own;
    PermittedIff(community, before, p);
    if AllowsAll(p.rows, Required(community, before, p), p.who) {
      UpdateStateNeeds(community, before, p);
    }
  }

  ghost predicate MayEdit(p: Patch, community: string, state: Option<string>) {
    Holds(p.rows, MetadataNeed(community, state), p.who)
  }

  /** A superuser, an owner, or someone who may edit deposits of the community in one of two states. */
  ghost predicate Edits(p: Patch, community: string, before: State, after: Option<string>) {
    Holds(p.rows, SUPERUSER, p.who) || Owns(p) || MayEdit(p, community, Some(Name(before))) || MayEdit(p, community, after)
  }

  lemma {:induction false} UpdateMetadataNeeds(community: string, before: State, after: Option<State>, p: Patch)
    requires Allows(p.rows, UpdateMetadata(community, p.owners, before, after), p.who)
    ensures Edits(p, community, before, if after.None? then None else Some(Name(after.value)))
  {
    if !Holds(p.rows, SUPERUSER, p.who) {
      var c := HoldsOne(p.rows, UpdateMetadata(community, p.owners, before, after).explicit, p.who);
      if c in Owners(p.owners) {
        HeldByOwner(p, c);
      }
    }
  }

  lemma {:induction false} EditIsRequired(community: string, before: State, p: Patch)
    requires !before.Published? && p.metadata
    ensures UpdateMetadata(community, p.owners, before, Some(p.after)) in Required(community, before, p)
  {
    var edit := UpdateMetadata(community, p.owners, before, Some(p.after));
    assert edit in [edit];
    InMiddle(if p.after != before then [UpdateState(community, p.owners, before, p.after)] else [], [edit],
             if p.externalPids then [UpdateFiles(community, p.owners, before)] else [], edit);
  }

  /** Whoever changes the metadata of an unpublished deposit is a superuser, an owner, or may edit
      deposits of this community in the old or the new state. */
  lemma {:induction false} PermittedEdit(community: string, before: State, p: Patch)
    requires !before.Published? && p.metadata && Permitted(community, before, p)
    ensures Edits(p, community, before, Some(Name(p.after)))
  {
    EditIsRequired(community, before, p);
    PermittedIff(community, before, p);
    if AllowsAll(p.rows, Required(community, before, p), p.who) {
      UpdateMetadataNeeds(community, before, Some(p.after), p);
    } else {
      assert StrictAllows(p.rows, {SUPERUSER}, p.who);
    }
  }

  // ---------------------------------------------------------------------------------------
  // Exactly which patches are permitted
  // ---------------------------------------------------------------------------------------

  /** A row denies the claim to the sender, or to a role of the sender. */
  ghost predicate Denied(p: Patch, claim: Claim) {
    Named(p.rows, claim, p.who, true)
  }

  ghost predicate Super(p: Patch) {
    Holds(p.rows, SUPERUSER, p.who)
  }

  /** Submitting and withdrawing. */
  predicate OwnersMove(before: State, after: State) {
    (before.Draft? && after.Submitted?) || (before.Submitted? && after.Draft?)
  }

  /** The sender may move the deposit: by the need for the transition, or as an owner who submits or
      withdraws; a row that denies the need takes it from owners too. */
  ghost predicate MeetsMove(p: Patch, community: string, before: State) {
    && !Denied(p, StateNeed(community, before, p.after))
    && (Holds(p.rows, StateNeed(community, before, p.after), p.who) || (OwnersMove(before, p.after) && Owns(p)))
  }

  /** The sender may edit the deposit: as an owner, or by the need for one of two states; a row that
      denies one of the needs takes it from all of them. */
  ghost predicate MeetsEdit(p: Patch, community: string, before: State, after: Option<string>) {
    && !Denied(p, MetadataNeed(community, Some(Name(before)))) && !Denied(p, MetadataNeed(community, after))
    && (Owns(p) || MayEdit(p, community, Some(Name(before))) || MayEdit(p, community, after))
  }

  /** Everything that the patch changes is the sender's to change. What it changes besides the state
      of a published deposit does not count; but a patch of one that leaves the state alone is judged
      as an edit, whatever it changes. */
  ghost predicate MeetsAll(p: Patch, community: string, before: State) {
    && (p.after != before ==> MeetsMove(p, community, before))
    && (before.Published? && p.after == before ==> MeetsEdit(p, community, before, Some(Name(before))))
    && (!before.Published? && p.metadata ==> MeetsEdit(p, community, before, Some(Name(p.after))))
    && (!before.Published? && p.externalPids ==> MeetsEdit(p, community, before, None))
  }

  lemma {:induction false} OwnerHolds(p: Patch) returns (c: Claim)
    requires Owns(p)
    ensures c in Owners(p.owners) && Holds(p.rows, c, p.who)
  {
    var o :| o in p.owners && User(o) in p.who;
    c := User(o);
  }

  /** A strict permission asks for one of its claims, and that none of them is denied. */
  lemma {:induction false} StrictIff(p: Patch, needs: set<Claim>, owners: bool)
    requires forall c :: c in needs ==> c.Action?
    ensures Allows(p.rows, Strict(needs + if owners then Owners(p.owners) else {}), p.who) <==>
              && !Denied(p, SUPERUSER) && (forall c :: c in needs ==> !Denied(p, c))
              && (Super(p) || (owners && Owns(p)) || exists c :: c in needs && Holds(p.rows, c, p.who))
  {
    var explicit := needs + if owners then Owners(p.owners) else {};
    forall c | c in Owners(p.owners)
      ensures !Denied(p, c) && (Holds(p.rows, c, p.who) ==> Owns(p))
    {
      if Holds(p.rows, c, p.who) {
        HeldByOwner(p, c);
      }
    }
    if owners && Owns(p) {
      var c := OwnerHolds(p);
      assert c in explicit;
    }
    assert forall c :: c in needs ==> c in explicit;
  }

  lemma {:induction false} StateIff(community: string, before: State, p: Patch)
    ensures Allows(p.rows, UpdateState(community, p.owners, before, p.after), p.who) <==>
              && !Denied(p, SUPERUSER) && !Denied(p, StateNeed(community, before, p.after))
              && (Super(p) || MeetsMove(p, community, before))
  {
    var need := StateNeed(community, before, p.after);
    assert need in {need};
    StrictIff(p, {need}, OwnersMove(before, p.after));
  }

  lemma {:induction false} MetadataIff(community: string, before: State, after: Option<State>, p: Patch)
    ensures var name := if after.None? then None else Some(Name(after.value));
            Allows(p.rows, UpdateMetadata(community, p.owners, before, after), p.who) <==>
              && !Denied(p, SUPERUSER)
              && !Denied(p, MetadataNeed(community, Some(Name(before)))) && !Denied(p, MetadataNeed(community, name))
              && (Super(p) || MeetsEdit(p, community, before, name))
  {
    UpdateMetadataIs(community, before, after, p.owners);
    var name := if after.None? then None else Some(Name(after.value));
    TwoNeedsIff(p, MetadataNeed(community, Some(Name(before))), MetadataNeed(community, name));
  }

  lemma {:induction false} TwoNeedsIff(p: Patch, a: Claim, b: Claim)
    requires a.Action? && b.Action?
    ensures Allows(p.rows, Strict({a, b} + Owners(p.owners)), p.who) <==>
              && !Denied(p, SUPERUSER) && !Denied(p, a) && !Denied(p, b)
              && (Super(p) || Owns(p) || Holds(p.rows, a, p.who) || Holds(p.rows, b, p.who))
  {
    assert a in {a, b} && b in {a, b};
    StrictIff(p, {a, b}, true);
  }

  lemma {:induction false} UpdateMetadataIs(community: string, before: State, after: Option<State>, owners: set<int>)
    ensures var name := if after.None? then None else Some(Name(after.value));
            UpdateMetadata(community, owners, before, after) ==
            Strict({MetadataNeed(community, Some(Name(before))), MetadataNeed(community, name)} + Owners(owners))
  {
    var name := if after.None? then None else Some(Name(after.value));
    RegroupSets(Owners(owners), MetadataNeed(community, Some(Name(before))), MetadataNeed(community, name));
  }

  lemma {:induction false} RegroupSets(s: set<Claim>, a: Claim, b: Claim)
    ensures s + {a} + {b} == {a, b} + s
    ensures s + {a} + {} == {a, a} + s
  {
  }

  /** Nobody, not even a superuser, may change the files of a published deposit. */
  lemma {:induction false} FilesIff(community: string, before: State, p: Patch)
    ensures Allows(p.rows, UpdateFiles(community, p.owners, before), p.who) <==>
              !before.Published? && !Denied(p, SUPERUSER) && (Super(p) || MeetsEdit(p, community, before, None))
  {
    assert [Deny][0] == Deny;
    EitherAllows(p.rows, Strict({}), UpdateMetadata(community, p.owners, before, None), p.who);
    var none: set<Claim> := {};
    StrictIff(p, none, false);
    assert none + none == none;
    MetadataIff(community, before, None, p);
  }

  lemma {:induction false} AllowsBoth(rows: seq<Row>, a: seq<Permission>, b: seq<Permission>, who: Identity)
    ensures AllowsAll(rows, a + b, who) <==> AllowsAll(rows, a, who) && AllowsAll(rows, b, who)
  {
    forall q | q in a || q in b
      ensures q in a + b
    {
    }
  }

  lemma {:induction false} AllowsSome(rows: seq<Row>, given: bool, q: Permission, who: Identity)
    ensures AllowsAll(rows, if given then [q] else [], who) <==> (given ==> Allows(rows, q, who))
  {
    assert q in [q];
  }

  /** Meeting every permission that the changes require. */
  lemma {:induction false} RequiredIff(community: string, before: State, p: Patch)
    ensures AllowsAll(p.rows, Required(community, before, p), p.who) <==>
              && (p.after != before ==> Allows(p.rows, UpdateState(community, p.owners, before, p.after), p.who))
              && (!before.Published? && p.metadata ==>
                    Allows(p.rows, UpdateMetadata(community, p.owners, before, Some(p.after)), p.who))
              && (!before.Published? && p.externalPids ==> Allows(p.rows, UpdateFiles(community, p.owners, before), p.who))
  {
    var move := UpdateState(community, p.owners, before, p.after);
    var edit := UpdateMetadata(community, p.owners, before, Some(p.after));
    var files := UpdateFiles(community, p.owners, before);
    var a := if p.after != before then [move] else [];
    var b := if before != VersionChains.Published && p.metadata then [edit] else [];
    var c := if before != VersionChains.Published && p.externalPids then [files] else [];
    AllowsSome(p.rows, p.after != before, move, p.who);
    AllowsSome(p.rows, before != VersionChains.Published && p.metadata, edit, p.who);
    AllowsSome(p.rows, before != VersionChains.Published && p.externalPids, files, p.who);
    AllowsBoth(p.rows, a, b, p.who);
    AllowsBoth(p.rows, a + b, c, p.who);
  }

  /** Whether a patch is permitted, told from the sender, the rows and the owners: superuser access
      must not be denied; the sender has it, or may make every change. */
  lemma {:induction false} PermittedExactly(community: string, before: State, p: Patch)
    ensures Permitted(community, before, p) <==>
              && (before.Published? || p.after != before || p.metadata || p.externalPids)
              && !Denied(p, SUPERUSER) && (Super(p) || MeetsAll(p, community, before))
  {
    SuperIff(p);
    if Required(community, before, p) != [] {
      PermittedIff(community, before, p);
      RequiredIff(community, before, p);
      StateIff(community, before, p);
      MetadataIff(community, before, Some(p.after), p);
      FilesIff(community, before, p);
    } else if before.Published? {
      EitherAllows(p.rows, Strict({SUPERUSER}), UpdateMetadata(community, p.owners, before, Some(p.after)), p.who);
      MetadataIff(community, before, Some(p.after), p);
    }
  }

  lemma {:induction false} SuperIff(p: Patch)
    ensures Allows(p.rows, Strict({SUPERUSER}), p.who) <==> !Denied(p, SUPERUSER) && Super(p)
  {
    assert SUPERUSER in {SUPERUSER};
  }

  /** A patch of the state alone: the sender is a superuser, or holds the need for this transition,
      or owns the deposit and submits or withdraws it, and no row denies what would be used. */
  lemma {:induction false} StateOnlyIff(community: string, before: State, p: Patch)
    requires p.after != before && (before.Published? || (!p.metadata && !p.externalPids))
    ensures Permitted(community, before, p) <==>
              && !Denied(p, SUPERUSER)
              && (Super(p)
                  || (&& !Denied(p, StateNeed(community, before, p.after))
                      && (Holds(p.rows, StateNeed(community, before, p.after), p.who) || (OwnersMove(before, p.after) && Owns(p)))))
  {
    PermittedExactly(community, before, p);
  }

  lemma {:induction false} NoRows(p: Patch, claim: Claim)
    requires p.rows == []
    ensures !Denied(p, claim) && (Holds(p.rows, claim, p.who) <==> claim in p.who)
  {
  }

  /** Without rows owners may submit, withdraw and edit what is not published, and do nothing else
      but patches of a published deposit that leave the state alone. */
  lemma {:induction false} OwnerWithoutRows(community: string, before: State, p: Patch, owner: int)
    requires p.rows == [] && p.who == {User(owner)} && owner in p.owners
    ensures Permitted(community, before, p) <==>
              if p.after == before then before.Published? || p.metadata || p.externalPids
              else OwnersMove(before, p.after)
  {
    assert User(owner) in p.who;
    NoRows(p, SUPERUSER);
    NoRows(p, StateNeed(community, before, p.after));
    NoRows(p, MetadataNeed(community, Some(Name(before))));
    NoRows(p, MetadataNeed(community, Some(Name(p.after))));
    NoRows(p, MetadataNeed(community, None));
    PermittedExactly(community, before, p);
  }

  lemma {:induction false} OneRow(p: Patch, row: Row, claim: Claim, exclude: bool)
    requires p.rows == [row]
    ensures Named(p.rows, claim, p.who, exclude) <==>
              claim.Action? && row.exclude == exclude && Concerns(row, claim.need) && row.grantee in p.who
  {
    assert row in p.rows;
  }

  /** A row for the action without an argument lets a role change every state in every community;
      where it denies the action, it takes submitting from the owners. */
  lemma {:induction false} BlanketRow(community: string, before: State, p: Patch, role: int, exclude: bool)
    requires p.after != before && !p.metadata && !p.externalPids
    requires p.rows == [Row("update-deposit-publication-state", None, Role(role), exclude)] && Role(role) in p.who
    requires forall c :: c in p.who ==> c.User? || c.Role?
    ensures Permitted(community, before, p) <==> !exclude
  {
    var row, need := p.rows[0], StateNeed(community, before, p.after);
    assert |"update-deposit-publication-state"| != |"superuser-access"|;
    assert Concerns(row, need.need) && !Concerns(row, SUPERUSER.need);
    OneRow(p, row, SUPERUSER, true);
    OneRow(p, row, SUPERUSER, false);
    OneRow(p, row, need, true);
    OneRow(p, row, need, false);
    StateOnlyIff(community, before, p);
  }

  /** A request that does nothing is refused, even a superuser's, unless the deposit is published. */
  lemma {:induction false} NothingToDoFails(community: string, before: State, p: Patch)
    requires p.after == before && !p.metadata && !p.externalPids
    ensures Permitted(community, before, p) ==> before == VersionChains.Published
  {
    assert Required(community, before, p) == [];
  }

  /** What a patch does to the state of a deposit of a reviewing community: it moves it where it
      asks if and only if the sender may, nothing else stops it, and the move is one step towards
      publication or one back, from a state other than published. */
  lemma {:induction false} PatchMovesIff(community: string, before: State, p: Patch)
    requires p.after != before
    ensures Apply(community, before, p) == (if
              && p.storable && VersionChains.MayGo(VersionChains.ReviewAndPublish, before, p.after)
              && !Denied(p, SUPERUSER) && (Super(p) || MeetsAll(p, community, before))
            then p.after else before)
  {
    PermittedExactly(community, before, p);
    VersionChains.WorkflowIs(VersionChains.ReviewAndPublish, before, p.after);
  }

  /** A submission by an owner and a publication by a holder of the need for it, neither of them
      denied, publish a new deposit. */
  lemma {:induction false} SubmitAndPublish(community: string, submit: Patch, publish: Patch)
    requires submit.after.Submitted? && publish.after.Published?
    requires submit.storable && publish.storable && !submit.metadata && !submit.externalPids && !publish.metadata && !publish.externalPids
    requires Owns(submit) && !Denied(submit, SUPERUSER)
    requires !Denied(submit, StateNeed(community, VersionChains.Draft, VersionChains.Submitted))
    requires !Denied(publish, SUPERUSER)
    requires var need := StateNeed(community, VersionChains.Submitted, VersionChains.Published);
             !Denied(publish, need) && Holds(publish.rows, need, publish.who)
    ensures After(community, [submit, publish]).Published?
  {
    assert [submit, publish][..1] == [submit] && [submit][..0] == [];
    assert After(community, []) == VersionChains.Draft;
    PatchMovesIff(community, VersionChains.Draft, submit);
    assert After(community, [submit]) == VersionChains.Submitted;
    PatchMovesIff(community, VersionChains.Submitted, publish);
  }

  /** The text of a transition's argument, as the rows that grant it hold it: the fields in the order
      of their names, without spaces. */
  lemma {:induction false} TransitionText(c: string, before: State, after: State)
    requires AllPlain(c)
    ensures Print(StateArguments(c, before, after)) ==
            "{" + (PlainField("community", c)
                   + ("," + (PlainField("new_state", if after.Draft? then "draft" else if after.Submitted? then "submitted" else "published")
                             + ("," + PlainField("old_state", if before.Draft? then "draft" else if before.Submitted? then "submitted" else "published"))))) + "}"
  {
    var x, y := Name(after), Name(before);
    PlainNames(after);
    PlainNames(before);
    StateFieldsInOrder();
    var m: Arguments := map["community" := Some(c), "new_state" := Some(x), "old_state" := Some(y)];
    assert StateArguments(c, before, after) == m;
    PrintedThree("community", "new_state", "old_state", c, x, y);
  }

  lemma {:induction false} StateFieldsInOrder()
    ensures Less("community", "new_state") && Less("new_state", "old_state")
    ensures AllPlain("community") && AllPlain("new_state") && AllPlain("old_state")
  {
    assert "community"[0] < "new_state"[0] < "old_state"[0];
  }

  lemma {:induction false} PlainNames(s: State)
    ensures AllPlain(Name(s))
    ensures Name(s) == if s.Draft? then "draft" else if s.Submitted? then "submitted" else "published"
  {
  }

  /** A row printed for one transition in one community grants that transition in that community
      and nothing else. */
  lemma {:induction false} GrantIsExact(row: Row, c: string, before: State, after: State, c': string, before': State, after': State)
    requires StateNeed(c', before', after') == Action(Need(row.action, row.argument))
    ensures Concerns(row, StateNeed(c, before, after).need) <==> (c, before, after) == (c', before', after')
  {
    NeedsEqualIff(row.action, StateArguments(c, before, after), row.action, StateArguments(c', before', after'));
    SameArguments(c, before, after, c', before', after');
  }

  lemma {:induction false} SameArguments(c: string, before: State, after: State, c': string, before': State, after': State)
    ensures StateArguments(c, before, after) == StateArguments(c', before', after') <==>
              (c, before, after) == (c', before', after')
  {
    var m, m' := StateArguments(c, before, after), StateArguments(c', before', after');
    if m == m' {
      assert m["community"] == m'["community"] && m["old_state"] == m'["old_state"] && m["new_state"] == m'["new_state"];
      SameName(before, before');
      SameName(after, after');
    }
  }

  lemma {:induction false} SameName(s: State, t: State)
    requires Name(s) == Name(t)
    ensures s == t
  {
    assert |Name(s)| == |Name(t)|;
    assert Name(s)[0] == Name(t)[0];
  }

  lemma {:induction false} LastMove(community: string, patches: seq<Patch>)
    requires patches != []
    ensures var front := patches[..|patches| - 1];
            After(community, patches) == Apply(community, After(community, front), patches[|patches| - 1])
            && Moves(community, patches, |patches| - 1, After(community, front), After(community, patches))
  {
    assert patches[..|patches|] == patches;
  }

  lemma {:induction false} MovesOfFront(community: string, patches: seq<Patch>, k: nat, before: State, after: State)
    requires patches != [] && k < |patches| - 1
    requires Moves(community, patches[..|patches| - 1], k, before, after)
    ensures Moves(community, patches, k, before, after)
  {
    assert patches[..|patches| - 1][..k] == patches[..k];
    assert patches[..|patches| - 1][..k + 1] == patches[..k + 1];
  }

  lemma {:induction false} SubmittedWasSubmitted(community: string, patches: seq<Patch>) returns (i: nat)
    requires After(community, patches).Submitted?
    ensures i < |patches| && Moves(community, patches, i, VersionChains.Draft, VersionChains.Submitted)
    ensures MayMove(patches[i], community, VersionChains.Draft) || Owns(patches[i])
  {
    i := |patches| - 1;
    var front := patches[..i];
    LastMove(community, patches);
    if After(community, front).Submitted? {
      i := SubmittedWasSubmitted(community, front);
      MovesOfFront(community, patches, i, VersionChains.Draft, VersionChains.Submitted);
    } else {
      PermittedMove(community, After(community, front), patches[i]);
    }
  }

  /** A deposit of a reviewing community is published only after a submission, by an owner or by
      someone entitled to it, and a later publication by a superuser or a holder of the need for
      publishing in that community: owning the deposit is never enough. */
  lemma {:induction false} PublishedWasReviewed(community: string, patches: seq<Patch>) returns (i: nat, j: nat)
    requires After(community, patches).Published?
    ensures i < j < |patches|
    ensures Moves(community, patches, i, VersionChains.Draft, VersionChains.Submitted)
    ensures MayMove(patches[i], community, VersionChains.Draft) || Owns(patches[i])
    ensures Moves(community, patches, j, VersionChains.Submitted, VersionChains.Published)
    ensures patches[j].after.Published? && MayMove(patches[j], community, VersionChains.Submitted)
  {
    j := |patches| - 1;
    var front := patches[..j];
    LastMove(community, patches);
    if After(community, front).Published? {
      i, j := PublishedWasReviewed(community, front);
      MovesOfFront(community, patches, i, VersionChains.Draft, VersionChains.Submitted);
      MovesOfFront(community, patches, j, VersionChains.Submitted, VersionChains.Published);
    } else {
      PermittedMove(community, After(community, front), patches[j]);
      i := SubmittedWasSubmitted(community, front);
      MovesOfFront(community, patches, i, VersionChains.Draft, VersionChains.Submitted);
    }
  }

  // ---------------------------------------------------------------------------------------
  // The communities a user may read
  // ---------------------------------------------------------------------------------------

  /** The listing looks at every row for reading deposits that names the user or a role of theirs. */
  predicate Asked(row: Row, user: int, roles: set<int>) {
    row.action == "read-deposit" && match row.grantee
                                    case User(id) => id == user
                                    case Role(id) => id in roles
                                    case _ => false
  }

  function PairOf<V>(m: map<string, V>): Option<(V, V)> {
    if "community" in m && "publication_state" in m then Some((m["community"], m["publication_state"])) else None
  }

  /** The community and the publication state in a row's argument; None when decoding it fails.
      `loads` is the JSON decoder, None where it fails or gives something else than an object. */
  function Decoded<V>(loads: string -> Option<map<string, V>>, row: Row): Option<(V, V)> {
    if row.argument.None? then None
    else
      match loads(row.argument.value)
      case None => None
      case Some(m) => PairOf(m)
  }

  predicate Listed<V>(listing: map<V, set<V>>, pair: (V, V)) {
    pair.0 in listing && pair.1 in listing[pair.0]
  }

  ghost predicate Granted<V>(loads: string -> Option<map<string, V>>, rows: seq<Row>, user: int, roles: set<int>, pair: (V, V)) {
    exists row :: row in rows && Asked(row, user, roles) && Decoded(loads, row) == Some(pair)
  }

  /** Fails on the first argument it cannot decode, an absent one included; otherwise lists exactly
      the pairs in the arguments. */
  method ListReadableCommunities<V(==, !new)>(loads: string -> Option<map<string, V>>, rows: seq<Row>, user: int, roles: set<int>)
      returns (r: Option<map<V, set<V>>>)
    ensures r.None? <==> exists row :: row in rows && Asked(row, user, roles) && Decoded(loads, row).None?
    ensures r.Some? ==> forall pair :: Listed(r.value, pair) <==> Granted(loads, rows, user, roles, pair)
  {
    var listing: map<V, set<V>> := map[];
    for i := 0 to |rows|
      invariant forall row :: row in rows[..i] && Asked(row, user, roles) ==> Decoded(loads, row).Some?
      invariant forall pair :: Listed(listing, pair) <==> Granted(loads, rows[..i], user, roles, pair)
    {
      ghost var was := listing;
      assert rows[..i + 1] == rows[..i] + [rows[i]];
      if Asked(rows[i], user, roles) {
        var decoded := Decoded(loads, rows[i]);
        if decoded.None? {
          return None;
        }
        var (community, state) := decoded.value;
        var states := if community in listing then listing[community] else {};
        listing := listing[community := states + {state}];
        assert forall pair :: Listed(listing, pair) <==> Listed(was, pair) || pair == decoded.value;
      }
      GrantedByOneMore(loads, rows[..i], rows[i], user, roles);
    }
    assert rows[..|rows|] == rows;
    return Some(listing);
  }

  lemma GrantedByOneMore<V(!new)>(loads: string -> Option<map<string, V>>, rows: seq<Row>, row: Row, user: int, roles: set<int>)
    ensures forall pair :: Granted(loads, rows + [row], user, roles, pair) <==>
              Granted(loads, rows, user, roles, pair) || (Asked(row, user, roles) && Decoded(loads, row) == Some(pair))
  {
    forall pair
      ensures Granted(loads, rows + [row], user, roles, pair) <==>
                Granted(loads, rows, user, roles, pair) || (Asked(row, user, roles) && Decoded(loads, row) == Some(pair))
    {
      assert row in rows + [row];
      if Granted(loads, rows, user, roles, pair) {
        var x :| x in rows && Asked(x, user, roles) && Decoded(loads, x) == Some(pair);
        assert x in rows + [row];
      }
    }
  }

  function ReadArguments(community: Option<string>, state: Option<string>): Arguments {
    map["community" := community, "publication_state" := state]
  }

  lemma {:induction false} PairOfRead(community: Option<string>, state: Option<string>)
    ensures ReadArguments(community, state) != map[]
    ensures PairOf(ReadArguments(community, state)) == Some((community, state))
  {
    assert |"community"| != |"publication_state"|;
    assert "community" in ReadArguments(community, state);
  }

  /** The claims of a signed-in user. */
  function Identified(user: int, roles: set<int>): Identity {
    {User(user)} + set r | r in roles :: Role(r)
  }

  ghost predicate PrintedReads(rows: seq<Row>) {
    forall row :: row in rows && row.action == "read-deposit" ==>
      exists c: Option<string>, s: Option<string> :: row.argument == NeedFactory("read-deposit", ReadArguments(c, s)).argument
  }

  lemma {:induction false} ReadsApart(c: Option<string>, s: Option<string>, c': Option<string>, s': Option<string>)
    requires NeedFactory("read-deposit", ReadArguments(c, s)).argument == NeedFactory("read-deposit", ReadArguments(c', s')).argument
    ensures c == c' && s == s'
  {
    NeedsEqualIff("read-deposit", ReadArguments(c, s), "read-deposit", ReadArguments(c', s'));
    PairOfRead(c, s);
    PairOfRead(c', s');
  }

  lemma {:induction false} AskedIff(row: Row, user: int, roles: set<int>)
    ensures Asked(row, user, roles) <==> row.action == "read-deposit" && row.grantee in Identified(user, roles)
  {
  }

  /** Where the tables hold only arguments that the need factory printed, the listing has exactly the
      pairs whose need some row, allowing or denying it, names the user or a role of theirs for. */
  lemma {:induction false} ListedIffNamed(loads: string -> Option<Arguments>, rows: seq<Row>, user: int, roles: set<int>,
                                          c: Option<string>, s: Option<string>)
    requires PrintedReads(rows)
    requires forall t :: Parse(t).Some? ==> loads(t) == Parse(t)
    ensures var claim := Action(NeedFactory("read-deposit", ReadArguments(c, s)));
            var who := Identified(user, roles);
            Granted(loads, rows, user, roles, (c, s)) <==> Named(rows, claim, who, false) || Named(rows, claim, who, true)
  {
    PairOfRead(c, s);
    forall row | row in rows
      ensures Asked(row, user, roles) && Decoded(loads, row) == Some((c, s)) <==>
                Concerns(row, NeedFactory("read-deposit", ReadArguments(c, s))) && row.grantee in Identified(user, roles)
    {
      AskedIff(row, user, roles);
      if row.action == "read-deposit" {
        var c', s' :| row.argument == NeedFactory("read-deposit", ReadArguments(c', s')).argument;
        PairOfRead(c', s');
        DecodedIsGranted(loads, row, c', s');
        if row.argument == NeedFactory("read-deposit", ReadArguments(c, s)).argument {
          ReadsApart(c, s, c', s');
        }
      }
    }
  }

  /** The argument of a read need gives back the community and the state it was made for, by any
      decoder that reads compact objects of strings and nulls as `Parse` does. */
  lemma {:induction false} DecodedIsGranted(loads: string -> Option<Arguments>, row: Row, community: Option<string>, state: Option<string>)
    requires row.argument == NeedFactory("read-deposit", ReadArguments(community, state)).argument
    requires row.argument.Some? && Parse(row.argument.value).Some? ==> loads(row.argument.value) == Parse(row.argument.value)
    ensures Decoded(loads, row) == Some((community, state))
  {
    PairOfRead(community, state);
    ParseOfPrint(ReadArguments(community, state));
  }
}
