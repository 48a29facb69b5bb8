/** The life of deposits and records in their version chains (b2share/modules/deposit/api.py,
    b2share/modules/records/api.py, the two minters, and the indexer).

    A parent PID has the PIDs of its versions as ordered children: published ones, some of them
    deleted since, and at most one reserved for a draft. Each function gives what one request
    leaves, or why it is refused; a refused request is rolled back. */
module VersionChains {
  import opened Options
  import opened SchemaUrls

  type Pid = int
  type Community = int

  datatype PidStatus = Reserved | Registered | Redirected(to: Pid) | Deleted

  datatype State = Draft | Submitted | Published

  /** A deposit document. `published` is the status the deposit library keeps in `_deposit`. */
  datatype Deposit = Deposit(community: Community, schema: string, state: State, published: bool)

  datatype Record = Record(community: Community, schema: string)

  /** The shared tables. A deposit and the record it is published as have the same PID value. */
  datatype Repo = Repo(
    recs: map<Pid, PidStatus>,      // record PIDs and the parent PIDs of chains
    deps: map<Pid, bool>,           // deposit PIDs; false when deleted
    children: map<Pid, seq<Pid>>,   // parent PID to the PIDs of its versions, in order
    parent: map<Pid, Pid>,          // version PID to its parent PID
    deposits: map<Pid, Deposit>,
    records: map<Pid, Record>,
    index: map<Pid, bool>)          // the indexed records and their is_last_version flag

  datatype Workflow = ReviewAndPublish | DirectPublish

  datatype Reason =
    | PidExists | NoSuchVersion | NotVersioned | NoLastVersion | NotLastVersion
    | CommunityChanged | DraftExists | InvalidDeposit
    | NoSuchDeposit | NoSuchRecord | TransitionRefused | PidUnusable | MintFailed
    | FieldAltered | NotValid

  datatype Outcome = Accepted(repo: Repo) | Refused(why: Reason)

  // ---------------------------------------------------------------------------------------
  // The versioning primitives
  // ---------------------------------------------------------------------------------------

  /** The last registered child. */
  function LastLive(recs: map<Pid, PidStatus>, chain: seq<Pid>): Option<Pid> {
    if chain == [] then None
    else
      var p := chain[|chain| - 1];
      if p in recs && recs[p] == Registered then Some(p) else LastLive(recs, chain[..|chain| - 1])
  }

  /** The reserved child. */
  function DraftOf(recs: map<Pid, PidStatus>, chain: seq<Pid>): Option<Pid> {
    if chain == [] then None
    else
      var p := chain[|chain| - 1];
      if p in recs && recs[p] == Reserved then Some(p) else DraftOf(recs, chain[..|chain| - 1])
  }

  function Without(chain: seq<Pid>, p: Pid): seq<Pid> {
    if chain == [] then []
    else Without(chain[..|chain| - 1], p) + if chain[|chain| - 1] == p then [] else [chain[|chain| - 1]]
  }

  function ChainOf(r: Repo, p: Pid): seq<Pid> {
    if p in r.parent && r.parent[p] in r.children then r.children[r.parent[p]] else []
  }

  /** The flag the indexer computes for a record. */
  predicate IsLastVersion(r: Repo, p: Pid) {
    LastLive(r.recs, ChainOf(r, p)) == Some(p)
  }

  function Reindex(r: Repo, p: Pid): Repo {
    if p in r.records then r.(index := r.index[p := IsLastVersion(r, p)]) else r
  }

  // ---------------------------------------------------------------------------------------
  // Requests
  // ---------------------------------------------------------------------------------------

  /** A new deposit with the PIDs its minter makes: the first of a chain with the new parent PID
      `top`, or the next version of `versionOf`. `known` says the community has a schema. */
  function Create(r: Repo, id: Pid, top: Pid, versionOf: Option<Pid>, community: Community, schema: string, known: bool): Outcome {
    if id in r.recs || id in r.deps then Refused(PidExists)
    else
      match versionOf
      case None =>
        if top in r.recs || top == id then Refused(PidExists)
        else if !known then Refused(InvalidDeposit)
        else Accepted(AddDraft(r.(recs := r.recs[top := Reserved], children := r.children[top := []]),
                               top, id, Deposit(community, DraftSchema(schema), Draft, false)))
      case Some(v) =>
        if v !in r.recs || r.recs[v] == Deleted then Refused(NoSuchVersion)
        else if v !in r.parent then Refused(NotVersioned)
        else
          var last := LastLive(r.recs, ChainOf(r, v));
          if last.None? || last.value !in r.records then Refused(NoLastVersion)
          else if last.value != v then Refused(NotLastVersion)
          else if r.records[v].community != community then Refused(CommunityChanged)
          else if DraftOf(r.recs, ChainOf(r, v)).Some? then Refused(DraftExists)
          else if !known then Refused(InvalidDeposit)
          else Accepted(AddDraft(r, r.parent[v], id, Deposit(community, DraftSchema(r.records[v].schema), Draft, false)))
  }

  function AddDraft(r: Repo, parent: Pid, id: Pid, d: Deposit): Repo {
    var chain := if parent in r.children then r.children[parent] else [];
    r.(recs := r.recs[id := Reserved], deps := r.deps[id := true],
       children := r.children[parent := chain + [id]], parent := r.parent[id := parent],
       deposits := r.deposits[id := d])
  }

  /** The state a community's workflow gives a deposit that was stored in state `old` and is
      committed in state `new`; None when it refuses the transition. */
  function WorkflowState(w: Workflow, before: State, after: State): Option<State> {
    match w
    case ReviewAndPublish =>
      if before == after || (before, after) in {(Draft, Submitted), (Submitted, Draft), (Submitted, Published)} then Some(after)
      else None
    case DirectPublish =>
      if before == after || (before, after) in {(Draft, Submitted), (Draft, Published)} then
        Some(if after == Submitted then Published else after)
      else None
  }

  function Rank(s: State): int {
    match s
    case Draft => 0
    case Submitted => 1
    case Published => 2
  }

  /** Under review a deposit goes one step towards publication or one step back, and what is
      published stays; under direct publication only drafts go anywhere. */
  predicate MayGo(w: Workflow, before: State, asked: State) {
    || asked == before
    || (w == ReviewAndPublish && before != Published && (Rank(asked) - Rank(before) == 1 || Rank(before) - Rank(asked) == 1))
    || (w == DirectPublish && before == Draft)
  }

  /** A reviewed deposit gets the state asked for; under direct publication whatever is not to stay a
      draft is published. */
  function Gets(w: Workflow, asked: State): State {
    if w == DirectPublish && asked != Draft then Published else asked
  }

  /** The moves the workflows accept, and where they lead. */
  lemma {:induction false} WorkflowIs(w: Workflow, before: State, asked: State)
    ensures WorkflowState(w, before, asked).Some? <==> MayGo(w, before, asked)
    ensures WorkflowState(w, before, asked).Some? ==> WorkflowState(w, before, asked) == Some(Gets(w, asked))
  {
  }

  /** Whether the document validates, and whether minting the record's PIDs works. */
  datatype Luck = Luck(valid: bool, minted: bool)

  /** `Deposit.commit`. Publishing commits again: the nested commit finds `published` set. */
  function Commit(r: Repo, id: Pid, d: Deposit, w: Workflow, luck: Luck): Outcome
    decreases !d.published
  {
    if id !in r.deposits then Refused(NoSuchDeposit)
    else
      match WorkflowState(w, r.deposits[id].state, d.state)
      case None => Refused(TransitionRefused)
      case Some(state) =>
        var e := d.(state := state);
        if e.state == Published && !e.published then
          match StartPublishing(r, id, e, luck)
          case Refused(why) => Refused(why)
          case Accepted(t) =>
            match Commit(t, id, e.(published := true), w, luck)
            case Refused(why) => Refused(why)
            case Accepted(u) => Accepted(FinishPublishing(u, id, PreviousVersion(r, id)))
        else Save(r, id, e, luck)
  }

  /** Storing a deposit document; the community and the schema cannot change. */
  function Save(r: Repo, id: Pid, d: Deposit, luck: Luck): Outcome
    requires id in r.deposits
  {
    if r.deposits[id].community != d.community || r.deposits[id].schema != d.schema then Refused(FieldAltered)
    else if !luck.valid then Refused(NotValid)
    else Accepted(r.(deposits := r.deposits[id := d]))
  }

  /** Registering the reserved PID and creating the record, which indexes it. */
  function StartPublishing(r: Repo, id: Pid, d: Deposit, luck: Luck): Outcome {
    if id !in r.deps || !r.deps[id] || id !in r.recs || r.recs[id] != Reserved then Refused(PidUnusable)
    else if !luck.minted then Refused(MintFailed)
    else if !luck.valid then Refused(NotValid)
    else Accepted(Reindex(r.(recs := r.recs[id := Registered],
                             records := r.records[id := Record(d.community, RecordSchema(d.schema))]), id))
  }

  /** The last version before a publication, if the chain has one and has been published. */
  function PreviousVersion(r: Repo, id: Pid): Option<Pid> {
    if id in r.parent && r.parent[id] in r.recs && r.recs[r.parent[id]].Redirected? then LastLive(r.recs, ChainOf(r, id))
    else None
  }

  /** Redirecting the parent to the last version, and indexing the previous one again. */
  function FinishPublishing(r: Repo, id: Pid, previous: Option<Pid>): Repo {
    var last := LastLive(r.recs, ChainOf(r, id));
    var s := if id in r.parent && last.Some? then r.(recs := r.recs[r.parent[id] := Redirected(last.value)]) else r;
    if previous.Some? then Reindex(s, previous.value) else s
  }

  /** `Deposit.delete`. An unpublished PID is removed, and with it a parent that never published. */
  function DeleteDeposit(r: Repo, id: Pid): Outcome {
    if id !in r.deposits || id !in r.parent then Refused(NoSuchDeposit)
    else
      var parent := r.parent[id];
      var s := if id in r.recs && r.recs[id] == Reserved
               then r.(children := r.children[parent := Without(ChainOf(r, id), id)], recs := r.recs - {id}, parent := r.parent - {id})
               else r;
      var t := if parent in s.recs && s.recs[parent] == Reserved
               then s.(recs := s.recs - {parent}, children := s.children - {parent})
               else s;
      Accepted(t.(deps := t.deps[id := false], deposits := t.deposits - {id}))
  }

  /** `B2ShareRecord.delete`. The deposit goes too; a chain left without versions and draft gets
      a deleted parent, otherwise its new last version is indexed again. */
  function DeleteRecord(r: Repo, p: Pid): Outcome {
    if p !in r.records || p !in r.parent then Refused(NoSuchRecord)
    else
      var s := if p in r.deps && r.deps[p] && p in r.deposits then DeleteDeposit(r, p).repo else r;
      var t := s.(recs := s.recs[p := Deleted], records := s.records - {p}, index := s.index - {p});
      var last := LastLive(t.recs, ChainOf(t, p));
      if last.Some? then Accepted(Reindex(t, last.value))
      else if DraftOf(t.recs, ChainOf(t, p)).None? then Accepted(t.(recs := t.recs[r.parent[p] := Deleted]))
      else Accepted(t)
  }

  /** Committing new metadata of a record, which indexes it again. */
  function UpdateRecord(r: Repo, p: Pid, community: Community, schema: string, luck: Luck): Outcome {
    if p !in r.records then Refused(NoSuchRecord)
    else if r.records[p] != Record(community, schema) then Refused(FieldAltered)
    else if !luck.valid then Refused(NotValid)
    else Accepted(Reindex(r, p))
  }

  datatype Request =
    | NewDeposit(id: Pid, top: Pid, versionOf: Option<Pid>, community: Community, schema: string, known: bool)
    | CommitDeposit(id: Pid, community: Community, schema: string, state: State, workflow: Workflow, luck: Luck)
    | RemoveDeposit(id: Pid)
    | RemoveRecord(id: Pid)
    | CommitRecord(id: Pid, community: Community, schema: string, luck: Luck)
    | IndexRecord(id: Pid)

  function Answer(r: Repo, q: Request): Outcome {
    match q
    case NewDeposit(id, top, versionOf, community, schema, known) => Create(r, id, top, versionOf, community, schema, known)
    case CommitDeposit(id, community, schema, state, workflow, luck) =>
      if id !in r.deposits then Refused(NoSuchDeposit)
      else Commit(r, id, Deposit(community, schema, state, r.deposits[id].published), workflow, luck)
    case RemoveDeposit(id) => DeleteDeposit(r, id)
    case RemoveRecord(id) => DeleteRecord(r, id)
    case CommitRecord(id, community, schema, luck) => UpdateRecord(r, id, community, schema, luck)
    case IndexRecord(id) => Accepted(Reindex(r, id))
  }

  /** What a request leaves: a refused one leaves everything as it was. */
  function After(r: Repo, q: Request): Repo {
    match Answer(r, q)
    case Accepted(s) => s
    case Refused(_) => r
  }

  function Run(r: Repo, qs: seq<Request>): Repo {
    if qs == [] then r else After(Run(r, qs[..|qs| - 1]), qs[|qs| - 1])
  }

  const EMPTY: Repo := Repo(map[], map[], map[], map[], map[], map[], map[])
}
