/** What every request keeps of the version chains, and what every run keeps
    (b2share/modules/deposit/api.py, b2share/modules/records/api.py,
    b2share/modules/records/indexer.py). */
module ChainInvariants {
  import opened Options
  import opened SchemaUrls
  import opened Sequences
  import opened VersionChains

  // ---------------------------------------------------------------------------------------
  // The invariant
  // ---------------------------------------------------------------------------------------

  /** Every record PID is a parent or a version, of exactly one parent. */
  ghost predicate Linked(r: Repo) {
    && (forall p :: p in r.recs <==> p in r.parent || p in r.children)
    && (forall p :: p in r.parent ==> p !in r.children && r.parent[p] in r.children && p in r.children[r.parent[p]])
    && (forall t :: t in r.children ==> ChildrenOf(r.parent, t, r.children[t]) && NoRepeat(r.children[t]))
  }

  ghost predicate ChildrenOf(parent: map<Pid, Pid>, t: Pid, chain: seq<Pid>) {
    forall i :: 0 <= i < |chain| ==> chain[i] in parent && parent[chain[i]] == t
  }

  /** Versions are reserved, registered or deleted, and only the last one can be reserved. */
  ghost predicate DraftIsLast(recs: map<Pid, PidStatus>, chain: seq<Pid>) {
    forall i :: 0 <= i < |chain| ==>
      && chain[i] in recs && !recs[chain[i]].Redirected?
      && (recs[chain[i]] == Reserved ==> i == |chain| - 1)
  }

  /** A parent is reserved exactly when its chain is one draft; a deleted one has no draft and no
      live version. */
  ghost predicate ParentStatus(recs: map<Pid, PidStatus>, parent: Pid, chain: seq<Pid>) {
    && chain != [] && parent in recs && chain[0] in recs
    && recs[parent] != Registered
    && (recs[parent] == Reserved <==> recs[chain[0]] == Reserved)
    && (recs[parent] == Deleted ==> LastLive(recs, chain).None? && DraftOf(recs, chain).None?)
  }

  ghost predicate ChainOk(recs: map<Pid, PidStatus>, t: Pid, chain: seq<Pid>) {
    DraftIsLast(recs, chain) && ParentStatus(recs, t, chain)
  }

  ghost predicate ChainsOk(r: Repo) {
    forall t :: t in r.children ==> ChainOk(r.recs, t, r.children[t])
  }

  /** A reserved version has a draft, a registered one a record, a deleted one nothing; the two
      notions of being published agree with the status of the PID. */
  ghost predicate VersionOk(r: Repo, p: Pid)
    requires p in r.recs
  {
    match r.recs[p]
    case Reserved => p in r.deposits && p !in r.records && DepositOk(r, p, false)
    case Registered => p in r.records && (p in r.deposits ==> DepositOk(r, p, true))
    case Deleted => p !in r.deposits && p !in r.records
    case Redirected(_) => false
  }

  ghost predicate DepositOk(r: Repo, p: Pid, published: bool) {
    && p in r.deposits && p in r.deps && r.deps[p]
    && r.deposits[p].published == published
    && (r.deposits[p].state == Published <==> published)
  }

  ghost predicate DocumentsOk(r: Repo) {
    && (forall p :: p in r.parent ==> p in r.recs && VersionOk(r, p))
    && (forall p :: p in r.deposits || p in r.records || (p in r.deps && r.deps[p]) ==> p in r.parent)
    && (forall p :: p in r.deps && r.deps[p] ==> p in r.deposits)
  }

  /** The index has exactly the published records, each with the flag of the last live version. */
  ghost predicate IndexOk(r: Repo) {
    forall p :: (p in r.index <==> p in r.records) && (p in r.index ==> (r.index[p] <==> IsLastVersion(r, p)))
  }

  ghost predicate Inv(r: Repo) {
    Linked(r) && ChainsOk(r) && DocumentsOk(r) && IndexOk(r)
  }

  // ---------------------------------------------------------------------------------------
  // The last live version
  // ---------------------------------------------------------------------------------------

  lemma {:induction false} LastLiveIs(recs: map<Pid, PidStatus>, chain: seq<Pid>)
    ensures LastLive(recs, chain).Some? ==>
              var p := LastLive(recs, chain).value; p in chain && p in recs && recs[p] == Registered
    ensures LastLive(recs, chain).None? ==> forall p :: p in chain && p in recs ==> recs[p] != Registered
  {
    if chain != [] {
      var front, last := chain[..|chain| - 1], chain[|chain| - 1];
      assert chain == front + [last];
      LastLiveIs(recs, front);
    }
  }

  lemma {:induction false} DraftOfIs(recs: map<Pid, PidStatus>, chain: seq<Pid>)
    ensures DraftOf(recs, chain).Some? ==>
              var p := DraftOf(recs, chain).value; p in chain && p in recs && recs[p] == Reserved
    ensures DraftOf(recs, chain).None? ==> forall p :: p in chain && p in recs ==> recs[p] != Reserved
  {
    if chain != [] {
      var front, last := chain[..|chain| - 1], chain[|chain| - 1];
      assert chain == front + [last];
      DraftOfIs(recs, front);
    }
  }

  /** Only the statuses of the chain's own versions matter. */
  lemma {:induction false} SameLive(recs: map<Pid, PidStatus>, recs': map<Pid, PidStatus>, chain: seq<Pid>)
    requires forall p :: p in chain ==> ((p in recs && recs[p] == Registered) <==> (p in recs' && recs'[p] == Registered))
    ensures LastLive(recs, chain) == LastLive(recs', chain)
  {
    if chain != [] {
      var front, last := chain[..|chain| - 1], chain[|chain| - 1];
      assert last in chain && forall p :: p in front ==> p in chain;
      SameLive(recs, recs', front);
    }
  }

  lemma {:induction false} SameDraft(recs: map<Pid, PidStatus>, recs': map<Pid, PidStatus>, chain: seq<Pid>)
    requires forall p :: p in chain ==> ((p in recs && recs[p] == Reserved) <==> (p in recs' && recs'[p] == Reserved))
    ensures DraftOf(recs, chain) == DraftOf(recs', chain)
  {
    if chain != [] {
      var front, last := chain[..|chain| - 1], chain[|chain| - 1];
      assert last in chain && forall p :: p in front ==> p in chain;
      SameDraft(recs, recs', front);
    }
  }

  lemma {:induction false} LiveSnoc(recs: map<Pid, PidStatus>, chain: seq<Pid>, p: Pid)
    ensures LastLive(recs, chain + [p]) == if p in recs && recs[p] == Registered then Some(p) else LastLive(recs, chain)
    ensures DraftOf(recs, chain + [p]) == if p in recs && recs[p] == Reserved then Some(p) else DraftOf(recs, chain)
  {
    assert (chain + [p])[..|chain|] == chain;
  }

  // ---------------------------------------------------------------------------------------
  // New deposits
  // ---------------------------------------------------------------------------------------

  lemma {:induction false} EmptyIsOk()
    ensures Inv(EMPTY)
  {
  }

  /** A draft added at the end of a chain that has none and whose parent is not deleted. */
  lemma {:induction false} AddDraftKeeps(r: Repo, id: Pid, t: Pid, d: Deposit)
    requires Inv(r) && id !in r.recs && id !in r.deps
    requires t in r.children && r.recs[t] != Deleted && DraftOf(r.recs, r.children[t]).None?
    requires !d.published && d.state == Draft
    ensures Inv(AddDraft(r, t, id, d))
  {
    var s := AddDraft(r, t, id, d);
    AddDraftLinked(r, id, t, d);
    forall u | u in s.children
      ensures ChainOk(s.recs, u, s.children[u])
    {
      AddDraftChain(r, id, t, d, u);
    }
    AddDraftDocuments(r, id, t, d);
    AddDraftIndex(r, id, t, d);
  }

  lemma {:induction false} AddDraftDocuments(r: Repo, id: Pid, t: Pid, d: Deposit)
    requires Linked(r) && DocumentsOk(r) && id !in r.recs && id !in r.deps && t in r.children
    requires !d.published && d.state == Draft
    ensures DocumentsOk(AddDraft(r, t, id, d))
  {
    var s := AddDraft(r, t, id, d);
    forall p | p in s.parent
      ensures p in s.recs && VersionOk(s, p)
    {
      assert p != id ==> p in r.recs && VersionOk(r, p);
    }
  }

  lemma {:induction false} AddDraftIndex(r: Repo, id: Pid, t: Pid, d: Deposit)
    requires Linked(r) && DocumentsOk(r) && IndexOk(r) && id !in r.recs && t in r.children
    ensures IndexOk(AddDraft(r, t, id, d))
  {
    var s := AddDraft(r, t, id, d);
    forall p | p in s.records
      ensures IsLastVersion(s, p) <==> IsLastVersion(r, p)
    {
      assert p in r.parent && p != id;
      AddDraftLive(r, id, t, d, r.parent[p]);
    }
  }

  lemma {:induction false} AddDraftLive(r: Repo, id: Pid, t: Pid, d: Deposit, u: Pid)
    requires Linked(r) && id !in r.recs && t in r.children && u in r.children
    ensures var s := AddDraft(r, t, id, d);
            LastLive(s.recs, s.children[u]) == LastLive(r.recs, r.children[u])
  {
    var recs := r.recs[id := Reserved];
    assert ChildrenOf(r.parent, u, r.children[u]);
    assert id !in r.parent && id !in r.children[u];
    SameLive(r.recs, recs, r.children[u]);
    LiveSnoc(recs, r.children[t], id);
  }

  lemma {:induction false} AddDraftLinked(r: Repo, id: Pid, t: Pid, d: Deposit)
    requires Linked(r) && id !in r.recs && t in r.children
    ensures Linked(AddDraft(r, t, id, d))
  {
    var s := AddDraft(r, t, id, d);
    var chain := r.children[t];
    assert id !in r.parent;
    assert id !in chain;
    assert (chain + [id])[..|chain|] == chain;
    forall u | u in s.children
      ensures ChildrenOf(s.parent, u, s.children[u]) && NoRepeat(s.children[u])
    {
      assert ChildrenOf(r.parent, u, r.children[u]);
    }
  }

  lemma {:induction false} AddDraftChain(r: Repo, id: Pid, t: Pid, d: Deposit, u: Pid)
    requires Linked(r) && id !in r.recs && t in r.children && u in r.children
    requires ChainOk(r.recs, u, r.children[u])
    requires r.recs[t] != Deleted && DraftOf(r.recs, r.children[t]).None?
    ensures var s := AddDraft(r, t, id, d);
            ChainOk(s.recs, u, s.children[u])
  {
    var s := AddDraft(r, t, id, d);
    var chain := r.children[u];
    assert id !in chain;
    SameLive(r.recs, s.recs, chain);
    SameDraft(r.recs, s.recs, chain);
    if u == t {
      DraftOfIs(r.recs, chain);
      assert chain[0] in chain;
    }
  }

  /** A draft in a chain of its own, under a new parent. */
  lemma {:induction false} NewChainKeeps(r: Repo, id: Pid, t: Pid, d: Deposit)
    requires Inv(r) && id !in r.recs && id !in r.deps && t !in r.recs && t != id
    requires !d.published && d.state == Draft
    ensures Inv(AddDraft(r.(recs := r.recs[t := Reserved], children := r.children[t := []]), t, id, d))
  {
    var q := r.(recs := r.recs[t := Reserved], children := r.children[t := []]);
    var s := AddDraft(q, t, id, d);
    NewParentKeeps(r, t);
    AddDraftLinked(q, id, t, d);
    AddDraftDocuments(q, id, t, d);
    AddDraftIndex(q, id, t, d);
    forall u | u in s.children
      ensures ChainOk(s.recs, u, s.children[u])
    {
      if u != t {
        AddDraftChain(q, id, t, d, u);
      }
    }
  }

  lemma {:induction false} NewParentKeeps(r: Repo, t: Pid)
    requires Inv(r) && t !in r.recs
    ensures var q := r.(recs := r.recs[t := Reserved], children := r.children[t := []]);
            && Linked(q) && DocumentsOk(q) && IndexOk(q)
            && (forall u :: u in r.children ==> ChainOk(q.recs, u, q.children[u]))
  {
    var q := r.(recs := r.recs[t := Reserved], children := r.children[t := []]);
    NewParentDocuments(r, t);
    forall u | u in r.children
      ensures ChainOk(q.recs, u, q.children[u])
    {
      NewParentChain(r, t, u);
    }
    NewParentIndex(r, t);
  }

  lemma {:induction false} NewParentIndex(r: Repo, t: Pid)
    requires Inv(r) && t !in r.recs
    ensures IndexOk(r.(recs := r.recs[t := Reserved], children := r.children[t := []]))
  {
    var q := r.(recs := r.recs[t := Reserved], children := r.children[t := []]);
    forall p | p in q.records
      ensures IsLastVersion(q, p) <==> IsLastVersion(r, p)
    {
      assert p in r.parent;
      NewParentChain(r, t, r.parent[p]);
    }
  }

  lemma {:induction false} NewParentDocuments(r: Repo, t: Pid)
    requires Linked(r) && DocumentsOk(r) && t !in r.recs
    ensures DocumentsOk(r.(recs := r.recs[t := Reserved], children := r.children[t := []]))
  {
    var q := r.(recs := r.recs[t := Reserved], children := r.children[t := []]);
    forall p | p in q.parent
      ensures p in q.recs && VersionOk(q, p)
    {
      assert VersionOk(r, p);
    }
  }

  lemma {:induction false} NewParentChain(r: Repo, t: Pid, u: Pid)
    requires ChainsOk(r) && t !in r.recs && u in r.children
    ensures var recs := r.recs[t := Reserved];
            && ChainOk(recs, u, r.children[u])
            && LastLive(recs, r.children[u]) == LastLive(r.recs, r.children[u])
  {
    var recs := r.recs[t := Reserved];
    assert ChainOk(r.recs, u, r.children[u]);
    SameLive(r.recs, recs, r.children[u]);
    SameDraft(r.recs, recs, r.children[u]);
  }

  lemma {:induction false} CreateKeeps(r: Repo, id: Pid, top: Pid, versionOf: Option<Pid>, community: Community, schema: string, known: bool)
    requires Inv(r) && Create(r, id, top, versionOf, community, schema, known).Accepted?
    ensures Inv(Create(r, id, top, versionOf, community, schema, known).repo)
  {
    match versionOf {
      case None =>
        NewChainKeeps(r, id, top, Deposit(community, DraftSchema(schema), Draft, false));
      case Some(v) =>
        var t := r.parent[v];
        LastLiveIs(r.recs, r.children[t]);
        assert ParentStatus(r.recs, t, r.children[t]);
        AddDraftKeeps(r, id, t, Deposit(community, DraftSchema(r.records[v].schema), Draft, false));
    }
  }

  // ---------------------------------------------------------------------------------------
  // Committing and publishing
  // ---------------------------------------------------------------------------------------

  /** If the outer commit of a deposit is to publish it, the nested commit's workflow accepts the
      transition too, except when a submitted deposit is committed under direct publication. */
  lemma {:induction false} NestedWorkflowAcceptsIff(w: Workflow, before: State, asked: State)
    requires WorkflowState(w, before, asked) == Some(Published)
    ensures WorkflowState(w, before, Published) == Some(Published) <==> !(w == DirectPublish && before == Submitted)
  {
  }

  /** Published is never left. */
  lemma {:induction false} PublishedIsFinal(w: Workflow, asked: State)
    ensures WorkflowState(w, Published, asked).Some? ==> asked == Published && WorkflowState(w, Published, asked) == Some(Published)
  {
  }

  /** What a publication leaves. */
  ghost function PublishedRepo(r: Repo, id: Pid, d: Deposit): Repo
    requires id in r.parent
  {
    var previous := LastLive(r.recs, ChainOf(r, id));
    r.(recs := r.recs[id := Registered][r.parent[id] := Redirected(id)],
       records := r.records[id := Record(d.community, RecordSchema(d.schema))],
       deposits := r.deposits[id := d.(state := Published, published := true)],
       index := if previous.Some? then r.index[id := true][previous.value := false] else r.index[id := true])
  }

  /** A live version has a redirected parent. */
  lemma {:induction false} LiveHasRedirect(r: Repo, p: Pid)
    requires Inv(r) && p in r.parent && LastLive(r.recs, ChainOf(r, p)).Some?
    ensures r.parent[p] in r.recs && r.recs[r.parent[p]].Redirected?
  {
    var t := r.parent[p];
    var chain := r.children[t];
    assert ChainOk(r.recs, t, chain);
    LastLiveIs(r.recs, chain);
  }

  /** The draft is the last version of its chain; once registered it is the last live one. */
  lemma {:induction false} DraftBecomesLast(r: Repo, id: Pid, recs: map<Pid, PidStatus>)
    requires Inv(r) && id in r.parent && r.recs[id] == Reserved
    requires id in recs && recs[id] == Registered
    ensures LastLive(recs, ChainOf(r, id)) == Some(id)
  {
    var chain := r.children[r.parent[id]];
    assert ChainOk(r.recs, r.parent[id], chain);
    var i :| 0 <= i < |chain| && chain[i] == id;
  }

  /** What an accepted commit leaves: the stored document, and if that is newly published, the
      publication. */
  lemma {:induction false} CommitIs(r: Repo, id: Pid, d: Deposit, w: Workflow, luck: Luck)
    requires Inv(r) && id in r.deposits && d.published == r.deposits[id].published
    requires Commit(r, id, d, w, luck).Accepted?
    ensures var state := WorkflowState(w, r.deposits[id].state, d.state);
            && state.Some?
            && r.deposits[id].community == d.community && r.deposits[id].schema == d.schema
            && (if state.value == Published && !d.published
                then r.recs[id] == Reserved && Commit(r, id, d, w, luck).repo == PublishedRepo(r, id, d)
                else Commit(r, id, d, w, luck).repo == r.(deposits := r.deposits[id := d.(state := state.value)]))
  {
    var state := WorkflowState(w, r.deposits[id].state, d.state).value;
    if state == Published && !d.published {
      PublishIs(r, id, d, w, luck);
    }
  }

  /** The previous version, if there is one, is another record of the chain. */
  lemma {:induction false} PreviousIsSibling(r: Repo, id: Pid)
    requires Inv(r) && id in r.parent && r.recs[id] == Reserved
    ensures PreviousVersion(r, id) == LastLive(r.recs, ChainOf(r, id))
    ensures PreviousVersion(r, id).Some? ==>
              var p := PreviousVersion(r, id).value;
              p != id && p in r.records && p in r.parent && r.parent[p] == r.parent[id]
  {
    var chain := r.children[r.parent[id]];
    if LastLive(r.recs, chain).Some? {
      LiveHasRedirect(r, id);
      LastLiveIs(r.recs, chain);
      assert ChildrenOf(r.parent, r.parent[id], chain);
      var p := LastLive(r.recs, chain).value;
      var i :| 0 <= i < |chain| && chain[i] == p;
      assert VersionOk(r, p);
    }
  }

  lemma {:induction false} PublishIs(r: Repo, id: Pid, d: Deposit, w: Workflow, luck: Luck)
    requires Inv(r) && id in r.deposits && !d.published && !r.deposits[id].published
    requires WorkflowState(w, r.deposits[id].state, d.state) == Some(Published)
    requires Commit(r, id, d, w, luck).Accepted?
    ensures r.recs[id] == Reserved && r.deposits[id].community == d.community && r.deposits[id].schema == d.schema
    ensures Commit(r, id, d, w, luck).repo == PublishedRepo(r, id, d)
  {
    var e := d.(state := Published);
    var t := StartPublishing(r, id, e, luck).repo;
    var nested := Commit(t, id, e.(published := true), w, luck);
    assert nested.Accepted? && nested == Save(t, id, e.(published := true), luck);
    DraftBecomesLast(r, id, r.recs[id := Registered]);
    assert nested.repo == StoredRepo(r, id, d);
    FinishIs(r, id, d);
  }

  /** After the nested commit, before the parent is redirected. */
  ghost function StoredRepo(r: Repo, id: Pid, d: Deposit): Repo {
    r.(recs := r.recs[id := Registered],
       records := r.records[id := Record(d.community, RecordSchema(d.schema))],
       deposits := r.deposits[id := d.(state := Published, published := true)],
       index := r.index[id := true])
  }

  lemma {:induction false} FinishIs(r: Repo, id: Pid, d: Deposit)
    requires Inv(r) && id in r.parent && r.recs[id] == Reserved
    ensures FinishPublishing(StoredRepo(r, id, d), id, PreviousVersion(r, id)) == PublishedRepo(r, id, d)
  {
    var u := StoredRepo(r, id, d);
    PreviousIsSibling(r, id);
    DraftBecomesLast(r, id, u.recs);
    DraftBecomesLast(r, id, u.recs[r.parent[id] := Redirected(id)]);
  }

  /** The statuses of a chain's versions are untouched by changes to another chain's version and
      to its parent. */
  lemma {:induction false} OtherChain(r: Repo, recs: map<Pid, PidStatus>, id: Pid, t: Pid)
    requires Linked(r) && id in r.parent && t in r.children && t != r.parent[id] && ChainOk(r.recs, t, r.children[t])
    requires forall p :: p in r.recs && p != id && p != r.parent[id] ==> p in recs && recs[p] == r.recs[p]
    ensures ChainOk(recs, t, r.children[t])
    ensures LastLive(recs, r.children[t]) == LastLive(r.recs, r.children[t])
  {
    var chain := r.children[t];
    assert ChildrenOf(r.parent, t, chain);
    forall p | p in chain
      ensures p in recs && recs[p] == r.recs[p]
    {
      var i :| 0 <= i < |chain| && chain[i] == p;
      assert p in r.parent && r.parent[p] == t && p !in r.children;
    }
    SameLive(r.recs, recs, chain);
    SameDraft(r.recs, recs, chain);
  }

  lemma {:induction false} PublishedChainOf(r: Repo, id: Pid, d: Deposit, t: Pid)
    requires Inv(r) && id in r.parent && r.recs[id] == Reserved && t in r.children
    ensures ChainOk(PublishedRepo(r, id, d).recs, t, r.children[t])
  {
    var recs := PublishedRepo(r, id, d).recs;
    assert ChainOk(r.recs, t, r.children[t]);
    if t == r.parent[id] {
      assert ChildrenOf(r.parent, t, r.children[t]);
      DraftBecomesLast(r, id, recs);
    } else {
      OtherChain(r, recs, id, t);
    }
  }

  lemma {:induction false} PublishedChain(r: Repo, id: Pid, d: Deposit)
    requires Inv(r) && id in r.parent && r.recs[id] == Reserved
    ensures ChainsOk(PublishedRepo(r, id, d))
  {
    forall t | t in r.children
      ensures ChainOk(PublishedRepo(r, id, d).recs, t, r.children[t])
    {
      PublishedChainOf(r, id, d, t);
    }
  }

  lemma {:induction false} PublishedDocuments(r: Repo, id: Pid, d: Deposit)
    requires Inv(r) && id in r.parent && r.recs[id] == Reserved
    ensures DocumentsOk(PublishedRepo(r, id, d))
  {
    var u := PublishedRepo(r, id, d);
    assert VersionOk(r, id);
    forall p | p in u.parent
      ensures p in u.recs && VersionOk(u, p)
    {
      assert VersionOk(r, p);
    }
  }

  /** In the chain of the new version every flag but its own is gone. */
  lemma {:induction false} PublishedSibling(r: Repo, id: Pid, d: Deposit, p: Pid)
    requires Inv(r) && id in r.parent && r.recs[id] == Reserved
    requires p == id || (p in r.records && p in r.parent && r.parent[p] == r.parent[id])
    ensures var u := PublishedRepo(r, id, d); p in u.index && (u.index[p] <==> IsLastVersion(u, p))
  {
    PreviousIsSibling(r, id);
    DraftBecomesLast(r, id, PublishedRepo(r, id, d).recs);
  }

  lemma {:induction false} PublishedElsewhere(r: Repo, id: Pid, d: Deposit, p: Pid)
    requires Inv(r) && id in r.parent && r.recs[id] == Reserved
    requires p in r.records && p in r.parent && r.parent[p] != r.parent[id]
    ensures var u := PublishedRepo(r, id, d); p in u.index && (u.index[p] <==> IsLastVersion(u, p))
  {
    PreviousIsSibling(r, id);
    assert ChainOk(r.recs, r.parent[p], r.children[r.parent[p]]);
    OtherChain(r, PublishedRepo(r, id, d).recs, id, r.parent[p]);
  }

  lemma {:induction false} PublishedIndex(r: Repo, id: Pid, d: Deposit)
    requires Inv(r) && id in r.parent && r.recs[id] == Reserved
    ensures IndexOk(PublishedRepo(r, id, d))
  {
    var u := PublishedRepo(r, id, d);
    PreviousIsSibling(r, id);
    forall p | p in u.records
      ensures p in u.index && (u.index[p] <==> IsLastVersion(u, p))
    {
      if p == id || r.parent[p] == r.parent[id] {
        PublishedSibling(r, id, d, p);
      } else {
        PublishedElsewhere(r, id, d, p);
      }
    }
  }

  lemma {:induction false} CommitKeeps(r: Repo, id: Pid, d: Deposit, w: Workflow, luck: Luck)
    requires Inv(r) && id in r.deposits && d.published == r.deposits[id].published
    requires Commit(r, id, d, w, luck).Accepted?
    ensures Inv(Commit(r, id, d, w, luck).repo)
  {
    CommitIs(r, id, d, w, luck);
    var state := WorkflowState(w, r.deposits[id].state, d.state).value;
    assert VersionOk(r, id);
    if state == Published && !d.published {
      PublishedChain(r, id, d);
      PublishedDocuments(r, id, d);
      PublishedIndex(r, id, d);
    } else {
      StoringKeeps(r, id, d.(state := state));
    }
  }

  /** Storing a document that is published if and only if it was. */
  lemma {:induction false} StoringKeeps(r: Repo, id: Pid, d: Deposit)
    requires Inv(r) && id in r.deposits && d.published == r.deposits[id].published
    requires d.state == Published <==> d.published
    ensures Inv(r.(deposits := r.deposits[id := d]))
  {
    var s := r.(deposits := r.deposits[id := d]);
    forall p | p in s.parent
      ensures p in s.recs && VersionOk(s, p)
    {
      assert VersionOk(r, p);
    }
  }

  lemma {:induction false} ReindexKeeps(r: Repo, p: Pid)
    requires Inv(r)
    ensures Inv(Reindex(r, p)) && Reindex(r, p) == r
  {
    assert p in r.records ==> r.index[p := IsLastVersion(r, p)] == r.index;
  }

  // ---------------------------------------------------------------------------------------
  // Deleting deposits and records
  // ---------------------------------------------------------------------------------------

  lemma {:induction false} WithoutAbsent(chain: seq<Pid>, p: Pid)
    requires p !in chain
    ensures Without(chain, p) == chain
  {
    if chain != [] {
      WithoutAbsent(chain[..|chain| - 1], p);
    }
  }

  lemma {:induction false} WithoutLast(chain: seq<Pid>, p: Pid)
    requires chain != [] && chain[|chain| - 1] == p && NoRepeat(chain)
    ensures Without(chain, p) == chain[..|chain| - 1]
  {
    WithoutAbsent(chain[..|chain| - 1], p);
  }

  /** A draft is the last of its chain, and alone exactly when its parent is reserved. */
  lemma {:induction false} DraftPlace(r: Repo, id: Pid)
    requires Inv(r) && id in r.parent && r.recs[id] == Reserved
    ensures var top := r.parent[id];
            var chain := r.children[top];
            && top in r.recs && top !in r.parent && chain != [] && chain[|chain| - 1] == id
            && Without(chain, id) == chain[..|chain| - 1]
            && (r.recs[top] == Reserved <==> |chain| == 1)
            && (r.recs[top] != Reserved ==> r.recs[top].Redirected?)
  {
    var top := r.parent[id];
    var chain := r.children[top];
    assert ChainOk(r.recs, top, chain);
    var i :| 0 <= i < |chain| && chain[i] == id;
    assert NoRepeat(chain);
    WithoutLast(chain, id);
    DraftOfIs(r.recs, chain);
  }

  /** What deleting a draft leaves. */
  ghost function DraftRemoved(r: Repo, id: Pid): Repo
    requires id in r.parent && r.parent[id] in r.children && r.children[r.parent[id]] != []
  {
    var top := r.parent[id];
    var chain := r.children[top];
    var s := r.(parent := r.parent - {id}, deps := r.deps[id := false], deposits := r.deposits - {id});
    if |chain| == 1 then s.(recs := r.recs - {id} - {top}, children := r.children - {top})
    else s.(recs := r.recs - {id}, children := r.children[top := chain[..|chain| - 1]])
  }

  lemma {:induction false} DeleteDepositIs(r: Repo, id: Pid)
    requires Inv(r) && id in r.deposits
    ensures id in r.parent && id in r.recs && (r.recs[id] == Reserved || r.recs[id] == Registered)
    ensures r.recs[id] == Reserved ==> r.children[r.parent[id]] != [] && DeleteDeposit(r, id) == Accepted(DraftRemoved(r, id))
    ensures r.recs[id] == Registered ==>
              DeleteDeposit(r, id) == Accepted(r.(deps := r.deps[id := false], deposits := r.deposits - {id}))
  {
    assert id in r.parent && VersionOk(r, id);
    var top := r.parent[id];
    if r.recs[id] == Reserved {
      DraftPlace(r, id);
      var chain := r.children[top];
      assert |chain| == 1 ==> r.children[top := Without(chain, id)] - {top} == r.children - {top};
    } else {
      assert ChainOk(r.recs, top, r.children[top]);
    }
  }

  lemma {:induction false} DraftRemovedLinked(r: Repo, id: Pid)
    requires Inv(r) && id in r.parent && r.recs[id] == Reserved && r.children[r.parent[id]] != []
    ensures Linked(DraftRemoved(r, id))
  {
    DraftPlace(r, id);
    var s := DraftRemoved(r, id);
    forall t | t in s.children
      ensures ChildrenOf(s.parent, t, s.children[t]) && NoRepeat(s.children[t])
    {
      DraftRemovedChildren(r, id, t);
    }
    forall p | p in s.parent
      ensures p !in s.children && s.parent[p] in s.children && p in s.children[s.parent[p]]
    {
      DraftRemovedParent(r, id, p);
    }
  }

  lemma {:induction false} DraftRemovedChildren(r: Repo, id: Pid, t: Pid)
    requires Inv(r) && id in r.parent && r.recs[id] == Reserved && r.children[r.parent[id]] != []
    requires t in DraftRemoved(r, id).children
    ensures var s := DraftRemoved(r, id);
            ChildrenOf(s.parent, t, s.children[t]) && NoRepeat(s.children[t])
  {
    DraftPlace(r, id);
    var chain := r.children[t];
    assert ChildrenOf(r.parent, t, chain) && NoRepeat(chain);
    if t == r.parent[id] {
      assert chain == chain[..|chain| - 1] + [id];
    }
  }

  lemma {:induction false} DraftRemovedParent(r: Repo, id: Pid, p: Pid)
    requires Inv(r) && id in r.parent && r.recs[id] == Reserved && r.children[r.parent[id]] != []
    requires p in DraftRemoved(r, id).parent
    ensures var s := DraftRemoved(r, id);
            p !in s.children && s.parent[p] in s.children && p in s.children[s.parent[p]]
  {
    DraftPlace(r, id);
    assert p in r.parent && p != id;
    var chain := r.children[r.parent[p]];
    if r.parent[p] == r.parent[id] {
      assert chain == chain[..|chain| - 1] + [id];
    }
  }

  /** A chain without its draft. */
  lemma {:induction false} FrontChain(r: Repo, id: Pid, recs: map<Pid, PidStatus>)
    requires Inv(r) && id in r.parent && r.recs[id] == Reserved
    requires r.parent[id] in r.recs && r.recs[r.parent[id]] != Reserved
    requires recs == r.recs - {id}
    ensures var chain := r.children[r.parent[id]];
            chain != [] && ChainOk(recs, r.parent[id], chain[..|chain| - 1])
            && LastLive(recs, chain[..|chain| - 1]) == LastLive(r.recs, chain)
  {
    DraftPlace(r, id);
    var chain := r.children[r.parent[id]];
    assert ChainOk(r.recs, r.parent[id], chain) && NoRepeat(chain);
    var front := chain[..|chain| - 1];
    assert chain == front + [id] && id !in front;
    SameLive(r.recs, recs, front);
    SameDraft(r.recs, recs, front);
  }

  lemma {:induction false} DraftRemovedChain(r: Repo, id: Pid, t: Pid)
    requires Inv(r) && id in r.parent && r.recs[id] == Reserved && r.children[r.parent[id]] != []
    requires t in DraftRemoved(r, id).children
    ensures var s := DraftRemoved(r, id);
            ChainOk(s.recs, t, s.children[t]) && LastLive(s.recs, s.children[t]) == LastLive(r.recs, r.children[t])
  {
    DraftPlace(r, id);
    var s := DraftRemoved(r, id);
    if t == r.parent[id] {
      FrontChain(r, id, s.recs);
    } else {
      assert ChainOk(r.recs, t, r.children[t]);
      OtherChain(r, s.recs, id, t);
    }
  }

  lemma {:induction false} DraftRemovedDocuments(r: Repo, id: Pid)
    requires Inv(r) && id in r.parent && r.recs[id] == Reserved && r.children[r.parent[id]] != []
    ensures DocumentsOk(DraftRemoved(r, id))
  {
    var s := DraftRemoved(r, id);
    DraftPlace(r, id);
    assert VersionOk(r, id);
    forall p | p in s.parent
      ensures p in s.recs && VersionOk(s, p)
    {
      assert VersionOk(r, p);
    }
  }

  lemma {:induction false} DraftRemovedIndex(r: Repo, id: Pid)
    requires Inv(r) && id in r.parent && r.recs[id] == Reserved && r.children[r.parent[id]] != []
    ensures IndexOk(DraftRemoved(r, id))
  {
    var s := DraftRemoved(r, id);
    assert VersionOk(r, id);
    forall p | p in s.records
      ensures IsLastVersion(s, p) <==> IsLastVersion(r, p)
    {
      assert p in r.parent && VersionOk(r, p) && p != id;
      DraftRemovedChain(r, id, s.parent[p]);
    }
  }

  lemma {:induction false} DraftRemovedKeeps(r: Repo, id: Pid)
    requires Inv(r) && id in r.parent && r.recs[id] == Reserved && r.children[r.parent[id]] != []
    ensures Inv(DraftRemoved(r, id))
  {
    var s := DraftRemoved(r, id);
    DraftRemovedLinked(r, id);
    forall t | t in s.children
      ensures ChainOk(s.recs, t, s.children[t])
    {
      DraftRemovedChain(r, id, t);
    }
    DraftRemovedDocuments(r, id);
    DraftRemovedIndex(r, id);
  }

  lemma {:induction false} DeleteDepositKeeps(r: Repo, id: Pid)
    requires Inv(r) && DeleteDeposit(r, id).Accepted?
    ensures Inv(DeleteDeposit(r, id).repo)
  {
    DeleteDepositIs(r, id);
    if r.recs[id] == Reserved {
      DraftRemovedKeeps(r, id);
    } else {
      var s := r.(deps := r.deps[id := false], deposits := r.deposits - {id});
      forall p | p in s.parent
        ensures p in s.recs && VersionOk(s, p)
      {
        assert VersionOk(r, p);
      }
    }
  }

  /** Deleting a version changes the last live one only if it was the last live one. */
  lemma {:induction false} LiveAfterDeletion(recs: map<Pid, PidStatus>, chain: seq<Pid>, p: Pid)
    requires LastLive(recs, chain) != Some(p)
    ensures LastLive(recs[p := Deleted], chain) == LastLive(recs, chain)
  {
    if chain != [] && !(chain[|chain| - 1] in recs && recs[chain[|chain| - 1]] == Registered) {
      LiveAfterDeletion(recs, chain[..|chain| - 1], p);
    }
  }

  /** What deleting a record leaves before the rest of its chain is looked at. */
  ghost function RecordRemoved(r: Repo, p: Pid): Repo {
    r.(recs := r.recs[p := Deleted], records := r.records - {p}, index := r.index - {p},
       deps := if p in r.deposits then r.deps[p := false] else r.deps, deposits := r.deposits - {p})
  }

  lemma {:induction false} DeleteRecordIs(r: Repo, p: Pid)
    requires Inv(r) && p in r.records
    ensures p in r.parent && r.parent[p] in r.children && p in r.recs && r.recs[p] == Registered
    ensures var t := RecordRemoved(r, p);
            var chain := r.children[r.parent[p]];
            DeleteRecord(r, p) == Accepted(
              if LastLive(t.recs, chain).Some? then Reindex(t, LastLive(t.recs, chain).value)
              else if DraftOf(t.recs, chain).None? then t.(recs := t.recs[r.parent[p] := Deleted])
              else t)
  {
    assert p in r.parent && VersionOk(r, p);
    if p in r.deposits {
      DeleteDepositIs(r, p);
    } else {
      assert !(p in r.deps && r.deps[p]);
      assert r.deposits - {p} == r.deposits;
    }
  }

  /** The statuses that deleting a record leaves in its own chain. */
  ghost predicate RecordGone(r: Repo, p: Pid, recs: map<Pid, PidStatus>)
    requires p in r.parent && r.parent[p] in r.children
  {
    var chain := r.children[r.parent[p]];
    var gone := r.recs[p := Deleted];
    recs == if LastLive(gone, chain).None? && DraftOf(gone, chain).None? then gone[r.parent[p] := Deleted] else gone
  }

  lemma {:induction false} RecordRemovedOwn(r: Repo, p: Pid, recs: map<Pid, PidStatus>)
    requires Inv(r) && p in r.records && p in r.parent && r.parent[p] in r.children && RecordGone(r, p, recs)
    ensures ChainOk(recs, r.parent[p], r.children[r.parent[p]])
    ensures LastLive(recs, r.children[r.parent[p]]) == LastLive(r.recs[p := Deleted], r.children[r.parent[p]])
  {
    var t := r.parent[p];
    var chain, gone := r.children[t], r.recs[p := Deleted];
    assert ChainOk(r.recs, t, chain) && ChildrenOf(r.parent, t, chain) && VersionOk(r, p);
    assert t !in r.parent;
    forall q | q in chain
      ensures q in gone && q in recs && gone[q] == recs[q]
    {
      var i :| 0 <= i < |chain| && chain[i] == q;
    }
    SameLive(gone, recs, chain);
    SameDraft(gone, recs, chain);
    LiveHasParent(r, p);
  }

  lemma {:induction false} RecordRemovedChain(r: Repo, p: Pid, t: Pid, recs: map<Pid, PidStatus>)
    requires Inv(r) && p in r.records && p in r.parent && r.parent[p] in r.children && t in r.children
    requires RecordGone(r, p, recs)
    ensures ChainOk(recs, t, r.children[t])
    ensures t != r.parent[p] ==> LastLive(recs, r.children[t]) == LastLive(r.recs, r.children[t])
    ensures t == r.parent[p] ==> LastLive(recs, r.children[t]) == LastLive(r.recs[p := Deleted], r.children[t])
  {
    if t == r.parent[p] {
      RecordRemovedOwn(r, p, recs);
    } else {
      assert ChainOk(r.recs, t, r.children[t]);
      OtherChain(r, recs, p, t);
    }
  }

  /** The parent of a live version is redirected. */
  lemma {:induction false} LiveHasParent(r: Repo, p: Pid)
    requires Inv(r) && p in r.records && p in r.parent
    ensures r.parent[p] in r.recs && r.recs[r.parent[p]].Redirected?
  {
    assert VersionOk(r, p) && ChainOk(r.recs, r.parent[p], r.children[r.parent[p]]);
    LastLiveIs(r.recs, r.children[r.parent[p]]);
    LiveHasRedirect(r, p);
  }

  lemma {:induction false} DeleteRecordKeeps(r: Repo, p: Pid)
    requires Inv(r) && DeleteRecord(r, p).Accepted?
    ensures Inv(DeleteRecord(r, p).repo)
  {
    DeleteRecordIs(r, p);
    LiveHasParent(r, p);
    var s := DeleteRecord(r, p).repo;
    forall t | t in s.children
      ensures ChainOk(s.recs, t, s.children[t])
    {
      RecordRemovedChain(r, p, t, s.recs);
    }
    RecordRemovedDocuments(r, p, s);
    RecordRemovedIndex(r, p, s);
  }

  lemma {:induction false} RecordRemovedDocuments(r: Repo, p: Pid, s: Repo)
    requires Inv(r) && p in r.records && p in r.parent && r.recs[p] == Registered
    requires s.parent == r.parent && s.children == r.children
    requires s.recs == r.recs[p := Deleted] || s.recs == r.recs[p := Deleted][r.parent[p] := Deleted]
    requires var t := RecordRemoved(r, p); s.records == t.records && s.deposits == t.deposits && s.deps == t.deps
    ensures Linked(s) && DocumentsOk(s)
  {
    assert VersionOk(r, p);
    forall q | q in s.parent
      ensures q in s.recs && VersionOk(s, q)
    {
      assert VersionOk(r, q);
    }
  }

  lemma {:induction false} RecordRemovedIndex(r: Repo, p: Pid, s: Repo)
    requires Inv(r) && p in r.parent && DeleteRecord(r, p) == Accepted(s)
    ensures IndexOk(s)
  {
    DeleteRecordIs(r, p);
    LastLiveIs(r.recs[p := Deleted], r.children[r.parent[p]]);
    forall q | q in s.records
      ensures q in s.index && (s.index[q] <==> IsLastVersion(s, q))
    {
      RecordRemovedFlag(r, p, s, q);
    }
    LastIsRecord(r, p);
  }

  lemma {:induction false} RecordRemovedFlag(r: Repo, p: Pid, s: Repo, q: Pid)
    requires Inv(r) && p in r.parent && DeleteRecord(r, p) == Accepted(s) && q in s.records
    ensures q in s.index && (s.index[q] <==> IsLastVersion(s, q))
  {
    DeleteRecordIs(r, p);
    assert q in r.records && q in r.parent && q != p;
    RecordRemovedChain(r, p, r.parent[q], s.recs);
    if r.parent[q] == r.parent[p] {
      RecordRemovedSibling(r, p, s, q);
    } else {
      LastLiveIs(r.recs[p := Deleted], r.children[r.parent[p]]);
      LastIsRecord(r, p);
    }
  }

  lemma {:induction false} RecordRemovedSibling(r: Repo, p: Pid, s: Repo, q: Pid)
    requires Inv(r) && p in r.parent && DeleteRecord(r, p) == Accepted(s) && q in s.records
    requires q in r.parent && r.parent[q] == r.parent[p] && q != p
    requires LastLive(s.recs, ChainOf(r, p)) == LastLive(r.recs[p := Deleted], ChainOf(r, p))
    ensures q in s.index && (s.index[q] <==> IsLastVersion(s, q))
  {
    DeleteRecordIs(r, p);
    var chain := r.children[r.parent[p]];
    LastLiveIs(r.recs[p := Deleted], chain);
    if LastLive(r.recs, chain) != Some(p) {
      LiveAfterDeletion(r.recs, chain, p);
    }
  }

  /** The version that takes over is a record. */
  lemma {:induction false} LastIsRecord(r: Repo, p: Pid)
    requires Inv(r) && p in r.records && p in r.parent && r.parent[p] in r.children
    ensures var last := LastLive(r.recs[p := Deleted], r.children[r.parent[p]]);
            last.Some? ==> last.value in r.records && last.value != p
  {
    var chain := r.children[r.parent[p]];
    LastLiveIs(r.recs[p := Deleted], chain);
    assert ChildrenOf(r.parent, r.parent[p], chain);
    var last := LastLive(r.recs[p := Deleted], chain);
    if last.Some? {
      var i :| 0 <= i < |chain| && chain[i] == last.value;
      assert VersionOk(r, last.value);
    }
  }

  // ---------------------------------------------------------------------------------------
  // Every request, and every run
  // ---------------------------------------------------------------------------------------

  lemma {:induction false} RequestKeeps(r: Repo, q: Request)
    requires Inv(r)
    ensures Inv(After(r, q))
  {
    match q {
      case NewDeposit(id, top, versionOf, community, schema, known) =>
        if Answer(r, q).Accepted? {
          CreateKeeps(r, id, top, versionOf, community, schema, known);
        }
      case CommitDeposit(id, community, schema, state, workflow, luck) =>
        if Answer(r, q).Accepted? {
          CommitKeeps(r, id, Deposit(community, schema, state, r.deposits[id].published), workflow, luck);
        }
      case RemoveDeposit(id) =>
        if Answer(r, q).Accepted? {
          DeleteDepositKeeps(r, id);
        }
      case RemoveRecord(id) =>
        if Answer(r, q).Accepted? {
          DeleteRecordKeeps(r, id);
        }
      case CommitRecord(id, community, schema, luck) =>
        ReindexKeeps(r, id);
      case IndexRecord(id) =>
        ReindexKeeps(r, id);
    }
  }

  /** The invariant holds after every run of requests from the empty repository. */
  lemma {:induction false} RunKeeps(qs: seq<Request>)
    ensures Inv(Run(EMPTY, qs))
  {
    if qs == [] {
      EmptyIsOk();
    } else {
      RunKeeps(qs[..|qs| - 1]);
      RequestKeeps(Run(EMPTY, qs[..|qs| - 1]), qs[|qs| - 1]);
    }
  }
}
