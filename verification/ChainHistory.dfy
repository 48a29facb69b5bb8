/** What runs of requests keep from one moment to the next, and what a commit needs
    (b2share/modules/deposit/api.py, b2share/modules/records/api.py,
    b2share/modules/communities/workflows.py, b2share/modules/records/triggers.py). */
module ChainHistory {
  import opened Options
  import opened SchemaUrls
  import opened Sequences
  import opened VersionChains
  import opened ChainInvariants

  // ---------------------------------------------------------------------------------------
  // Publication order
  // ---------------------------------------------------------------------------------------

  /** The versions of a chain that have been published, deleted ones included, in order. */
  function PublishedVersions(recs: map<Pid, PidStatus>, chain: seq<Pid>): seq<Pid> {
    if chain != [] && chain[|chain| - 1] in recs && recs[chain[|chain| - 1]] == Reserved then chain[..|chain| - 1]
    else chain
  }

  function VersionsOf(r: Repo, t: Pid): seq<Pid> {
    if t in r.children then PublishedVersions(r.recs, r.children[t]) else []
  }

  /** The published versions of every chain stay, in their order, as a beginning of what is
      published later; nothing but deletion happens to them. */
  ghost predicate Continues(r: Repo, s: Repo) {
    && (forall t :: VersionsOf(r, t) <= VersionsOf(s, t))
    && (forall p :: p in r.parent && p in r.recs && r.recs[p] != Reserved ==>
          && p in s.parent && s.parent[p] == r.parent[p] && p in s.recs
          && (s.recs[p] == r.recs[p] || s.recs[p] == Deleted))
  }

  lemma {:induction false} ContinuesTransitive(a: Repo, b: Repo, c: Repo)
    requires Continues(a, b) && Continues(b, c)
    requires forall p :: p in a.parent && p in a.recs ==> !a.recs[p].Redirected?
    ensures Continues(a, c)
  {
    forall t
      ensures VersionsOf(a, t) <= VersionsOf(c, t)
    {
      assert VersionsOf(a, t) <= VersionsOf(b, t) <= VersionsOf(c, t);
    }
  }

  /** A new draft at the end of a chain is not among the published versions. */
  lemma {:induction false} AddDraftVersions(recs: map<Pid, PidStatus>, recs': map<Pid, PidStatus>, chain: seq<Pid>, id: Pid)
    requires id in recs' && recs'[id] == Reserved
    requires chain != [] && chain[|chain| - 1] in recs ==> recs[chain[|chain| - 1]] != Reserved
    ensures PublishedVersions(recs, chain) == chain == PublishedVersions(recs', chain + [id])
  {
    assert (chain + [id])[..|chain|] == chain;
  }

  /** The last version of a chain without a draft is not a draft, and none is the new one. */
  lemma {:induction false} NoDraftLast(r: Repo, id: Pid, u: Pid)
    requires Inv(r) && id !in r.recs && u in r.children && r.children[u] != []
    ensures var chain := r.children[u];
            var last := chain[|chain| - 1];
            && last in r.parent && last in r.recs && last != id && last !in r.children
            && (DraftOf(r.recs, chain).None? ==> r.recs[last] != Reserved)
  {
    var chain := r.children[u];
    assert ChildrenOf(r.parent, u, chain) && ChainOk(r.recs, u, chain);
    assert chain[|chain| - 1] in r.parent;
    DraftOfIs(r.recs, chain);
  }

  lemma {:induction false} SameVersions(recs: map<Pid, PidStatus>, recs': map<Pid, PidStatus>, chain: seq<Pid>)
    requires chain != [] ==> var p := chain[|chain| - 1]; p in recs && p in recs' && recs[p] == recs'[p]
    ensures PublishedVersions(recs, chain) == PublishedVersions(recs', chain)
  {
  }

  /** The repository a draft is added to: the chain `t` has none, or is new and empty. */
  ghost predicate TakesDraft(r: Repo, id: Pid, t: Pid, q: Repo) {
    && id !in r.recs
    && (t in r.children ==> q == r && DraftOf(r.recs, r.children[t]).None?)
    && (t !in r.children ==>
          && t !in r.recs && t != id
          && q == r.(recs := r.recs[t := Reserved], children := r.children[t := []]))
  }

  lemma {:induction false} AddDraftKeepsVersions(r: Repo, id: Pid, t: Pid, d: Deposit, q: Repo, u: Pid)
    requires Inv(r) && TakesDraft(r, id, t, q) && u in r.children
    ensures VersionsOf(r, u) <= VersionsOf(AddDraft(q, t, id, d), u)
  {
    var recs := AddDraft(q, t, id, d).recs;
    if r.children[u] != [] {
      NoDraftLast(r, id, u);
    }
    if u == t {
      AddDraftVersions(r.recs, recs, r.children[u], id);
    } else {
      SameVersions(r.recs, recs, r.children[u]);
    }
  }

  lemma {:induction false} AddDraftContinues(r: Repo, id: Pid, t: Pid, d: Deposit, q: Repo)
    requires Inv(r) && TakesDraft(r, id, t, q)
    ensures Continues(r, AddDraft(q, t, id, d))
  {
    assert id !in r.parent;
    forall u
      ensures VersionsOf(r, u) <= VersionsOf(AddDraft(q, t, id, d), u)
    {
      if u in r.children {
        AddDraftKeepsVersions(r, id, t, d, q, u);
      }
    }
  }

  lemma {:induction false} PublishContinues(r: Repo, id: Pid, d: Deposit)
    requires Inv(r) && id in r.parent && r.recs[id] == Reserved
    ensures Continues(r, PublishedRepo(r, id, d))
  {
    var s := PublishedRepo(r, id, d);
    forall u
      ensures VersionsOf(r, u) <= VersionsOf(s, u)
    {
      if u in r.children {
        var chain := r.children[u];
        assert ChildrenOf(r.parent, u, chain) && ChainOk(r.recs, u, chain);
        assert chain[|chain| - 1] in r.parent;
      }
    }
  }

  lemma {:induction false} RemoveDraftContinues(r: Repo, id: Pid)
    requires Inv(r) && id in r.parent && r.recs[id] == Reserved && r.children[r.parent[id]] != []
    ensures Continues(r, DraftRemoved(r, id))
  {
    DraftPlace(r, id);
    var s := DraftRemoved(r, id);
    forall u
      ensures VersionsOf(r, u) <= VersionsOf(s, u)
    {
      if u in r.children {
        RemoveDraftVersions(r, id, u);
      }
    }
    forall p | p in r.parent && p in r.recs && r.recs[p] != Reserved
      ensures p in s.parent && p in s.recs
    {
      assert p != r.parent[id];
    }
  }

  lemma {:induction false} RemoveDraftVersions(r: Repo, id: Pid, u: Pid)
    requires Inv(r) && id in r.parent && r.recs[id] == Reserved && r.children[r.parent[id]] != []
    requires u in r.children
    ensures VersionsOf(r, u) <= VersionsOf(DraftRemoved(r, id), u)
  {
    DraftPlace(r, id);
    var chain := r.children[u];
    assert ChildrenOf(r.parent, u, chain) && ChainOk(r.recs, u, chain);
    var last := chain[|chain| - 1];
    assert last in r.parent && last != r.parent[id];
    if u == r.parent[id] && |chain| > 1 {
      var front := chain[..|chain| - 1];
      assert front[|front| - 1] == chain[|chain| - 2];
    }
  }

  lemma {:induction false} DeleteContinues(r: Repo, p: Pid, s: Repo)
    requires Inv(r) && p in r.records && p in r.parent && r.parent[p] in r.recs && r.recs[r.parent[p]].Redirected?
    requires s.children == r.children && s.parent == r.parent
    requires s.recs == r.recs[p := Deleted] || s.recs == r.recs[p := Deleted][r.parent[p] := Deleted]
    ensures Continues(r, s)
  {
    assert VersionOk(r, p);
    forall u
      ensures VersionsOf(r, u) <= VersionsOf(s, u)
    {
      if u in r.children {
        var chain := r.children[u];
        assert ChildrenOf(r.parent, u, chain) && ChainOk(r.recs, u, chain);
        assert chain[|chain| - 1] in r.parent;
      }
    }
  }

  lemma {:induction false} SameChainsContinue(r: Repo, s: Repo)
    requires s.children == r.children && s.parent == r.parent && s.recs == r.recs
    ensures Continues(r, s)
  {
  }

  lemma {:induction false} RequestContinues(r: Repo, q: Request)
    requires Inv(r)
    ensures Continues(r, After(r, q))
  {
    if Answer(r, q).Refused? {
      SameChainsContinue(r, r);
      return;
    }
    match q {
      case NewDeposit(id, top, versionOf, community, schema, known) =>
        match versionOf {
          case None =>
            AddDraftContinues(r, id, top, Deposit(community, DraftSchema(schema), Draft, false),
                              r.(recs := r.recs[top := Reserved], children := r.children[top := []]));
          case Some(v) =>
            AddDraftContinues(r, id, r.parent[v], Deposit(community, DraftSchema(r.records[v].schema), Draft, false), r);
        }
      case CommitDeposit(id, community, schema, state, workflow, luck) =>
        var d := Deposit(community, schema, state, r.deposits[id].published);
        CommitIs(r, id, d, workflow, luck);
        if WorkflowState(workflow, r.deposits[id].state, state).value == Published && !d.published {
          PublishContinues(r, id, d);
        } else {
          SameChainsContinue(r, After(r, q));
        }
      case RemoveDeposit(id) =>
        DeleteDepositIs(r, id);
        if r.recs[id] == Reserved {
          RemoveDraftContinues(r, id);
        } else {
          SameChainsContinue(r, After(r, q));
        }
      case RemoveRecord(id) =>
        DeleteRecordIs(r, id);
        LiveHasParent(r, id);
        DeleteContinues(r, id, After(r, q));
      case CommitRecord(id, community, schema, luck) =>
        SameChainsContinue(r, After(r, q));
      case IndexRecord(id) =>
        SameChainsContinue(r, After(r, q));
    }
  }

  lemma {:induction false} NoVersionRedirects(r: Repo)
    requires Inv(r)
    ensures forall p :: p in r.parent && p in r.recs ==> !r.recs[p].Redirected?
  {
    forall p | p in r.parent && p in r.recs
      ensures !r.recs[p].Redirected?
    {
      assert VersionOk(r, p);
    }
  }

  /** In every run, what is published at one moment is a beginning of what is published at every
      later moment, and a published version is never anything but published or deleted again. */
  lemma {:induction false} RunContinues(qs: seq<Request>, n: nat)
    requires n <= |qs|
    ensures Continues(Run(EMPTY, qs[..n]), Run(EMPTY, qs))
    decreases |qs| - n
  {
    if n == |qs| {
      assert qs[..n] == qs;
      SameChainsContinue(Run(EMPTY, qs), Run(EMPTY, qs));
    } else {
      var r := Run(EMPTY, qs[..n]);
      RunKeeps(qs[..n]);
      assert qs[..n + 1][..n] == qs[..n];
      RequestContinues(r, qs[n]);
      RunContinues(qs, n + 1);
      NoVersionRedirects(r);
      ContinuesTransitive(r, Run(EMPTY, qs[..n + 1]), Run(EMPTY, qs));
    }
  }

  // ---------------------------------------------------------------------------------------
  // New deposits and commits
  // ---------------------------------------------------------------------------------------

  /** When a new deposit is accepted: a new version can be made of exactly those records that the
      index flags as the last version, in their own community, while their chain has no draft. */
  lemma {:induction false} CreateAcceptedIff(r: Repo, id: Pid, top: Pid, versionOf: Option<Pid>, community: Community, schema: string, known: bool)
    requires Inv(r)
    ensures Create(r, id, top, versionOf, community, schema, known).Accepted? <==>
            && id !in r.recs && id !in r.deps && known
            && match versionOf
               case None => top !in r.recs && top != id
               case Some(v) => v in r.index && r.index[v] && r.records[v].community == community && NoDraft(r, v)
  {
    if versionOf.Some? {
      var v := versionOf.value;
      LastLiveIs(r.recs, ChainOf(r, v));
      DraftOfIs(r.recs, ChainOf(r, v));
      if v in r.parent {
        assert VersionOk(r, v);
        assert ChildrenOf(r.parent, r.parent[v], r.children[r.parent[v]]);
      }
    }
  }

  /** Why a new version is refused, when the PID for it is free. */
  lemma {:induction false} NewVersionRefusedWhy(r: Repo, id: Pid, top: Pid, v: Pid, community: Community, schema: string, known: bool)
    requires Inv(r) && id !in r.recs && id !in r.deps
    requires Create(r, id, top, Some(v), community, schema, known).Refused?
    ensures Create(r, id, top, Some(v), community, schema, known).why ==
              if v !in r.recs || r.recs[v] == Deleted then NoSuchVersion
              else if v !in r.parent then NotVersioned
              else if forall p :: p in ChainOf(r, v) ==> p !in r.records then NoLastVersion
              else if !(v in r.index && r.index[v]) then NotLastVersion
              else if r.records[v].community != community then CommunityChanged
              else if !NoDraft(r, v) then DraftExists
              else InvalidDeposit
  {
    if v in r.parent {
      var chain := ChainOf(r, v);
      LastLiveIs(r.recs, chain);
      DraftOfIs(r.recs, chain);
      assert VersionOk(r, v) && ChildrenOf(r.parent, r.parent[v], chain);
      forall p | p in chain
        ensures p in r.recs && (p in r.records <==> r.recs[p] == Registered)
      {
        var i :| 0 <= i < |chain| && chain[i] == p;
        assert p in r.parent && VersionOk(r, p);
      }
    }
  }

  ghost predicate NoDraft(r: Repo, v: Pid) {
    forall p :: p in ChainOf(r, v) && p in r.recs ==> r.recs[p] != Reserved
  }

  /** When a commit is accepted. Whenever the outer commit of a publication passes its checks, so
      does the commit it causes, with one exception: a deposit stored as submitted whose community
      publishes directly. */
  lemma {:induction false} CommitAcceptedIff(r: Repo, id: Pid, d: Deposit, w: Workflow, luck: Luck)
    requires Inv(r) && id in r.deposits && d.published == r.deposits[id].published
    ensures var stored := r.deposits[id];
            Commit(r, id, d, w, luck).Accepted? <==>
            && MayGo(w, stored.state, d.state)
            && d.community == stored.community && d.schema == stored.schema && luck.valid
            && (Gets(w, d.state) == Published && !d.published ==>
                  luck.minted && !(w == DirectPublish && stored.state == Submitted))
  {
    assert VersionOk(r, id);
    var stored := r.deposits[id];
    WorkflowIs(w, stored.state, d.state);
    var state := WorkflowState(w, stored.state, d.state);
    if state == Some(Published) && !d.published {
      NestedWorkflowAcceptsIff(w, stored.state, d.state);
      var e := d.(state := Published);
      var started := StartPublishing(r, id, e, luck);
      assert started.Accepted? <==> luck.minted && luck.valid;
      if started.Accepted? {
        var nested := Commit(started.repo, id, e.(published := true), w, luck);
        assert nested.Accepted? <==> WorkflowState(w, stored.state, Published).Some?
                                     && d.community == stored.community && d.schema == stored.schema && luck.valid;
      }
    }
  }

  /** Why a commit is refused. The minting comes before the validation, and both before the fields are
      compared, where it is to publish. */
  lemma {:induction false} CommitRefusedWhy(r: Repo, id: Pid, d: Deposit, w: Workflow, luck: Luck)
    requires Inv(r) && id in r.deposits && d.published == r.deposits[id].published
    requires Commit(r, id, d, w, luck).Refused?
    ensures var before := r.deposits[id].state;
            Commit(r, id, d, w, luck).why ==
              if !MayGo(w, before, d.state) then TransitionRefused
              else if Gets(w, d.state) == Published && !d.published then
                if !luck.minted then MintFailed
                else if !luck.valid then NotValid
                else if w == DirectPublish && before == Submitted then TransitionRefused
                else FieldAltered
              else if d.community != r.deposits[id].community || d.schema != r.deposits[id].schema then FieldAltered
              else NotValid
  {
    assert VersionOk(r, id);
    var stored := r.deposits[id];
    WorkflowIs(w, stored.state, d.state);
    if MayGo(w, stored.state, d.state) && Gets(w, d.state) == Published && !d.published {
      NestedWorkflowAcceptsIff(w, stored.state, d.state);
      var e := d.(state := Published);
      var started := StartPublishing(r, id, e, luck);
      if started.Accepted? {
        var nested := Commit(started.repo, id, e.(published := true), w, luck);
        assert nested.Refused? ==> nested.why == if w == DirectPublish && stored.state == Submitted then TransitionRefused else FieldAltered;
      }
    }
  }

  /** When an update of a record is accepted: its community and schema stay and the document is
      valid. It changes no table, since the flag that it computes again is never stale. */
  lemma {:induction false} UpdateAcceptedIff(r: Repo, p: Pid, community: Community, schema: string, luck: Luck)
    requires Inv(r)
    ensures var answer := UpdateRecord(r, p, community, schema, luck);
            && (answer.Accepted? <==>
                  p in r.records && community == r.records[p].community && schema == r.records[p].schema && luck.valid)
            && (answer.Accepted? ==> answer.repo == r)
  {
    ReindexKeeps(r, p);
  }

  /** Every stored deposit and every record can be deleted, whatever state they are in. */
  lemma {:induction false} DeletionAcceptedIff(r: Repo, id: Pid)
    requires Inv(r)
    ensures DeleteDeposit(r, id).Accepted? <==> id in r.deposits
    ensures DeleteRecord(r, id).Accepted? <==> id in r.records
  {
  }

  /** The exception in a run: a deposit submitted under review, whose community then publishes
      directly, is not published by committing it again, although the workflow says so. */
  lemma {:induction false} SubmittedThenDirect(id: Pid, top: Pid, c: Community, url: string)
    requires id != top
    ensures var luck, schema := Luck(true, true), DraftSchema(url);
            var r := Run(EMPTY, [NewDeposit(id, top, None, c, url, true),
                                 CommitDeposit(id, c, schema, Submitted, ReviewAndPublish, luck)]);
            && id in r.deposits && r.deposits[id].state == Submitted
            && WorkflowState(DirectPublish, Submitted, Submitted) == Some(Published)
            && Answer(r, CommitDeposit(id, c, schema, Submitted, DirectPublish, luck)) == Refused(TransitionRefused)
  {
    var luck, schema := Luck(true, true), DraftSchema(url);
    var first, second := NewDeposit(id, top, None, c, url, true), CommitDeposit(id, c, schema, Submitted, ReviewAndPublish, luck);
    assert [first, second][..1] == [first] && [first][..0] == [];
    var r := Run(EMPTY, [first]);
    assert Run(EMPTY, []) == EMPTY;
    assert r.deposits[id] == Deposit(c, schema, Draft, false);
    var s := Run(EMPTY, [first, second]);
    assert s.deposits[id] == Deposit(c, schema, Submitted, false) && s.recs == r.recs && s.deps == r.deps;
    NestedIsRefused(s, id, s.deposits[id], luck);
  }

  lemma {:induction false} NestedIsRefused(r: Repo, id: Pid, d: Deposit, luck: Luck)
    requires id in r.deposits && r.deposits[id] == d && d.state == Submitted && !d.published
    requires id in r.deps && r.deps[id] && id in r.recs && r.recs[id] == Reserved && luck == Luck(true, true)
    ensures Commit(r, id, d, DirectPublish, luck) == Refused(TransitionRefused)
  {
    var e := d.(state := Published);
    var started := StartPublishing(r, id, e, luck);
    assert started.Accepted? && started.repo.deposits[id].state == Submitted;
    assert WorkflowState(DirectPublish, Submitted, Published) == None;
    assert Commit(started.repo, id, e.(published := true), DirectPublish, luck) == Refused(TransitionRefused);
  }

  /** A PID that has been published is not published again, in any continuation of a run. */
  lemma {:induction false} PublishedOnce(qs: seq<Request>, n: nat, id: Pid, d: Deposit, w: Workflow, luck: Luck)
    requires n <= |qs|
    requires var r := Run(EMPTY, qs[..n]); id in r.parent && id in r.recs && r.recs[id] != Reserved
    ensures var s := Run(EMPTY, qs);
            && id in s.parent && id in s.recs && s.recs[id] != Reserved
            && (id in s.deposits ==>
                  && s.deposits[id].published && s.deposits[id].state == Published
                  && forall q: Request :: q.CommitDeposit? && q.id == id ==>
                       After(s, q).recs == s.recs && After(s, q).records == s.records)
  {
    var s := Run(EMPTY, qs);
    RunContinues(qs, n);
    RunKeeps(qs);
    assert VersionOk(s, id);
  }

  // ---------------------------------------------------------------------------------------
  // Community and schema
  // ---------------------------------------------------------------------------------------

  /** A document of this community with this schema URL up to its fragment, which tells whether
      it is a draft's or a record's. */
  ghost predicate OfKind(draft: bool, c: Community, schema: string, community: Community, url: string) {
    c == community && Base(schema) == url && if draft then IsDeposit(schema) else IsPublication(schema)
  }

  ghost predicate HasMeta(r: Repo, p: Pid, community: Community, url: string) {
    && (p in r.deposits ==> OfKind(true, r.deposits[p].community, r.deposits[p].schema, community, url))
    && (p in r.records ==> OfKind(false, r.records[p].community, r.records[p].schema, community, url))
  }

  ghost predicate ChainMeta(r: Repo, t: Pid, community: Community, url: string) {
    forall p :: p in r.parent && r.parent[p] == t ==> HasMeta(r, p, community, url)
  }

  /** All versions of a chain share one community and one schema. */
  ghost predicate SharedMeta(r: Repo) {
    forall t :: t in r.children ==> exists community, url :: ChainMeta(r, t, community, url)
  }

  /** The rewrites change the kind and nothing else. */
  lemma {:induction false} RewriteKind(draft: bool, c: Community, schema: string, community: Community, url: string)
    requires OfKind(draft, c, schema, community, url)
    ensures OfKind(true, c, DraftSchema(schema), community, url)
    ensures OfKind(false, c, RecordSchema(schema), community, url)
  {
    RewritesKeepBase(schema);
    KindsAreDisjoint(schema);
  }

  lemma {:induction false} FirstDraftKind(c: Community, schema: string)
    ensures OfKind(true, c, DraftSchema(schema), c, Base(schema))
  {
    RewritesKeepBase(schema);
    KindsAreDisjoint(schema);
  }

  /** Chains whose documents are unchanged or fewer. */
  ghost predicate Fewer(r: Repo, s: Repo) {
    && (forall t :: t in s.children ==> t in r.children)
    && (forall p :: p in s.parent ==> p in r.parent && s.parent[p] == r.parent[p])
    && (forall p :: p in s.deposits ==>
          p in r.deposits && s.deposits[p].community == r.deposits[p].community && s.deposits[p].schema == r.deposits[p].schema)
    && (forall p :: p in s.records ==> p in r.records && s.records[p] == r.records[p])
  }

  lemma {:induction false} FewerDocuments(r: Repo, s: Repo)
    requires SharedMeta(r) && Fewer(r, s)
    ensures SharedMeta(s)
  {
    forall t | t in s.children
      ensures exists community, url :: ChainMeta(s, t, community, url)
    {
      var community, url :| ChainMeta(r, t, community, url);
      forall p | p in s.parent && s.parent[p] == t
        ensures HasMeta(s, p, community, url)
      {
        assert HasMeta(r, p, community, url);
      }
      assert ChainMeta(s, t, community, url);
    }
  }

  lemma {:induction false} AddedDraftMeta(r: Repo, id: Pid, t: Pid, d: Deposit, q: Repo, community: Community, url: string)
    requires Inv(r) && id !in r.recs && SharedMeta(r)
    requires q == r || q == r.(recs := r.recs[t := Reserved], children := r.children[t := []])
    requires t in r.children ==> ChainMeta(r, t, community, url)
    requires OfKind(true, d.community, d.schema, community, url)
    ensures SharedMeta(AddDraft(q, t, id, d))
  {
    var s := AddDraft(q, t, id, d);
    forall u | u in s.children
      ensures exists c, b :: ChainMeta(s, u, c, b)
    {
      if u == t {
        AddedChainMeta(r, id, t, d, q, community, url);
      } else {
        var c, b :| ChainMeta(r, u, c, b);
        forall p | p in s.parent && s.parent[p] == u
          ensures HasMeta(s, p, c, b)
        {
          assert p != id && HasMeta(r, p, c, b);
        }
        assert ChainMeta(s, u, c, b);
      }
    }
  }

  lemma {:induction false} AddedChainMeta(r: Repo, id: Pid, t: Pid, d: Deposit, q: Repo, community: Community, url: string)
    requires Inv(r) && id !in r.recs
    requires q == r || q == r.(recs := r.recs[t := Reserved], children := r.children[t := []])
    requires t in r.children ==> ChainMeta(r, t, community, url)
    requires OfKind(true, d.community, d.schema, community, url)
    ensures ChainMeta(AddDraft(q, t, id, d), t, community, url)
  {
    var s := AddDraft(q, t, id, d);
    forall p | p in s.parent && s.parent[p] == t
      ensures HasMeta(s, p, community, url)
    {
      if p != id {
        assert HasMeta(r, p, community, url);
      }
    }
  }

  lemma {:induction false} NewDraftMeta(r: Repo, id: Pid, top: Pid, versionOf: Option<Pid>, community: Community, schema: string, known: bool)
    requires Inv(r) && SharedMeta(r) && Create(r, id, top, versionOf, community, schema, known).Accepted?
    ensures SharedMeta(Create(r, id, top, versionOf, community, schema, known).repo)
  {
    match versionOf {
      case None =>
        FirstDraftKind(community, schema);
        AddedDraftMeta(r, id, top, Deposit(community, DraftSchema(schema), Draft, false),
                       r.(recs := r.recs[top := Reserved], children := r.children[top := []]), community, Base(schema));
      case Some(v) =>
        var t := r.parent[v];
        assert t in r.children;
        var c, url :| ChainMeta(r, t, c, url);
        assert HasMeta(r, v, c, url);
        RewriteKind(false, community, r.records[v].schema, c, url);
        AddedDraftMeta(r, id, t, Deposit(community, DraftSchema(r.records[v].schema), Draft, false), r, c, url);
    }
  }

  lemma {:induction false} PublishedChainMeta(r: Repo, id: Pid, d: Deposit, t: Pid, community: Community, url: string)
    requires id in r.deposits && id in r.parent && ChainMeta(r, t, community, url)
    requires d.community == r.deposits[id].community && d.schema == r.deposits[id].schema
    ensures ChainMeta(PublishedRepo(r, id, d), t, community, url)
  {
    var s := PublishedRepo(r, id, d);
    forall p | p in s.parent && s.parent[p] == t
      ensures HasMeta(s, p, community, url)
    {
      assert HasMeta(r, p, community, url);
      if p == id {
        RewriteKind(true, d.community, d.schema, community, url);
      }
    }
  }

  lemma {:induction false} PublishedMeta(r: Repo, id: Pid, d: Deposit)
    requires SharedMeta(r) && id in r.deposits && id in r.parent
    requires d.community == r.deposits[id].community && d.schema == r.deposits[id].schema
    ensures SharedMeta(PublishedRepo(r, id, d))
  {
    forall t | t in r.children
      ensures exists community, url :: ChainMeta(PublishedRepo(r, id, d), t, community, url)
    {
      var community, url :| ChainMeta(r, t, community, url);
      PublishedChainMeta(r, id, d, t, community, url);
    }
  }

  lemma {:induction false} CommitMeta(r: Repo, id: Pid, d: Deposit, w: Workflow, luck: Luck)
    requires Inv(r) && SharedMeta(r) && id in r.deposits && d.published == r.deposits[id].published
    requires Commit(r, id, d, w, luck).Accepted?
    ensures SharedMeta(Commit(r, id, d, w, luck).repo)
  {
    CommitIs(r, id, d, w, luck);
    if WorkflowState(w, r.deposits[id].state, d.state).value == Published && !d.published {
      assert id in r.parent;
      PublishedMeta(r, id, d);
    } else {
      FewerDocuments(r, Commit(r, id, d, w, luck).repo);
    }
  }

  lemma {:induction false} DeleteDepositMeta(r: Repo, id: Pid)
    requires Inv(r) && SharedMeta(r) && DeleteDeposit(r, id).Accepted?
    ensures SharedMeta(DeleteDeposit(r, id).repo)
  {
    DeleteDepositIs(r, id);
    FewerDocuments(r, DeleteDeposit(r, id).repo);
  }

  lemma {:induction false} DeleteRecordMeta(r: Repo, id: Pid)
    requires Inv(r) && SharedMeta(r) && DeleteRecord(r, id).Accepted?
    ensures SharedMeta(DeleteRecord(r, id).repo)
  {
    DeleteRecordIs(r, id);
    FewerDocuments(r, DeleteRecord(r, id).repo);
  }

  lemma {:induction false} RequestKeepsMeta(r: Repo, q: Request)
    requires Inv(r) && SharedMeta(r)
    ensures SharedMeta(After(r, q))
  {
    if Answer(r, q).Accepted? {
      match q {
        case NewDeposit(id, top, versionOf, community, schema, known) =>
          NewDraftMeta(r, id, top, versionOf, community, schema, known);
        case CommitDeposit(id, community, schema, state, workflow, luck) =>
          CommitMeta(r, id, Deposit(community, schema, state, r.deposits[id].published), workflow, luck);
        case RemoveDeposit(id) => DeleteDepositMeta(r, id);
        case RemoveRecord(id) => DeleteRecordMeta(r, id);
        case CommitRecord(id, community, schema, luck) => ReindexKeeps(r, id);
        case IndexRecord(id) => ReindexKeeps(r, id);
      }
    }
  }

  lemma {:induction false} RunSharesMeta(qs: seq<Request>)
    ensures SharedMeta(Run(EMPTY, qs))
  {
    if qs != [] {
      RunSharesMeta(qs[..|qs| - 1]);
      RunKeeps(qs[..|qs| - 1]);
      RequestKeepsMeta(Run(EMPTY, qs[..|qs| - 1]), qs[|qs| - 1]);
    }
  }

  // ---------------------------------------------------------------------------------------
  // The index
  // ---------------------------------------------------------------------------------------

  /** After every run, a record is flagged as the last version exactly when every version after
      it in its chain is deleted or a draft; so a chain with a live version has exactly one
      flagged record. */
  lemma {:induction false} FlaggedIffLast(qs: seq<Request>, p: Pid)
    requires p in Run(EMPTY, qs).records
    ensures var r := Run(EMPTY, qs);
            var chain := ChainOf(r, p);
            && p in r.index && p in chain && (forall i :: 0 <= i < |chain| ==> chain[i] in r.recs)
            && (r.index[p] <==> forall i, j :: 0 <= i < j < |chain| && chain[i] == p ==> r.recs[chain[j]] != Registered)
  {
    var r := Run(EMPTY, qs);
    RunKeeps(qs);
    assert p in r.parent && VersionOk(r, p);
    var chain := r.children[r.parent[p]];
    assert ChainOk(r.recs, r.parent[p], chain) && NoRepeat(chain);
    LastLiveIffNoneAfter(r.recs, chain, p);
  }

  lemma {:induction false} LastLiveIffNoneAfter(recs: map<Pid, PidStatus>, chain: seq<Pid>, p: Pid)
    requires p in chain && p in recs && recs[p] == Registered && NoRepeat(chain)
    requires forall i :: 0 <= i < |chain| ==> chain[i] in recs
    ensures LastLive(recs, chain) == Some(p) <==>
            forall i, j :: 0 <= i < j < |chain| && chain[i] == p ==> recs[chain[j]] != Registered
  {
    var front, last := chain[..|chain| - 1], chain[|chain| - 1];
    assert chain == front + [last];
    if last == p {
      assert forall i :: 0 <= i < |front| ==> front[i] == chain[i];
    } else {
      assert p in front;
      var k :| 0 <= k < |front| && front[k] == p;
      assert chain[k] == p;
      if recs[last] == Registered {
        assert recs[chain[|chain| - 1]] == Registered;
      } else {
        LastLiveIffNoneAfter(recs, front, p);
        assert forall i :: 0 <= i < |front| ==> front[i] == chain[i];
      }
    }
  }

  /** No chain has two flagged records. */
  lemma {:induction false} OneFlagPerChain(qs: seq<Request>, p: Pid, q: Pid)
    requires var r := Run(EMPTY, qs);
             p in r.index && q in r.index && r.index[p] && r.index[q] && ChainOf(r, p) == ChainOf(r, q)
    ensures p == q
  {
    RunKeeps(qs);
  }

  /** After every run, a chain has at most one reserved version and it comes last, and a parent is
      reserved exactly when its chain is a single draft. */
  lemma {:induction false} OneDraftAndLast(qs: seq<Request>, t: Pid)
    requires t in Run(EMPTY, qs).children
    ensures var r := Run(EMPTY, qs);
            var chain := r.children[t];
            && t in r.recs
            && (forall i :: 0 <= i < |chain| ==> chain[i] in r.recs && (r.recs[chain[i]] == Reserved ==> i == |chain| - 1))
            && (r.recs[t] == Reserved <==> |chain| == 1 && r.recs[chain[0]] == Reserved)
  {
    var r := Run(EMPTY, qs);
    RunKeeps(qs);
    assert ChainOk(r.recs, t, r.children[t]);
  }
}
