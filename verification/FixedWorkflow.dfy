/** Runs in which every community keeps its publication workflow
    (b2share/modules/deposit/api.py, b2share/modules/communities/workflows.py): there the commit
    that publishing makes is accepted whenever the commit that publishes is. */
module FixedWorkflow {
  import opened Options
  import opened VersionChains
  import opened ChainInvariants
  import opened ChainHistory

  /** Every deposit is committed under the workflow of its community. */
  ghost predicate Follows(q: Request, workflow: Community -> Workflow) {
    q.CommitDeposit? ==> q.workflow == workflow(q.community)
  }

  ghost predicate Fixed(qs: seq<Request>, workflow: Community -> Workflow) {
    qs != [] ==> Fixed(qs[..|qs| - 1], workflow) && Follows(qs[|qs| - 1], workflow)
  }

  /** Under direct publication nothing stays submitted. */
  ghost predicate NoneWaits(r: Repo, workflow: Community -> Workflow) {
    forall id :: id in r.deposits && workflow(r.deposits[id].community) == DirectPublish ==> r.deposits[id].state != Submitted
  }

  lemma {:induction false} CommitLeavesNoneWaiting(r: Repo, id: Pid, d: Deposit, workflow: Community -> Workflow, luck: Luck)
    requires Inv(r) && NoneWaits(r, workflow) && id in r.deposits && d.published == r.deposits[id].published
    requires Commit(r, id, d, workflow(d.community), luck).Accepted?
    ensures NoneWaits(Commit(r, id, d, workflow(d.community), luck).repo, workflow)
  {
    CommitIs(r, id, d, workflow(d.community), luck);
  }

  lemma {:induction false} DeleteLeavesNoneWaiting(r: Repo, id: Pid, workflow: Community -> Workflow)
    requires Inv(r) && NoneWaits(r, workflow)
    ensures DeleteDeposit(r, id).Accepted? ==> NoneWaits(DeleteDeposit(r, id).repo, workflow)
    ensures DeleteRecord(r, id).Accepted? ==> NoneWaits(DeleteRecord(r, id).repo, workflow)
  {
    if DeleteDeposit(r, id).Accepted? {
      DeleteDepositIs(r, id);
    }
    if DeleteRecord(r, id).Accepted? {
      DeleteRecordIs(r, id);
    }
  }

  lemma {:induction false} RequestLeavesNoneWaiting(r: Repo, q: Request, workflow: Community -> Workflow)
    requires Inv(r) && NoneWaits(r, workflow) && Follows(q, workflow)
    ensures NoneWaits(After(r, q), workflow)
  {
    if Answer(r, q).Accepted? {
      match q {
        case NewDeposit(id, top, versionOf, community, schema, known) =>
        case CommitDeposit(id, community, schema, state, _, luck) =>
          CommitLeavesNoneWaiting(r, id, Deposit(community, schema, state, r.deposits[id].published), workflow, luck);
        case RemoveDeposit(id) => DeleteLeavesNoneWaiting(r, id, workflow);
        case RemoveRecord(id) => DeleteLeavesNoneWaiting(r, id, workflow);
        case CommitRecord(id, community, schema, luck) =>
        case IndexRecord(id) =>
      }
    }
  }

  /** In every such run, no deposit of a community that publishes directly is ever stored as
      submitted: the case in which the nested commit is refused does not come up. */
  lemma {:induction false} RunLeavesNoneWaiting(qs: seq<Request>, workflow: Community -> Workflow)
    requires Fixed(qs, workflow)
    ensures NoneWaits(Run(EMPTY, qs), workflow)
  {
    if qs != [] {
      var front := qs[..|qs| - 1];
      RunLeavesNoneWaiting(front, workflow);
      RunKeeps(front);
      RequestLeavesNoneWaiting(Run(EMPTY, front), qs[|qs| - 1], workflow);
    }
  }

  /** When a commit is accepted in such a run: whatever the outer commit accepts, the nested one
      accepts too, so that only what the caller asks for and what minting and validation say
      matters. */
  lemma {:induction false} NestedCommitAccepts(qs: seq<Request>, workflow: Community -> Workflow, id: Pid, d: Deposit, luck: Luck)
    requires Fixed(qs, workflow) && id in Run(EMPTY, qs).deposits
    requires d.published == Run(EMPTY, qs).deposits[id].published
    ensures var r := Run(EMPTY, qs);
            var stored := r.deposits[id];
            var w := workflow(d.community);
            Commit(r, id, d, w, luck).Accepted? <==>
            && MayGo(w, stored.state, d.state)
            && d.community == stored.community && d.schema == stored.schema && luck.valid
            && (Gets(w, d.state) == Published && !d.published ==> luck.minted)
  {
    RunKeeps(qs);
    RunLeavesNoneWaiting(qs, workflow);
    CommitAcceptedIff(Run(EMPTY, qs), id, d, workflow(d.community), luck);
  }

  /** In particular, asking for another state is accepted if and only if the community's workflow
      allows the move, and the deposit then has the state the workflow gives it. */
  lemma {:induction false} MoveAcceptedIff(qs: seq<Request>, workflow: Community -> Workflow, id: Pid, asked: State)
    requires Fixed(qs, workflow) && id in Run(EMPTY, qs).deposits
    ensures var r := Run(EMPTY, qs);
            var stored := r.deposits[id];
            var w := workflow(stored.community);
            var answer := Commit(r, id, stored.(state := asked), w, Luck(true, true));
            && (answer.Accepted? <==> MayGo(w, stored.state, asked))
            && (answer.Accepted? ==>
                  id in answer.repo.deposits && answer.repo.deposits[id].state == Gets(w, asked)
                  && answer.repo.deposits[id].published == (Gets(w, asked) == Published))
  {
    var r := Run(EMPTY, qs);
    var d := r.deposits[id].(state := asked);
    var w := workflow(d.community);
    NestedCommitAccepts(qs, workflow, id, d, Luck(true, true));
    WorkflowIs(w, r.deposits[id].state, asked);
    RunKeeps(qs);
    assert VersionOk(r, id);
    if Commit(r, id, d, w, Luck(true, true)).Accepted? {
      CommitIs(r, id, d, w, Luck(true, true));
    }
  }
}
