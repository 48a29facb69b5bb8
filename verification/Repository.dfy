/** The requests on deposits and records, in place and step by step
    (b2share/modules/deposit/api.py, b2share/modules/records/api.py,
    b2share/modules/deposit/minters.py, b2share/modules/records/minters.py,
    b2share/modules/records/indexer.py). */
module Repository {
  import opened Options
  import opened SchemaUrls
  import opened VersionChains

  class Tables {
    var recs: map<Pid, PidStatus>
    var deps: map<Pid, bool>
    var children: map<Pid, seq<Pid>>
    var parent: map<Pid, Pid>
    var deposits: map<Pid, Deposit>
    var records: map<Pid, Record>
    var index: map<Pid, bool>

    function Snapshot(): Repo
      reads this
    {
      Repo(recs, deps, children, parent, deposits, records, index)
    }

    constructor ()
      ensures Snapshot() == EMPTY
    {
      recs, deps, children, parent, deposits, records, index := map[], map[], map[], map[], map[], map[], map[];
    }

    /** A request in its transaction: an error rolls everything back. */
    method Serve(q: Request) returns (why: Option<Reason>)
      modifies this
      ensures Snapshot() == After(old(Snapshot()), q)
      ensures why == match Answer(old(Snapshot()), q)
                     case Accepted(_) => None
                     case Refused(reason) => Some(reason)
    {
      var before := Snapshot();
      why := Dispatch(q);
      if why.Some? {
        recs, deps, children, parent := before.recs, before.deps, before.children, before.parent;
        deposits, records, index := before.deposits, before.records, before.index;
      }
    }

    /** A refused request may leave anything behind. */
    method Dispatch(q: Request) returns (why: Option<Reason>)
      modifies this
      ensures match Answer(old(Snapshot()), q)
              case Accepted(r) => why == None && Snapshot() == r
              case Refused(reason) => why == Some(reason)
    {
      match q {
        case NewDeposit(id, top, versionOf, community, schema, known) =>
          why := CreateDeposit(id, top, versionOf, community, schema, known);
        case CommitDeposit(id, community, schema, state, workflow, luck) =>
          if id !in deposits {
            why := Some(NoSuchDeposit);
          } else {
            why := CommitDeposit(id, Deposit(community, schema, state, deposits[id].published), workflow, luck);
          }
        case RemoveDeposit(id) =>
          why := DeleteDeposit(id);
        case RemoveRecord(id) =>
          why := DeleteRecord(id);
        case CommitRecord(id, community, schema, luck) =>
          why := UpdateRecord(id, community, schema, luck);
        case IndexRecord(id) =>
          IndexRecord(id);
          why := None;
      }
    }

    /** The flag is computed from the chain each time a record is indexed. */
    method IndexRecord(p: Pid)
      modifies this`index
      ensures Snapshot() == Reindex(old(Snapshot()), p)
    {
      if p in records {
        var chain := if p in parent && parent[p] in children then children[parent[p]] else [];
        index := index[p := LastLive(recs, chain) == Some(p)];
      }
    }

    method CreateDeposit(id: Pid, top: Pid, versionOf: Option<Pid>, community: Community, schema: string, known: bool)
        returns (why: Option<Reason>)
      modifies this
      ensures match Create(old(Snapshot()), id, top, versionOf, community, schema, known)
              case Accepted(r) => why == None && Snapshot() == r
              case Refused(reason) => why == Some(reason)
    {
      // the minter: a registered deposit PID and a reserved record PID
      if id in recs || id in deps {
        return Some(PidExists);
      }
      var chain, master: Pid, url: string;
      if versionOf.Some? {
        var v := versionOf.value;
        if v !in recs || recs[v] == Deleted {
          return Some(NoSuchVersion);
        }
        if v !in parent {
          return Some(NotVersioned);
        }
        master := parent[v];
        chain := if master in children then children[master] else [];
        var last := LastLive(recs, chain);
        if last.None? || last.value !in records {
          return Some(NoLastVersion);
        }
        if last.value != v {
          return Some(NotLastVersion);
        }
        if records[v].community != community {
          return Some(CommunityChanged);
        }
        if DraftOf(recs, chain).Some? {
          return Some(DraftExists);
        }
        url := records[v].schema;
      } else {
        if top in recs || top == id {
          return Some(PidExists);
        }
        master, chain, url := top, [], schema;
        recs := recs[top := Reserved];
      }
      if !known {
        return Some(InvalidDeposit);
      }
      recs, deps := recs[id := Reserved], deps[id := true];
      children, parent := children[master := chain + [id]], parent[id := master];
      deposits := deposits[id := Deposit(community, DraftSchema(url), Draft, false)];
      assert versionOf.None? ==> old(children)[top := []][top := [] + [id]] == children;
      return None;
    }

    method CommitDeposit(id: Pid, d: Deposit, w: Workflow, luck: Luck) returns (why: Option<Reason>)
      modifies this
      ensures match Commit(old(Snapshot()), id, d, w, luck)
              case Accepted(r) => why == None && Snapshot() == r
              case Refused(reason) => why == Some(reason)
      decreases !d.published
    {
      if id !in deposits {
        return Some(NoSuchDeposit);
      }
      var state := WorkflowState(w, deposits[id].state, d.state);
      if state.None? {
        return Some(TransitionRefused);
      }
      var e := d.(state := state.value);
      if e.state == Published && !e.published {
        var previous := None;
        if id in parent && parent[id] in recs && recs[parent[id]].Redirected? {
          previous := LastLive(recs, if parent[id] in children then children[parent[id]] else []);
        }
        why := Publish(id, e, w, luck);
        if why.Some? {
          return;
        }
        FinishPublication(id, previous);
      } else {
        why := Store(id, e, luck);
      }
    }

    /** Storing a deposit document. */
    method Store(id: Pid, d: Deposit, luck: Luck) returns (why: Option<Reason>)
      requires id in deposits
      modifies this`deposits
      ensures match Save(old(Snapshot()), id, d, luck)
              case Accepted(r) => why == None && Snapshot() == r
              case Refused(reason) => why == Some(reason)
    {
      if deposits[id].community != d.community || deposits[id].schema != d.schema {
        return Some(FieldAltered);
      }
      if !luck.valid {
        return Some(NotValid);
      }
      deposits := deposits[id := d];
      return None;
    }

    /** The parent is redirected to the last version, and the previous one is indexed again. */
    method FinishPublication(id: Pid, previous: Option<Pid>)
      modifies this`recs, this`index
      ensures Snapshot() == FinishPublishing(old(Snapshot()), id, previous)
    {
      var last := LastLive(recs, if id in parent && parent[id] in children then children[parent[id]] else []);
      if id in parent && last.Some? {
        recs := recs[parent[id] := Redirected(last.value)];
      }
      if previous.Some? {
        IndexRecord(previous.value);
      }
    }

    /** Publishing mints, creates the record, and commits the deposit again. */
    method Publish(id: Pid, d: Deposit, w: Workflow, luck: Luck) returns (why: Option<Reason>)
      requires !d.published
      modifies this
      ensures match StartPublishing(old(Snapshot()), id, d, luck)
              case Refused(reason) => why == Some(reason)
              case Accepted(r) =>
                match Commit(r, id, d.(published := true), w, luck)
                case Refused(reason) => why == Some(reason)
                case Accepted(s) => why == None && Snapshot() == s
      decreases true, 0
    {
      if id !in deps || !deps[id] || id !in recs || recs[id] != Reserved {
        return Some(PidUnusable);
      }
      if !luck.minted {
        return Some(MintFailed);
      }
      if !luck.valid {
        return Some(NotValid);
      }
      recs := recs[id := Registered];
      records := records[id := Record(d.community, RecordSchema(d.schema))];
      IndexRecord(id);
      why := CommitDeposit(id, d.(published := true), w, luck);
    }

    method DeleteDeposit(id: Pid) returns (why: Option<Reason>)
      modifies this
      ensures match VersionChains.DeleteDeposit(old(Snapshot()), id)
              case Accepted(r) => why == None && Snapshot() == r
              case Refused(reason) => why == Some(reason)
    {
      if id !in deposits || id !in parent {
        return Some(NoSuchDeposit);
      }
      var master := parent[id];
      if id in recs && recs[id] == Reserved {
        var chain := if master in children then children[master] else [];
        children, recs, parent := children[master := Without(chain, id)], recs - {id}, parent - {id};
      }
      if master in recs && recs[master] == Reserved {
        recs, children := recs - {master}, children - {master};
      }
      deps, deposits := deps[id := false], deposits - {id};
      return None;
    }

    method DeleteRecord(p: Pid) returns (why: Option<Reason>)
      modifies this
      ensures match VersionChains.DeleteRecord(old(Snapshot()), p)
              case Accepted(r) => why == None && Snapshot() == r
              case Refused(reason) => why == Some(reason)
    {
      if p !in records || p !in parent {
        return Some(NoSuchRecord);
      }
      var master := parent[p];
      if p in deps && deps[p] && p in deposits {
        var gone := DeleteDeposit(p);
      }
      recs, records, index := recs[p := Deleted], records - {p}, index - {p};
      var chain := if p in parent && parent[p] in children then children[parent[p]] else [];
      var last := LastLive(recs, chain);
      if last.Some? {
        IndexRecord(last.value);
      } else if DraftOf(recs, chain).None? {
        recs := recs[master := Deleted];
      }
      return None;
    }

    method UpdateRecord(p: Pid, community: Community, schema: string, luck: Luck) returns (why: Option<Reason>)
      modifies this
      ensures match VersionChains.UpdateRecord(old(Snapshot()), p, community, schema, luck)
              case Accepted(r) => why == None && Snapshot() == r
              case Refused(reason) => why == Some(reason)
    {
      if p !in records {
        return Some(NoSuchRecord);
      }
      if records[p] != Record(community, schema) {
        return Some(FieldAltered);
      }
      if !luck.valid {
        return Some(NotValid);
      }
      IndexRecord(p);
      return None;
    }
  }
}
