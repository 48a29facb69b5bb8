/** Embargoes over time (b2share/modules/access/policies.py, b2share/modules/deposit/api.py,
    b2share/modules/records/indexer.py, b2share/modules/records/tasks.py).

    Committing a deposit closes it while its embargo lasts, indexing a record hides the keys of its
    files unless they are public at that moment, and a daily run opens closed records whose embargo
    is over. The index is only ever right about the moment it was written. */
module Embargo {
  import opened Options

  type Pid = int

  type Time = int

  datatype Meta = Meta(open: bool, embargo: Option<Time>)

  predicate UnderEmbargo(m: Meta, now: Time) {
    m.embargo.Some? && now < m.embargo.value
  }

  /** `allow_public_file_metadata`. */
  predicate FilesArePublic(m: Meta, now: Time) {
    m.open && !UnderEmbargo(m, now)
  }

  /** What the index has of a record: its metadata, whether with the keys of its files, and when
      the entry was made. */
  datatype Entry = Entry(meta: Meta, keys: bool, at: Time)

  function IndexEntry(m: Meta, now: Time): Entry {
    Entry(m, FilesArePublic(m, now), now)
  }

  datatype Site = Site(deposits: map<Pid, Meta>, records: map<Pid, Meta>, index: map<Pid, Entry>)

  datatype Request =
    | Commit(id: Pid, meta: Meta, publish: bool)
    | Update(id: Pid, meta: Meta)    // new metadata of a record
    | Reindex(id: Pid)
    | Expire                         // the daily run

  datatype Timed = Timed(request: Request, now: Time)

  /** Committing makes embargoed deposits private. */
  function Close(m: Meta, now: Time): Meta {
    if m.open && UnderEmbargo(m, now) then m.(open := false) else m
  }

  /** The daily run's query: closed in the index, with an embargo date before now. */
  predicate Hit(e: Entry, now: Time) {
    !e.meta.open && e.meta.embargo.Some? && e.meta.embargo.value < now
  }

  predicate IsHit(s: Site, id: Pid, now: Time) {
    id in s.index && id in s.records && Hit(s.index[id], now)
  }

  function Opened(s: Site, now: Time): Site {
    s.(records := map id | id in s.records :: if IsHit(s, id, now) then s.records[id].(open := true) else s.records[id],
       index := map id | id in s.index ::
                  if IsHit(s, id, now) then IndexEntry(s.records[id].(open := true), now) else s.index[id])
  }

  function After(s: Site, r: Request, now: Time): Site {
    match r
    case Commit(id, meta, publish) =>
      var m := Close(meta, now);
      var t := s.(deposits := s.deposits[id := m]);
      if publish && id !in s.records then t.(records := t.records[id := m], index := t.index[id := IndexEntry(m, now)]) else t
    case Update(id, meta) =>
      if id in s.records then s.(records := s.records[id := meta], index := s.index[id := IndexEntry(meta, now)]) else s
    case Reindex(id) =>
      if id in s.records then s.(index := s.index[id := IndexEntry(s.records[id], now)]) else s
    case Expire => Opened(s, now)
  }

  const EMPTY: Site := Site(map[], map[], map[])

  function Run(rs: seq<Timed>): Site {
    if rs == [] then EMPTY
    else After(Run(rs[..|rs| - 1]), rs[|rs| - 1].request, rs[|rs| - 1].now)
  }

  /** The clock does not go back, and it is `now` or earlier at the end. */
  ghost predicate Until(rs: seq<Timed>, now: Time) {
    rs != [] ==> rs[|rs| - 1].now <= now && Until(rs[..|rs| - 1], rs[|rs| - 1].now)
  }

  // ---------------------------------------------------------------------------------------
  // What every run keeps
  // ---------------------------------------------------------------------------------------

  /** Each record has an entry with its metadata, which was right when it was made. */
  ghost predicate EntryOk(s: Site, id: Pid, now: Time)
    requires id in s.records
  {
    && id in s.index && s.index[id].meta == s.records[id] && s.index[id].at <= now
    && (s.index[id].keys <==> FilesArePublic(s.records[id], s.index[id].at))
  }

  ghost predicate Inv(s: Site, now: Time) {
    (forall id :: id in s.records ==> EntryOk(s, id, now)) && (forall id :: id in s.index ==> id in s.records)
  }

  lemma {:induction false} RequestKeeps(s: Site, r: Request, before: Time, now: Time)
    requires Inv(s, before) && before <= now
    ensures Inv(After(s, r, now), now)
  {
    var t := After(s, r, now);
    forall id | id in t.records
      ensures EntryOk(t, id, now)
    {
      assert id in s.records ==> EntryOk(s, id, before);
    }
  }

  lemma {:induction false} InvLater(s: Site, before: Time, now: Time)
    requires Inv(s, before) && before <= now
    ensures Inv(s, now)
  {
    forall id | id in s.records
      ensures EntryOk(s, id, now)
    {
      assert EntryOk(s, id, before);
    }
  }

  lemma {:induction false} RunKeeps(rs: seq<Timed>, now: Time)
    requires Until(rs, now)
    ensures Inv(Run(rs), now)
  {
    if rs != [] {
      var front, last := rs[..|rs| - 1], rs[|rs| - 1];
      RunKeeps(front, last.now);
      RequestKeeps(Run(front), last.request, last.now, last.now);
      InvLater(Run(rs), last.now, now);
    }
  }

  /** At every moment of every run, an entry shows the keys of files only if the record is open and
      not under embargo at that moment. */
  lemma {:induction false} NoKeyTooEarly(rs: seq<Timed>, now: Time, id: Pid)
    requires Until(rs, now) && id in Run(rs).index && Run(rs).index[id].keys
    ensures id in Run(rs).records && FilesArePublic(Run(rs).records[id], now)
  {
    RunKeeps(rs, now);
    assert EntryOk(Run(rs), id, now);
  }

  // ---------------------------------------------------------------------------------------
  // When the daily run comes
  // ---------------------------------------------------------------------------------------

  /** The daily run opens exactly the records whose embargo was over strictly before it. */
  lemma {:induction false} ExpiryOpensIff(rs: seq<Timed>, now: Time, id: Pid)
    requires Until(rs, now) && id in Run(rs).records
    ensures var m := Run(rs).records[id];
            var t := After(Run(rs), Expire, now);
            && id in t.records && t.records[id].embargo == m.embargo && t.deposits == Run(rs).deposits
            && (t.records[id].open <==> m.open || (m.embargo.Some? && m.embargo.value < now))
  {
    RunKeeps(rs, now);
    assert EntryOk(Run(rs), id, now);
  }

  /** The daily run leaves keys hidden that are public now exactly where the record was open
      already and its entry had been made under its embargo: the query does not find it. */
  lemma {:induction false} StillHiddenIff(rs: seq<Timed>, now: Time, id: Pid)
    requires Until(rs, now) && id in Run(rs).records
    ensures var t := After(Run(rs), Expire, now);
            id in t.records && id in t.index && id in Run(rs).index
            && (FilesArePublic(t.records[id], now) && !t.index[id].keys <==>
                  && Run(rs).records[id].open
                  && UnderEmbargo(Run(rs).records[id], Run(rs).index[id].at) && !UnderEmbargo(Run(rs).records[id], now))
  {
    RunKeeps(rs, now);
    assert EntryOk(Run(rs), id, now);
  }

  /** Metadata updates of records are not closed as deposits are, and can bring that about. */
  lemma {:induction false} OpenUnderEmbargoStaysHidden(id: Pid, published: Time, updated: Time, end: Time, now: Time)
    requires published <= updated < end <= now
    ensures var rs := [Timed(Commit(id, Meta(false, None), true), published), Timed(Update(id, Meta(true, Some(end))), updated)];
            var t := After(Run(rs), Expire, now);
            && Until(rs, now) && id in t.records && id in t.index
            && FilesArePublic(t.records[id], now) && !t.index[id].keys
  {
    var first, second := Timed(Commit(id, Meta(false, None), true), published), Timed(Update(id, Meta(true, Some(end))), updated);
    assert [first, second][..1] == [first] && [first][..0] == [];
    assert Run([]) == EMPTY;
    assert Run([first]).records == map[id := Meta(false, None)];
    assert Run([first, second]).records[id] == Meta(true, Some(end));
    assert Run([first, second]).index[id] == Entry(Meta(true, Some(end)), false, updated);
    assert Until([first], updated);
  }

  // ---------------------------------------------------------------------------------------
  // What deposits and records say
  // ---------------------------------------------------------------------------------------

  /** What a commit stores, and publishes if the deposit has no record yet: the embargo asked for,
      and open access if it was asked for and no embargo stands against it now. */
  lemma {:induction false} CommitStores(s: Site, id: Pid, meta: Meta, publish: bool, now: Time)
    ensures var t := After(s, Commit(id, meta, publish), now);
            var m := Meta(meta.open && !UnderEmbargo(meta, now), meta.embargo);
            && t.deposits == s.deposits[id := m]
            && (publish && id !in s.records ==>
                  t.records == s.records[id := m] && t.index == s.index[id := IndexEntry(m, now)])
            && (!publish || id in s.records ==> t.records == s.records && t.index == s.index)
  {
  }

  /** The `k`-th request gives the record its metadata: its publication, or an update. */
  predicate Writes(rs: seq<Timed>, k: nat, id: Pid)
    requires k < |rs|
  {
    match rs[k].request
    case Commit(c, _, publish) => c == id && publish && id !in Run(rs[..k]).records
    case Update(u, _) => u == id && id in Run(rs[..k]).records
    case _ => false
  }

  /** The open access it gives: a publication under embargo gives none. */
  predicate WritesOpen(t: Timed)
    requires t.request.Commit? || t.request.Update?
  {
    t.request.meta.open && (t.request.Commit? ==> !UnderEmbargo(t.request.meta, t.now))
  }

  /** A daily run after the `k`-th request came when an embargo that ends at `end` was over. */
  ghost predicate ExpiredAfter(rs: seq<Timed>, k: nat, end: Time) {
    exists j :: k < j < |rs| && rs[j].request.Expire? && end < rs[j].now
  }

  /** In every run a record has the embargo that its publication or its last update gave it, and it
      is open if and only if that made it open or a daily run has come since, after its embargo. */
  lemma {:induction false} RecordIs(rs: seq<Timed>, now: Time, id: Pid) returns (k: nat)
    requires Until(rs, now) && id in Run(rs).records
    ensures k < |rs| && Writes(rs, k, id) && forall j :: k < j < |rs| ==> !Writes(rs, j, id)
    ensures var m := Run(rs).records[id];
            var given := rs[k].request.meta;
            && m.embargo == given.embargo
            && (m.open <==> WritesOpen(rs[k]) || (given.embargo.Some? && ExpiredAfter(rs, k, given.embargo.value)))
  {
    var n := |rs| - 1;
    var front, last := rs[..n], rs[n];
    if Writes(rs, n, id) {
      k := n;
    } else {
      LastRequestKeeps(rs, now, id);
      k := RecordIs(front, last.now, id);
      forall j | k <= j < n
        ensures Writes(rs, j, id) <==> Writes(front, j, id)
      {
        assert front[..j] == rs[..j];
      }
      ExpiredByOneMore(rs, k);
    }
  }

  lemma {:induction false} LastRequestKeeps(rs: seq<Timed>, now: Time, id: Pid)
    requires rs != [] && Until(rs, now) && id in Run(rs).records && !Writes(rs, |rs| - 1, id)
    ensures var s, last := Run(rs[..|rs| - 1]), rs[|rs| - 1];
            && id in s.records && Run(rs).records[id].embargo == s.records[id].embargo
            && (Run(rs).records[id].open <==>
                  s.records[id].open || (last.request.Expire? && s.records[id].embargo.Some? && s.records[id].embargo.value < last.now))
  {
    var n := |rs| - 1;
    RunKeeps(rs[..n], rs[n].now);
    assert id in Run(rs[..n]).records;
    assert EntryOk(Run(rs[..n]), id, rs[n].now);
  }

  lemma {:induction false} ExpiredByOneMore(rs: seq<Timed>, k: nat)
    requires k < |rs| - 1
    ensures forall end :: ExpiredAfter(rs, k, end) <==>
              ExpiredAfter(rs[..|rs| - 1], k, end) || (rs[|rs| - 1].request.Expire? && end < rs[|rs| - 1].now)
  {
    var front := rs[..|rs| - 1];
    forall end
      ensures ExpiredAfter(rs, k, end) <==>
                ExpiredAfter(front, k, end) || (rs[|rs| - 1].request.Expire? && end < rs[|rs| - 1].now)
    {
      if ExpiredAfter(rs, k, end) {
        var j :| k < j < |rs| && rs[j].request.Expire? && end < rs[j].now;
        assert j < |rs| - 1 ==> front[j] == rs[j];
      }
      if ExpiredAfter(front, k, end) {
        var j :| k < j < |front| && front[j].request.Expire? && end < front[j].now;
        assert rs[j] == front[j];
      }
    }
  }

  /** The `k`-th request makes an index entry of the record: it writes it, indexes it, or is a daily
      run that finds it closed and its embargo over. */
  predicate Indexes(rs: seq<Timed>, k: nat, id: Pid)
    requires k < |rs|
  {
    || Writes(rs, k, id)
    || (id in Run(rs[..k]).records
        && match rs[k].request
           case Reindex(x) => x == id
           case Expire =>
             var m := Run(rs[..k]).records[id];
             !m.open && m.embargo.Some? && m.embargo.value < rs[k].now
           case _ => false)
  }

  ghost predicate EntryMadeAt(s: Site, id: Pid, at: Time)
    requires id in s.records
  {
    id in s.index && s.index[id] == Entry(s.records[id], s.records[id].open && !UnderEmbargo(s.records[id], at), at)
  }

  lemma {:induction false} EntryMade(rs: seq<Timed>, id: Pid)
    requires rs != [] && Until(rs, rs[|rs| - 1].now) && id in Run(rs).records && Indexes(rs, |rs| - 1, id)
    ensures EntryMadeAt(Run(rs), id, rs[|rs| - 1].now)
  {
    var front, last := rs[..|rs| - 1], rs[|rs| - 1];
    RunKeeps(front, last.now);
    assert id in Run(front).records ==> EntryOk(Run(front), id, last.now);
  }

  lemma {:induction false} EntryStays(rs: seq<Timed>, id: Pid)
    requires rs != [] && Until(rs, rs[|rs| - 1].now) && id in Run(rs).records && !Indexes(rs, |rs| - 1, id)
    ensures var s := Run(rs[..|rs| - 1]);
            && id in s.records && Run(rs).records[id] == s.records[id]
            && id in s.index && id in Run(rs).index && Run(rs).index[id] == s.index[id]
  {
    var front, last := rs[..|rs| - 1], rs[|rs| - 1];
    RunKeeps(front, last.now);
    assert id in Run(front).records;
    assert EntryOk(Run(front), id, last.now);
  }

  lemma {:induction false} IndexesInFront(rs: seq<Timed>, n: nat, j: nat, id: Pid)
    requires j < n <= |rs|
    ensures Indexes(rs, j, id) <==> Indexes(rs[..n], j, id)
  {
    assert rs[..n][..j] == rs[..j];
  }

  /** In every run the entry of a record was made by the last request that makes one, and shows its
      keys exactly if its files were public then. */
  lemma {:induction false} EntryIs(rs: seq<Timed>, now: Time, id: Pid) returns (k: nat)
    requires Until(rs, now) && id in Run(rs).records
    ensures k < |rs| && Indexes(rs, k, id) && forall j :: k < j < |rs| ==> !Indexes(rs, j, id)
    ensures EntryMadeAt(Run(rs), id, rs[k].now)
  {
    var n := |rs| - 1;
    if Indexes(rs, n, id) {
      k := n;
      EntryMade(rs, id);
    } else {
      EntryStays(rs, id);
      k := EntryIs(rs[..n], rs[n].now, id);
      forall j | k <= j < n
        ensures Indexes(rs, j, id) <==> Indexes(rs[..n], j, id)
      {
        IndexesInFront(rs, n, j, id);
      }
    }
  }

  /** In every run a deposit is what its last commit stored. */
  lemma {:induction false} DepositIs(rs: seq<Timed>, id: Pid) returns (k: nat)
    requires id in Run(rs).deposits
    ensures k < |rs| && rs[k].request.Commit? && rs[k].request.id == id
    ensures forall j :: k < j < |rs| && rs[j].request.Commit? ==> rs[j].request.id != id
    ensures Run(rs).deposits[id] == Meta(WritesOpen(rs[k]), rs[k].request.meta.embargo)
  {
    var n := |rs| - 1;
    if rs[n].request.Commit? && rs[n].request.id == id {
      k := n;
    } else {
      k := DepositIs(rs[..n], id);
    }
  }

  // ---------------------------------------------------------------------------------------
  // What is open under its embargo
  // ---------------------------------------------------------------------------------------

  /** In every run, no deposit is ever open under its embargo: commits close them, and nothing else
      changes them. */
  lemma {:induction false} DepositsAreClosed(rs: seq<Timed>, now: Time, id: Pid)
    requires Until(rs, now) && id in Run(rs).deposits && Run(rs).deposits[id].open
    ensures !UnderEmbargo(Run(rs).deposits[id], now)
  {
    var front, last := rs[..|rs| - 1], rs[|rs| - 1];
    if id in Run(front).deposits && Run(front).deposits[id].open {
      DepositsAreClosed(front, last.now, id);
    }
  }

  /** Nothing stored is open under embargo, and no open record was when it was indexed. */
  ghost predicate NothingOpenEarly(s: Site, now: Time) {
    && (forall id :: id in s.deposits && s.deposits[id].open ==> !UnderEmbargo(s.deposits[id], now))
    && (forall id :: id in s.records && s.records[id].open ==> !UnderEmbargo(s.records[id], now))
    && (forall id :: id in s.records && id in s.index && s.records[id].open ==> !UnderEmbargo(s.records[id], s.index[id].at))
  }

  /** An update of a record that asks for open access under its embargo. */
  predicate OpensEarly(s: Site, r: Request, now: Time) {
    r.Update? && r.id in s.records && r.meta.open && UnderEmbargo(r.meta, now)
  }

  /** Such an update is the only request that leaves anything open under its embargo. */
  lemma {:induction false} NothingOpenEarlyIff(s: Site, r: Request, before: Time, now: Time)
    requires Inv(s, before) && before <= now && NothingOpenEarly(s, before)
    ensures NothingOpenEarly(After(s, r, now), now) <==> !OpensEarly(s, r, now)
  {
    var t := After(s, r, now);
    if OpensEarly(s, r, now) {
      assert t.records[r.id] == r.meta;
    } else {
      forall id | id in t.records
        ensures t.records[id].open ==> !UnderEmbargo(t.records[id], now)
        ensures id in t.index && t.records[id].open ==> !UnderEmbargo(t.records[id], t.index[id].at)
      {
        assert id in s.records ==> EntryOk(s, id, before);
      }
    }
  }

  /** After every request of the run, nothing is open under its embargo. */
  ghost predicate NeverOpenEarly(rs: seq<Timed>) {
    rs != [] ==> NeverOpenEarly(rs[..|rs| - 1]) && NothingOpenEarly(Run(rs), rs[|rs| - 1].now)
  }

  /** No request of the run asks for open access under an embargo for a record. */
  ghost predicate NoneOpensEarly(rs: seq<Timed>) {
    rs != [] ==>
      NoneOpensEarly(rs[..|rs| - 1]) && !OpensEarly(Run(rs[..|rs| - 1]), rs[|rs| - 1].request, rs[|rs| - 1].now)
  }

  lemma {:induction false} NothingOpenLater(s: Site, before: Time, now: Time)
    requires NothingOpenEarly(s, before) && before <= now
    ensures NothingOpenEarly(s, now)
  {
  }

  /** A run never has anything open under its embargo if and only if none of its requests asks for
      that, each checked against the site before it. */
  lemma {:induction false} NeverOpenEarlyIff(rs: seq<Timed>, now: Time)
    requires Until(rs, now)
    ensures NeverOpenEarly(rs) <==> NoneOpensEarly(rs)
    ensures NeverOpenEarly(rs) ==> NothingOpenEarly(Run(rs), now)
  {
    if rs != [] {
      var front, last := rs[..|rs| - 1], rs[|rs| - 1];
      NeverOpenEarlyIff(front, last.now);
      RunKeeps(front, last.now);
      if NeverOpenEarly(front) {
        NothingOpenEarlyIff(Run(front), last.request, last.now, last.now);
      }
      if NeverOpenEarly(rs) {
        NothingOpenLater(Run(rs), last.now, now);
      }
    }
  }

  /** In such runs no deposit and no record is ever open under its embargo, and no open record was
      when it was indexed. */
  lemma {:induction false} OpenMeansOver(rs: seq<Timed>, now: Time)
    requires Until(rs, now) && NoneOpensEarly(rs)
    ensures NothingOpenEarly(Run(rs), now)
  {
    NeverOpenEarlyIff(rs, now);
  }

  /** The daily run leaves an entry that shows keys exactly if its record is open, unless the record
      was open already and its entry had been made under its embargo. */
  lemma {:induction false} ShownIffOpenIff(rs: seq<Timed>, now: Time, id: Pid)
    requires Until(rs, now) && id in Run(rs).records
    ensures var t := After(Run(rs), Expire, now);
            id in t.records && id in t.index && id in Run(rs).index
            && ((t.index[id].keys <==> t.records[id].open) <==>
                  !(Run(rs).records[id].open && UnderEmbargo(Run(rs).records[id], Run(rs).index[id].at)))
  {
    RunKeeps(rs, now);
    assert EntryOk(Run(rs), id, now);
  }

  /** In a run in which no request asks for open access under an embargo, the daily run leaves an
      index that shows exactly the keys of open records. */
  lemma {:induction false} ShownIffOpen(rs: seq<Timed>, now: Time, id: Pid)
    requires Until(rs, now) && NoneOpensEarly(rs) && id in Run(rs).records
    ensures var t := After(Run(rs), Expire, now);
            id in t.records && id in t.index && (t.index[id].keys <==> t.records[id].open)
  {
    OpenMeansOver(rs, now);
    ShownIffOpenIff(rs, now, id);
  }

  // ---------------------------------------------------------------------------------------
  // The daily run in place
  // ---------------------------------------------------------------------------------------

  /** Some of the records, opened and indexed. */
  ghost function OpenedSome(s: Site, ids: seq<Pid>, now: Time): Site {
    s.(records := map id | id in s.records :: if id in ids then s.records[id].(open := true) else s.records[id],
       index := map id | id in s.index ::
                  if id in ids && id in s.records then IndexEntry(s.records[id].(open := true), now) else s.index[id])
  }

  lemma {:induction false} OpenedOneMore(s: Site, ids: seq<Pid>, id: Pid, now: Time)
    requires id in s.records && id in s.index
    ensures var m := s.records[id].(open := true);
            var t := OpenedSome(s, ids, now);
            && id in t.records && t.records[id].(open := true) == m
            && OpenedSome(s, ids + [id], now) == t.(records := t.records[id := m], index := t.index[id := IndexEntry(m, now)])
  {
    var m, t, u := s.records[id].(open := true), OpenedSome(s, ids, now), OpenedSome(s, ids + [id], now);
    assert forall x :: x in ids + [id] <==> x in ids || x == id;
    assert u.records == t.records[id := m];
    assert u.index == t.index[id := IndexEntry(m, now)];
  }

  lemma {:induction false} OpenedAll(s: Site, ids: seq<Pid>, now: Time)
    requires forall id :: id in ids <==> IsHit(s, id, now)
    ensures OpenedSome(s, ids, now) == Opened(s, now)
  {
    assert OpenedSome(s, ids, now).records == Opened(s, now).records;
    assert OpenedSome(s, ids, now).index == Opened(s, now).index;
  }

  class Publications {
    var deposits: map<Pid, Meta>
    var records: map<Pid, Meta>
    var index: map<Pid, Entry>

    function Snapshot(): Site
      reads this
    {
      Site(deposits, records, index)
    }

    /** Opening and committing the records, which indexes each of them. */
    method OpenRecords(hits: seq<Pid>, now: Time)
      requires forall id :: id in hits <==> IsHit(Snapshot(), id, now)
      modifies this
      ensures Snapshot() == Opened(old(Snapshot()), now)
    {
      ghost var s := Snapshot();
      assert OpenedSome(s, hits[..0], now).records == s.records && OpenedSome(s, hits[..0], now).index == s.index;
      for i := 0 to |hits|
        invariant Snapshot() == OpenedSome(s, hits[..i], now)
      {
        var id := hits[i];
        assert id in hits && IsHit(s, id, now);
        assert hits[..i + 1] == hits[..i] + [id];
        OpenedOneMore(s, hits[..i], id, now);
        records := records[id := records[id].(open := true)];
        index := index[id := IndexEntry(records[id], now)];
      }
      assert hits[..|hits|] == hits;
      OpenedAll(s, hits, now);
    }

    /** Indexing the records in bulk. */
    method IndexRecords(hits: seq<Pid>, now: Time)
      requires forall id :: id in hits ==> id in records && id in index && index[id] == IndexEntry(records[id], now)
      modifies this`index
      ensures index == old(index)
    {
      for i := 0 to |hits|
        invariant index == old(index) && records == old(records)
      {
        var id := hits[i];
        assert id in hits && id in old(records) && old(index)[id] == IndexEntry(old(records)[id], now);
        index := index[id := IndexEntry(records[id], now)];
      }
    }

    /** `update_expired_embargoes`, for the hits in the order the search gives them. */
    method UpdateExpiredEmbargoes(hits: seq<Pid>, now: Time)
      requires forall id :: id in hits <==> IsHit(Snapshot(), id, now)
      modifies this
      ensures Snapshot() == After(old(Snapshot()), Expire, now)
    {
      ghost var s := Snapshot();
      OpenRecords(hits, now);
      forall id | id in hits
        ensures id in records && id in index && index[id] == IndexEntry(records[id], now)
      {
        assert IsHit(s, id, now);
      }
      IndexRecords(hits, now);
    }
  }
}
