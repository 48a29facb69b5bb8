/** Listing the external PIDs of a bucket, and committing a list in place
    (b2share/modules/deposit/api.py). */
module ExternalPidList {
  import opened Options
  import opened ExternalPids
  import opened KeyOrder

  // ---------------------------------------------------------------------------------------
  // Sorting by key
  // ---------------------------------------------------------------------------------------

  /** Strictly increasing keys. */
  ghost predicate Sorted(es: seq<ExternalPid>) {
    |es| <= 1 || (Less(es[0].key, es[1].key) && Sorted(es[1..]))
  }

  lemma {:induction false} FirstIsLeast(es: seq<ExternalPid>, i: nat)
    requires Sorted(es) && 0 < i < |es|
    ensures Less(es[0].key, es[i].key)
  {
    if i > 1 {
      FirstIsLeast(es[1..], i - 1);
      LessIsTransitive(es[0].key, es[1].key, es[i].key);
    }
  }

  lemma FirstIsOnce(es: seq<ExternalPid>)
    requires Sorted(es) && es != []
    ensures forall e :: e in es[1..] ==> Less(es[0].key, e.key) && e != es[0]
  {
    forall e | e in es[1..]
      ensures Less(es[0].key, e.key) && e != es[0]
    {
      var i :| 0 <= i < |es[1..]| && es[1..][i] == e;
      FirstIsLeast(es, i + 1);
      LessIsStrict(e.key);
    }
  }

  /** A sorted list is determined by its elements. */
  lemma {:induction false} SortedIsUnique(a: seq<ExternalPid>, b: seq<ExternalPid>)
    requires Sorted(a) && Sorted(b) && forall e :: e in a <==> e in b
    ensures a == b
  {
    if a != [] {
      assert a[0] in a;
      assert b != [];
      FirstIsOnce(a);
      FirstIsOnce(b);
      var x, y := a[0], b[0];
      assert a == [x] + a[1..] && b == [y] + b[1..];
      if x != y {
        assert x in b[1..] && y in a[1..] by {
          assert y in b;
        }
        LessIsTransitive(x.key, y.key, x.key);
        LessIsStrict(x.key);
      }
      forall e
        ensures e in a[1..] <==> e in b[1..]
      {
        assert e in a <==> e == x || e in a[1..];
        assert e in b <==> e == x || e in b[1..];
      }
      SortedIsUnique(a[1..], b[1..]);
    }
  }

  function Insert(e: ExternalPid, es: seq<ExternalPid>): seq<ExternalPid> {
    if es == [] || Less(e.key, es[0].key) then [e] + es else [es[0]] + Insert(e, es[1..])
  }

  function SortByKey(es: seq<ExternalPid>): seq<ExternalPid> {
    if es == [] then [] else Insert(es[|es| - 1], SortByKey(es[..|es| - 1]))
  }

  lemma {:induction false} InsertSorts(e: ExternalPid, es: seq<ExternalPid>)
    requires Sorted(es) && forall x :: x in es ==> x.key != e.key
    ensures Sorted(Insert(e, es))
    ensures forall x :: x in Insert(e, es) <==> x == e || x in es
  {
    if es != [] {
      var x, rest := es[0], es[1..];
      assert x in es;
      LessIsTotal(e.key, x.key);
      if Less(e.key, x.key) {
        assert ([e] + es)[1..] == es;
      } else {
        assert es == [x] + rest;
        InsertSorts(e, rest);
        var tail := Insert(e, rest);
        assert ([x] + tail)[1..] == tail;
        assert tail[0] in tail;
        FirstIsOnce(es);
      }
    }
  }

  lemma {:induction false} SortByKeySorts(es: seq<ExternalPid>)
    requires DistinctKeys(es)
    ensures Sorted(SortByKey(es))
    ensures forall e :: e in SortByKey(es) <==> e in es
  {
    if es != [] {
      var front, last := es[..|es| - 1], es[|es| - 1];
      SortByKeySorts(front);
      assert es == front + [last];
      forall x | x in SortByKey(front)
        ensures x.key != last.key
      {
        var i :| 0 <= i < |front| && front[i] == x;
        assert front[i].key == x.key;
      }
      InsertSorts(last, SortByKey(front));
    }
  }

  // ---------------------------------------------------------------------------------------
  // The newest external version of each key
  // ---------------------------------------------------------------------------------------

  predicate Newest(bucket: seq<Version>, i: nat)
    requires i < |bucket|
  {
    forall j :: i < j < |bucket| ==> bucket[j].key != bucket[i].key
  }

  function ExternalHeads(s: Store, n: nat): seq<ExternalPid>
    requires n <= |s.bucket|
  {
    if n == 0 then []
    else
      var v := s.bucket[n - 1];
      ExternalHeads(s, n - 1) +
      if Newest(s.bucket, n - 1) && IsExternal(s, v) then [ExternalPid(v.key, s.files[v.file.value].uri)] else []
  }

  /** `generate_external_pids` on the files of a record. */
  function GenerateExternalPids(s: Store): seq<ExternalPid> {
    SortByKey(ExternalHeads(s, |s.bucket|))
  }

  lemma {:induction false} HeadOfNewest(bucket: seq<Version>, i: nat)
    requires i < |bucket| && Newest(bucket, i)
    ensures Head(bucket, bucket[i].key) == bucket[i].file
  {
    if i < |bucket| - 1 {
      HeadOfNewest(bucket[..|bucket| - 1], i);
    }
  }

  lemma {:induction false} NewestOfHead(bucket: seq<Version>, key: string) returns (i: nat)
    requires Head(bucket, key).Some?
    ensures i < |bucket| && bucket[i] == Version(key, Head(bucket, key)) && Newest(bucket, i)
  {
    i := |bucket| - 1;
    if bucket[i].key != key {
      i := NewestOfHead(bucket[..i], key);
    }
  }

  lemma {:induction false} ExternalHeadsAre(s: Store, n: nat, e: ExternalPid)
    requires n <= |s.bucket|
    ensures e in ExternalHeads(s, n) <==>
            exists i :: 0 <= i < n && Newest(s.bucket, i) && IsExternal(s, s.bucket[i])
                        && e == ExternalPid(s.bucket[i].key, s.files[s.bucket[i].file.value].uri)
  {
    if n > 0 {
      ExternalHeadsAre(s, n - 1, e);
    }
  }

  lemma {:induction false} ExternalHeadsDistinct(s: Store, n: nat)
    requires n <= |s.bucket|
    ensures DistinctKeys(ExternalHeads(s, n))
  {
    if n > 0 {
      ExternalHeadsDistinct(s, n - 1);
      var front, v := ExternalHeads(s, n - 1), s.bucket[n - 1];
      if Newest(s.bucket, n - 1) && IsExternal(s, v) {
        var e := ExternalPid(v.key, s.files[v.file.value].uri);
        assert (front + [e])[..|front|] == front;
        forall k | 0 <= k < |front|
          ensures front[k].key != v.key
        {
          ExternalHeadsAre(s, n - 1, front[k]);
        }
      } else {
        assert front + [] == front;
      }
    }
  }

  /** The generated list has exactly the external files that are newest under their key. */
  lemma GeneratedIsExact(s: Store, key: string, uri: string)
    ensures ExternalPid(key, uri) in ExternalHeads(s, |s.bucket|) <==> HeadIs(s, key, uri)
  {
    var e := ExternalPid(key, uri);
    ExternalHeadsAre(s, |s.bucket|, e);
    if e in ExternalHeads(s, |s.bucket|) {
      var i :| 0 <= i < |s.bucket| && Newest(s.bucket, i) && IsExternal(s, s.bucket[i])
               && e == ExternalPid(s.bucket[i].key, s.files[s.bucket[i].file.value].uri);
      HeadOfNewest(s.bucket, i);
    }
    if HeadIs(s, key, uri) {
      var i := NewestOfHead(s.bucket, key);
    }
  }

  /** After a committed list, the generated list is the committed one, normalised and sorted. */
  lemma GeneratedIsCommitted(s: Store, versions: seq<Version>, pids: seq<ExternalPid>)
    requires Valid(s) && Covers(versions, s.bucket) && Reconcile(s, versions, pids).Done?
    ensures GenerateExternalPids(Reconcile(s, versions, pids).store) == SortByKey(Normalised(pids))
  {
    var u := Reconcile(s, versions, pids).store;
    HeadsAreTheList(s, versions, pids);
    var heads, normal := ExternalHeads(u, |u.bucket|), Normalised(pids);
    ExternalHeadsDistinct(u, |u.bucket|);
    NormalisedDistinct(pids);
    SortByKeySorts(heads);
    SortByKeySorts(normal);
    forall e
      ensures e in SortByKey(heads) <==> e in SortByKey(normal)
    {
      GeneratedIsExact(u, e.key, e.pid);
      assert e == ExternalPid(e.key, e.pid);
      assert HeadIs(u, e.key, e.pid) <==> Asks(pids, e.key, e.pid);
      if Asks(pids, e.key, e.pid) {
        var i :| 0 <= i < |pids| && pids[i].key == e.key && Normal(pids[i].pid) == e.pid;
        assert normal[i] == e;
      }
      if e in normal {
        var i :| 0 <= i < |normal| && normal[i] == e;
        assert pids[i].key == e.key;
      }
    }
    SortedIsUnique(SortByKey(heads), SortByKey(normal));
  }

  // ---------------------------------------------------------------------------------------
  // The operations in place
  // ---------------------------------------------------------------------------------------

  /** The file table, shared by all buckets, and the bucket of one deposit. */
  class FileStore {
    var files: map<FileId, File>
    var next: FileId
    var bucket: seq<Version>

    ghost function Snapshot(): Store
      reads this
    {
      Store(files, next, bucket)
    }

    constructor (store: Store)
      ensures Snapshot() == store
    {
      files, next, bucket := store.files, store.next, store.bucket;
    }

    method FindByUri(uri: string) returns (f: Option<FileId>)
      ensures f.None? <==> !HasUri(files, uri)
      ensures f.Some? ==> f.value in files && files[f.value].uri == uri
    {
      if h :| h in files && files[h].uri == uri {
        return Some(h);
      }
      return None;
    }

    /** The loop over the versions of the bucket; false on an integrity error. */
    method ReleaseAll(versions: seq<Version>, wanted: map<string, string>) returns (ok: bool)
      requires Valid(Snapshot())
      modifies this
      ensures ok <==> Release(old(Snapshot()), versions, wanted).Done?
      ensures ok ==> Release(old(Snapshot()), versions, wanted) == Done(Snapshot()) && Valid(Snapshot())
      ensures !ok ==> Release(old(Snapshot()), versions, wanted) == UriTaken
    {
      ghost var s := Snapshot();
      for i := 0 to |versions|
        invariant Release(s, versions[..i], wanted) == Done(Snapshot())
      {
        var v := versions[i];
        assert versions[..i + 1][..i] == versions[..i];
        ReleaseKeeps(s, versions[..i], wanted);
        if v.file.Some? && v.file.value in files && files[v.file.value].external {
          var f := v.file.value;
          if v.key !in wanted {
            if Head(bucket, v.key).Some? {
              bucket := bucket + [Version(v.key, None)];
            }
          } else if files[f].uri != wanted[v.key] {
            var taken := FindByUri(wanted[v.key]);
            if taken.Some? {
              ReleaseStaysFailed(s, versions, wanted, i + 1);
              return false;
            }
            files := files[f := files[f].(uri := wanted[v.key])];
          }
        }
      }
      assert versions[..|versions|] == versions;
      ReleaseKeeps(s, versions, wanted);
      return true;
    }

    /** The body of the loop of `create_b2safe_file`. */
    method AttachPid(e: ExternalPid) returns (r: Result)
      requires Valid(Snapshot())
      modifies this
      ensures r == AttachOne(old(Snapshot()), e)
      ensures Snapshot() == if r.Done? then r.store else old(Snapshot())
    {
      if Slash(e.key) {
        return SlashKey;
      }
      var uri := Normal(e.pid);
      var found := FindByUri(uri);
      if found.None? {
        found := Some(next);
        HeadIsInBucket(bucket, e.key);
        files, next := files[next := File(uri, true)], next + 1;
      } else if !files[found.value].external {
        return NotExternal;
      }
      if Head(bucket, e.key) != found {
        bucket := bucket + [Version(e.key, found)];
      }
      return Done(Store(files, next, bucket));
    }

    /** `create_b2safe_file`, after its check of the keys. */
    method AttachAll(pids: seq<ExternalPid>) returns (r: Result)
      requires Valid(Snapshot())
      modifies this
      ensures r == Attach(old(Snapshot()), pids)
      ensures r.Done? ==> r.store == Snapshot() && Valid(Snapshot())
    {
      ghost var s := Snapshot();
      r := Done(Store(files, next, bucket));
      for i := 0 to |pids|
        invariant r == Done(Snapshot()) == Attach(s, pids[..i])
      {
        assert pids[..i + 1][..i] == pids[..i];
        AttachKeeps(s, pids[..i]);
        r := AttachPid(pids[i]);
        if !r.Done? {
          AttachStaysFailed(s, pids, i + 1);
          return;
        }
      }
      assert pids[..|pids|] == pids;
      AttachKeeps(s, pids);
    }

    /** The part of `Deposit.commit` about `external_pids`. On an error the request's transaction
        is rolled back. */
    method CommitExternalPids(versions: seq<Version>, pids: seq<ExternalPid>) returns (r: Result)
      requires Valid(Snapshot()) && Covers(versions, bucket)
      modifies this
      ensures r == Reconcile(old(Snapshot()), versions, pids)
      ensures Snapshot() == if r.Done? then r.store else old(Snapshot())
      ensures Valid(Snapshot())
    {
      var files0, next0, bucket0 := files, next, bucket;
      var ok := ReleaseAll(versions, Wanted(pids));
      if !ok {
        r := UriTaken;
      } else {
        var distinct := HasDistinctKeys(pids);
        if distinct {
          r := AttachAll(pids);
        } else {
          r := DuplicateKeys;
        }
      }
      if !r.Done? {
        files, next, bucket := files0, next0, bucket0;
      }
    }

    /** `generate_external_pids`. */
    method ListExternalPids() returns (pids: seq<ExternalPid>)
      requires Valid(Snapshot())
      ensures pids == GenerateExternalPids(Snapshot())
    {
      pids := [];
      for i := 0 to |bucket|
        invariant pids == ExternalHeads(Snapshot(), i)
      {
        var v := bucket[i];
        if Newest(bucket, i) && v.file.Some? && v.file.value in files && files[v.file.value].external {
          pids := pids + [ExternalPid(v.key, files[v.file.value].uri)];
        }
      }
      pids := SortByKey(pids);
    }
  }

  lemma {:induction false} ReleaseStaysFailed(s: Store, versions: seq<Version>, wanted: map<string, string>, n: nat)
    requires n <= |versions| && Release(s, versions[..n], wanted) == UriTaken
    ensures Release(s, versions, wanted) == UriTaken
    decreases |versions|
  {
    if n < |versions| {
      assert versions[..|versions| - 1][..n] == versions[..n];
      ReleaseStaysFailed(s, versions[..|versions| - 1], wanted, n);
    } else {
      assert versions[..n] == versions;
    }
  }

  lemma {:induction false} AttachStaysFailed(s: Store, pids: seq<ExternalPid>, n: nat)
    requires n <= |pids| && !Attach(s, pids[..n]).Done?
    ensures Attach(s, pids) == Attach(s, pids[..n])
    decreases |pids|
  {
    if n < |pids| {
      assert pids[..|pids| - 1][..n] == pids[..n];
      AttachStaysFailed(s, pids[..|pids| - 1], n);
    } else {
      assert pids[..n] == pids;
    }
  }

  /** The keys of a list repeat if and only if their set is smaller than the list. */
  method HasDistinctKeys(pids: seq<ExternalPid>) returns (distinct: bool)
    ensures distinct <==> DistinctKeys(pids)
  {
    var keys: set<string> := {};
    for i := 0 to |pids|
      invariant forall key :: key in keys <==> Lists(pids[..i], key)
      invariant |keys| <= i
      invariant |keys| == i <==> DistinctKeys(pids[..i])
    {
      assert pids[..i + 1][..i] == pids[..i];
      ghost var before := keys;
      forall key {
        ListsSnoc(pids[..i + 1], key);
      }
      keys := keys + {pids[i].key};
    }
    assert pids[..|pids|] == pids;
    return |keys| == |pids|;
  }
}
