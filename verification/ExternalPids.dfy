/** Bringing the files of a deposit in line with a list of external PIDs
    (b2share/modules/deposit/api.py).

    A bucket keeps all versions of its keys, the newest last; files are shared between buckets and
    unique by URI. `Reconcile` is what committing a list does to them. `HeadsAreTheList` says what
    the bucket then holds, `FinalUri` what becomes of the shared files, and `RepeatSucceedsIff`
    exactly when the same list can be committed again. */
module ExternalPids {
  import opened Options

  type FileId = nat

  /** The storage class 'B' marks files that stand for an external PID. */
  datatype File = File(uri: string, external: bool)

  /** A version of a key; without a file it is a delete marker. */
  datatype Version = Version(key: string, file: Option<FileId>)

  datatype ExternalPid = ExternalPid(key: string, pid: string)

  /** The file table, the next unused file id, and the versions of the deposit's bucket. */
  datatype Store = Store(files: map<FileId, File>, next: FileId, bucket: seq<Version>)

  ghost predicate Valid(s: Store) {
    && UniqueUris(s.files)
    && (forall f :: f in s.files ==> f < s.next)
    && (forall v :: v in s.bucket && v.file.Some? ==> v.file.value in s.files)
  }

  ghost predicate UniqueUris(files: map<FileId, File>) {
    forall f, h :: f in files && h in files && files[f].uri == files[h].uri ==> f == h
  }

  // ---------------------------------------------------------------------------------------
  // The primitives of the file store
  // ---------------------------------------------------------------------------------------

  /** The file of the newest version of a key, if that is not a delete marker. */
  function Head(bucket: seq<Version>, key: string): Option<FileId> {
    if bucket == [] then None
    else if bucket[|bucket| - 1].key == key then bucket[|bucket| - 1].file
    else Head(bucket[..|bucket| - 1], key)
  }

  lemma HeadSnoc(bucket: seq<Version>, v: Version, key: string)
    ensures Head(bucket + [v], key) == if v.key == key then v.file else Head(bucket, key)
  {
    assert (bucket + [v])[..|bucket|] == bucket;
  }

  lemma {:induction false} HeadIsInBucket(bucket: seq<Version>, key: string)
    ensures Head(bucket, key).Some? ==> Version(key, Head(bucket, key)) in bucket
  {
    if bucket != [] && bucket[|bucket| - 1].key != key {
      HeadIsInBucket(bucket[..|bucket| - 1], key);
    }
  }

  /** `ObjectVersion.delete`: a delete marker, unless there is nothing to delete. */
  function Delete(bucket: seq<Version>, key: string): seq<Version> {
    if Head(bucket, key).Some? then bucket + [Version(key, None)] else bucket
  }

  /** The file with a URI. */
  ghost predicate HasUri(files: map<FileId, File>, uri: string) {
    exists f :: f in files && files[f].uri == uri
  }

  // ---------------------------------------------------------------------------------------
  // The two loops
  // ---------------------------------------------------------------------------------------

  const HANDLE_PREFIX := "http://hdl.handle.net/"

  function Normal(pid: string): string {
    if HANDLE_PREFIX <= pid then pid else HANDLE_PREFIX + pid
  }

  /** The last entry of a list for each key, as a dictionary built from the list has it. */
  function Wanted(pids: seq<ExternalPid>): map<string, string> {
    if pids == [] then map[]
    else
      var last := pids[|pids| - 1];
      Wanted(pids[..|pids| - 1])[last.key := last.pid]
  }

  datatype Result = Done(store: Store) | UriTaken | DuplicateKeys | SlashKey | NotExternal

  function IsExternal(s: Store, v: Version): bool {
    v.file.Some? && v.file.value in s.files && s.files[v.file.value].external
  }

  /** The first loop on one version: an external file whose key is not listed is removed; one
      whose key is listed under another URI is renamed, for every bucket that has the file. */
  ghost function ReleaseOne(s: Store, v: Version, wanted: map<string, string>): Result {
    if !IsExternal(s, v) then Done(s)
    else if v.key !in wanted then Done(s.(bucket := Delete(s.bucket, v.key)))
    else
      var f, uri := v.file.value, wanted[v.key];
      if s.files[f].uri == uri then Done(s)
      else if HasUri(s.files, uri) then UriTaken
      else Done(s.(files := s.files[f := s.files[f].(uri := uri)]))
  }

  ghost function Release(s: Store, versions: seq<Version>, wanted: map<string, string>): Result {
    if versions == [] then Done(s)
    else
      match Release(s, versions[..|versions| - 1], wanted)
      case Done(t) => ReleaseOne(t, versions[|versions| - 1], wanted)
      case error => error
  }

  predicate Slash(key: string) {
    key != [] && key[0] == '/'
  }

  /** The second loop on one entry: the file with its URI, made if there is none, becomes the
      newest version of its key unless it is already. */
  ghost function AttachOne(s: Store, e: ExternalPid): Result {
    if Slash(e.key) then SlashKey
    else
      var uri := Normal(e.pid);
      if HasUri(s.files, uri) then
        var f :| f in s.files && s.files[f].uri == uri;
        if !s.files[f].external then NotExternal
        else if Head(s.bucket, e.key) == Some(f) then Done(s)
        else Done(s.(bucket := s.bucket + [Version(e.key, Some(f))]))
      else
        Done(Store(s.files[s.next := File(uri, true)], s.next + 1, s.bucket + [Version(e.key, Some(s.next))]))
  }

  ghost function Attach(s: Store, pids: seq<ExternalPid>): Result {
    if pids == [] then Done(s)
    else
      match Attach(s, pids[..|pids| - 1])
      case Done(t) => AttachOne(t, pids[|pids| - 1])
      case error => error
  }

  ghost predicate DistinctKeys(pids: seq<ExternalPid>) {
    pids == [] || (DistinctKeys(pids[..|pids| - 1]) && !Lists(pids[..|pids| - 1], pids[|pids| - 1].key))
  }

  ghost predicate Lists(pids: seq<ExternalPid>, key: string) {
    exists i :: 0 <= i < |pids| && pids[i].key == key
  }

  /** What committing a list does; the versions are visited in the order of `versions`. */
  ghost function Reconcile(s: Store, versions: seq<Version>, pids: seq<ExternalPid>): Result {
    match Release(s, versions, Wanted(pids))
    case Done(t) => if DistinctKeys(pids) then Attach(t, pids) else DuplicateKeys
    case error => error
  }

  // ---------------------------------------------------------------------------------------
  // What the loops leave
  // ---------------------------------------------------------------------------------------

  lemma {:induction false} WantedIsListed(pids: seq<ExternalPid>, key: string)
    ensures key in Wanted(pids) <==> Lists(pids, key)
  {
    if pids != [] {
      WantedIsListed(pids[..|pids| - 1], key);
      ListsSnoc(pids, key);
    }
  }

  /** The loop over the versions changes URIs only, and adds delete markers only. */
  ghost predicate Released(s: Store, t: Store) {
    && Valid(t) && t.next == s.next && t.files.Keys == s.files.Keys
    && (forall f :: f in s.files ==> t.files[f].external == s.files[f].external)
    && (forall v :: v in t.bucket ==> v in s.bucket || v.file.None?)
  }

  lemma {:induction false} ReleaseKeeps(s: Store, versions: seq<Version>, wanted: map<string, string>)
    requires Valid(s) && Release(s, versions, wanted).Done?
    ensures Released(s, Release(s, versions, wanted).store)
  {
    if versions != [] {
      ReleaseKeeps(s, versions[..|versions| - 1], wanted);
    }
  }

  /** Some version of the key in the list is an external file. */
  ghost predicate HoldsExternal(s: Store, versions: seq<Version>, key: string) {
    exists i :: 0 <= i < |versions| && versions[i].key == key && IsExternal(s, versions[i])
  }

  lemma {:induction false} HoldsExternalSnoc(s: Store, versions: seq<Version>, key: string)
    requires versions != []
    ensures var front, last := versions[..|versions| - 1], versions[|versions| - 1];
            HoldsExternal(s, versions, key) <==> HoldsExternal(s, front, key) || (last.key == key && IsExternal(s, last))
  {
    var front, last := versions[..|versions| - 1], versions[|versions| - 1];
    if HoldsExternal(s, front, key) {
      var i :| 0 <= i < |front| && front[i].key == key && IsExternal(s, front[i]);
      assert versions[i] == front[i];
    }
    if HoldsExternal(s, versions, key) && !(last.key == key && IsExternal(s, last)) {
      var i :| 0 <= i < |versions| && versions[i].key == key && IsExternal(s, versions[i]);
      assert versions[i] == front[i];
    }
    assert versions[|versions| - 1] == last;
  }

  lemma {:induction false} ReleaseOneHead(t: Store, v: Version, wanted: map<string, string>, key: string)
    requires ReleaseOne(t, v, wanted).Done?
    ensures Head(ReleaseOne(t, v, wanted).store.bucket, key) ==
            if IsExternal(t, v) && v.key == key && key !in wanted then None else Head(t.bucket, key)
  {
    HeadSnoc(t.bucket, Version(v.key, None), key);
  }

  /** The first loop empties the keys that hold external files and are not listed, no others. */
  lemma {:induction false} ReleaseHeads(s: Store, versions: seq<Version>, wanted: map<string, string>, key: string)
    requires Valid(s) && Release(s, versions, wanted).Done?
    ensures Head(Release(s, versions, wanted).store.bucket, key) ==
            if key !in wanted && HoldsExternal(s, versions, key) then None else Head(s.bucket, key)
  {
    if versions != [] {
      var front, v := versions[..|versions| - 1], versions[|versions| - 1];
      ReleaseHeads(s, front, wanted, key);
      ReleaseKeeps(s, front, wanted);
      HoldsExternalSnoc(s, versions, key);
      ReleaseOneHead(Release(s, front, wanted).store, v, wanted, key);
    }
  }

  /** The URI the list asks for, for a file, by the last version that has it under a listed key. */
  ghost function Wish(s: Store, versions: seq<Version>, wanted: map<string, string>, f: FileId): Option<string> {
    if versions == [] then None
    else
      var v := versions[|versions| - 1];
      if IsExternal(s, v) && v.file == Some(f) && v.key in wanted then Some(wanted[v.key])
      else Wish(s, versions[..|versions| - 1], wanted, f)
  }

  /** What becomes of a file, whichever buckets it is in: its URI is the last one wished for. */
  lemma {:induction false} FinalUri(s: Store, versions: seq<Version>, wanted: map<string, string>, f: FileId)
    requires Valid(s) && Release(s, versions, wanted).Done? && f in s.files
    ensures var t := Release(s, versions, wanted).store;
            && f in t.files
            && t.files[f] == (match Wish(s, versions, wanted, f)
                              case None => s.files[f]
                              case Some(uri) => s.files[f].(uri := uri))
  {
    if versions != [] {
      FinalUri(s, versions[..|versions| - 1], wanted, f);
      ReleaseKeeps(s, versions[..|versions| - 1], wanted);
    }
  }

  /** The second loop only adds files, all external, and versions. */
  ghost predicate Attached(t: Store, u: Store) {
    && Valid(u) && t.next <= u.next
    && (forall f :: f in t.files ==> f in u.files && u.files[f] == t.files[f])
  }

  lemma {:induction false} AttachKeeps(t: Store, pids: seq<ExternalPid>)
    requires Valid(t) && Attach(t, pids).Done?
    ensures Attached(t, Attach(t, pids).store)
  {
    if pids != [] {
      AttachKeeps(t, pids[..|pids| - 1]);
      AttachOneKeeps(Attach(t, pids[..|pids| - 1]).store, pids[|pids| - 1]);
    }
  }

  lemma {:induction false} AttachOneKeeps(t: Store, e: ExternalPid)
    requires Valid(t) && AttachOne(t, e).Done?
    ensures Attached(t, AttachOne(t, e).store)
    ensures forall key :: key != e.key ==> Head(AttachOne(t, e).store.bucket, key) == Head(t.bucket, key)
    ensures HeadIs(AttachOne(t, e).store, e.key, Normal(e.pid))
  {
    var u := AttachOne(t, e).store;
    if u.bucket != t.bucket {
      var v := u.bucket[|u.bucket| - 1];
      assert u.bucket == t.bucket + [v];
      forall key
        ensures Head(u.bucket, key) == if v.key == key then v.file else Head(t.bucket, key)
      {
        HeadSnoc(t.bucket, v, key);
      }
    }
  }

  /** The newest version of the key is an external file with this URI. */
  ghost predicate HeadIs(s: Store, key: string, uri: string) {
    var h := Head(s.bucket, key);
    h.Some? && h.value in s.files && s.files[h.value] == File(uri, true)
  }

  lemma {:induction false} AttachHeads(t: Store, pids: seq<ExternalPid>)
    requires Valid(t) && Attach(t, pids).Done? && DistinctKeys(pids)
    ensures var u := Attach(t, pids).store;
            && (forall i :: 0 <= i < |pids| ==> HeadIs(u, pids[i].key, Normal(pids[i].pid)))
            && (forall key :: !Lists(pids, key) ==> Head(u.bucket, key) == Head(t.bucket, key))
  {
    if pids != [] {
      var front, e := pids[..|pids| - 1], pids[|pids| - 1];
      AttachHeads(t, front);
      AttachKeeps(t, front);
      var u := Attach(t, front).store;
      AttachOneKeeps(u, e);
      var u' := AttachOne(u, e).store;
      forall i | 0 <= i < |pids|
        ensures HeadIs(u', pids[i].key, Normal(pids[i].pid))
      {
        if i < |pids| - 1 {
          assert front[i] == pids[i] && Lists(front, pids[i].key);
          assert HeadIs(u, pids[i].key, Normal(pids[i].pid));
        }
      }
      forall key | !Lists(pids, key)
        ensures Head(u'.bucket, key) == Head(t.bucket, key)
      {
        ListsSnoc(pids, key);
      }
    }
  }

  // ---------------------------------------------------------------------------------------
  // The main results
  // ---------------------------------------------------------------------------------------

  /** The first loop visits every version of the bucket, in some order. */
  ghost predicate Covers(versions: seq<Version>, bucket: seq<Version>) {
    forall v :: v in versions <==> v in bucket
  }

  ghost predicate Asks(pids: seq<ExternalPid>, key: string, uri: string) {
    exists i :: 0 <= i < |pids| && pids[i].key == key && Normal(pids[i].pid) == uri
  }

  /** After a committed list, the external files that are newest under their key are exactly the
      listed ones, under their normalised URIs; a key that is not listed and never held an
      external file keeps its newest version. */
  lemma HeadsAreTheList(s: Store, versions: seq<Version>, pids: seq<ExternalPid>)
    requires Valid(s) && Covers(versions, s.bucket) && Reconcile(s, versions, pids).Done?
    ensures var u := Reconcile(s, versions, pids).store;
            && Valid(u)
            && (forall key, uri :: HeadIs(u, key, uri) <==> Asks(pids, key, uri))
            && (forall key :: !Lists(pids, key) && !HoldsExternal(s, s.bucket, key) ==> Head(u.bucket, key) == Head(s.bucket, key))
  {
    var wanted := Wanted(pids);
    var t := Release(s, versions, wanted).store;
    var u := Reconcile(s, versions, pids).store;
    ReleaseKeeps(s, versions, wanted);
    AttachKeeps(t, pids);
    AttachHeads(t, pids);
    forall key, uri
      ensures HeadIs(u, key, uri) <==> Asks(pids, key, uri)
    {
      if Lists(pids, key) {
        var i :| 0 <= i < |pids| && pids[i].key == key;
        assert HeadIs(u, key, Normal(pids[i].pid));
        if Asks(pids, key, uri) {
          var j :| 0 <= j < |pids| && pids[j].key == key && Normal(pids[j].pid) == uri;
          assert HeadIs(u, key, Normal(pids[j].pid));
        }
      } else {
        UnlistedIsNotExternal(s, versions, pids, key);
      }
    }
    forall key | !Lists(pids, key) && !HoldsExternal(s, s.bucket, key)
      ensures Head(u.bucket, key) == Head(s.bucket, key)
    {
      SameHolding(s, versions, s.bucket, key);
      ReleaseHeads(s, versions, wanted, key);
    }
  }

  lemma SameHolding(s: Store, a: seq<Version>, b: seq<Version>, key: string)
    requires Covers(a, b)
    ensures HoldsExternal(s, a, key) ==> HoldsExternal(s, b, key)
  {
    if HoldsExternal(s, a, key) {
      var i :| 0 <= i < |a| && a[i].key == key && IsExternal(s, a[i]);
      assert a[i] in b;
      var j :| 0 <= j < |b| && b[j] == a[i];
      assert b[j].key == key && IsExternal(s, b[j]);
    }
  }

  lemma UnlistedIsNotExternal(s: Store, versions: seq<Version>, pids: seq<ExternalPid>, key: string)
    requires Valid(s) && Covers(versions, s.bucket) && Reconcile(s, versions, pids).Done? && !Lists(pids, key)
    ensures var h := Head(Reconcile(s, versions, pids).store.bucket, key);
            h.Some? ==> var u := Reconcile(s, versions, pids).store; h.value in u.files && !u.files[h.value].external
  {
    var wanted := Wanted(pids);
    var t := Release(s, versions, wanted).store;
    ReleaseKeeps(s, versions, wanted);
    AttachKeeps(t, pids);
    AttachHeads(t, pids);
    ReleaseHeads(s, versions, wanted, key);
    WantedIsListed(pids, key);
    var h := Head(t.bucket, key);
    if h.Some? {
      HeadIsInBucket(s.bucket, key);
      var v := Version(key, h);
      assert v in versions;
      var i :| 0 <= i < |versions| && versions[i] == v;
      assert versions[i].key == key;
    }
  }

  /** What committing a list does to a file, in whichever bucket it is: it keeps its URI if and
      only if the list wishes for none or for the one it has. */
  lemma SharedFileKeepsUriIff(s: Store, versions: seq<Version>, pids: seq<ExternalPid>, f: FileId)
    requires Valid(s) && f in s.files && Reconcile(s, versions, pids).Done?
    ensures var u := Reconcile(s, versions, pids).store;
            var wish := Wish(s, versions, Wanted(pids), f);
            && f in u.files
            && (u.files[f] == s.files[f] <==> wish == None || wish == Some(s.files[f].uri))
  {
    FinalUri(s, versions, Wanted(pids), f);
    ReleaseKeeps(s, versions, Wanted(pids));
    AttachKeeps(Release(s, versions, Wanted(pids)).store, pids);
  }

  /** The URI a bucket shows for a key. */
  ghost function HeadUri(s: Store, bucket: seq<Version>, key: string): Option<string> {
    var h := Head(bucket, key);
    if h.Some? && h.value in s.files then Some(s.files[h.value].uri) else None
  }

  /** The list wishes for another URI for the newest version of a key. */
  ghost predicate Renames(s: Store, versions: seq<Version>, pids: seq<ExternalPid>, bucket: seq<Version>, key: string) {
    HeadUri(s, bucket, key).Some? &&
    var wish := Wish(s, versions, Wanted(pids), Head(bucket, key).value);
    wish.Some? && wish != HeadUri(s, bucket, key)
  }

  /** Files are shared: any other bucket goes on showing the same URI for a key if and only if the
      list wishes for no other one for that file. */
  lemma OtherBucketKeepsUriIff(s: Store, versions: seq<Version>, pids: seq<ExternalPid>, other: seq<Version>, key: string)
    requires Valid(s) && Reconcile(s, versions, pids).Done?
    requires forall v :: v in other && v.file.Some? ==> v.file.value in s.files
    ensures HeadUri(Reconcile(s, versions, pids).store, other, key) == HeadUri(s, other, key) <==>
            !Renames(s, versions, pids, other, key)
  {
    if Head(other, key).Some? {
      HeadIsInBucket(other, key);
      FinalFile(s, versions, pids, Head(other, key).value);
    }
  }

  lemma FinalFile(s: Store, versions: seq<Version>, pids: seq<ExternalPid>, f: FileId)
    requires Valid(s) && f in s.files && Reconcile(s, versions, pids).Done?
    ensures var u := Reconcile(s, versions, pids).store;
            f in u.files && u.files[f] == s.files[f].(uri := UriAfter(s, versions, Wanted(pids), f))
  {
    FinalUri(s, versions, Wanted(pids), f);
    ReleaseKeeps(s, versions, Wanted(pids));
    AttachKeeps(Release(s, versions, Wanted(pids)).store, pids);
  }

  // ---------------------------------------------------------------------------------------
  // When a list can be committed
  // ---------------------------------------------------------------------------------------

  /** A file's URI once these versions have been visited. */
  ghost function UriAfter(s: Store, versions: seq<Version>, wanted: map<string, string>, f: FileId): string
    requires f in s.files
  {
    match Wish(s, versions, wanted, f)
    case None => s.files[f].uri
    case Some(uri) => uri
  }

  ghost predicate Apart(s: Store, versions: seq<Version>, wanted: map<string, string>) {
    forall f, h :: f in s.files && h in s.files && UriAfter(s, versions, wanted, f) == UriAfter(s, versions, wanted, h) ==> f == h
  }

  /** However many versions have been visited, no two files have the same URI. */
  ghost predicate ApartThroughout(s: Store, versions: seq<Version>, wanted: map<string, string>) {
    Apart(s, versions, wanted) && (versions != [] ==> ApartThroughout(s, versions[..|versions| - 1], wanted))
  }

  /** Visiting one more version changes the URI of one file at most. */
  lemma {:induction false} OneMoreVersion(s: Store, versions: seq<Version>, wanted: map<string, string>, f: FileId)
    requires versions != [] && f in s.files
    ensures var v := versions[|versions| - 1];
            UriAfter(s, versions, wanted, f) ==
            if IsExternal(s, v) && v.file == Some(f) && v.key in wanted then wanted[v.key]
            else UriAfter(s, versions[..|versions| - 1], wanted, f)
  {
  }

  /** The first loop meets no URI that is taken if and only if the files stay apart throughout. */
  lemma {:induction false} ReleaseDoneIff(s: Store, versions: seq<Version>, wanted: map<string, string>)
    requires Valid(s)
    ensures Release(s, versions, wanted).Done? <==> ApartThroughout(s, versions, wanted)
    ensures !Release(s, versions, wanted).Done? ==> Release(s, versions, wanted) == UriTaken
  {
    if versions != [] {
      var front, v := versions[..|versions| - 1], versions[|versions| - 1];
      ReleaseDoneIff(s, front, wanted);
      if Release(s, front, wanted).Done? {
        if Release(s, versions, wanted).Done? {
          ReleasedIsApart(s, versions, wanted);
        } else {
          TakenIsNotApart(s, versions, wanted);
        }
      }
    } else {
      ReleasedIsApart(s, versions, wanted);
    }
  }

  lemma ReleasedIsApart(s: Store, versions: seq<Version>, wanted: map<string, string>)
    requires Valid(s) && Release(s, versions, wanted).Done?
    ensures Apart(s, versions, wanted)
  {
    var t := Release(s, versions, wanted).store;
    ReleaseKeeps(s, versions, wanted);
    forall f | f in s.files
      ensures f in t.files && t.files[f].uri == UriAfter(s, versions, wanted, f)
    {
      FinalUri(s, versions, wanted, f);
    }
  }

  lemma TakenIsNotApart(s: Store, versions: seq<Version>, wanted: map<string, string>)
    requires Valid(s) && versions != [] && Release(s, versions[..|versions| - 1], wanted).Done?
    requires !Release(s, versions, wanted).Done?
    ensures !Apart(s, versions, wanted)
  {
    var front, v := versions[..|versions| - 1], versions[|versions| - 1];
    var t := Release(s, front, wanted).store;
    ReleaseKeeps(s, front, wanted);
    var f, uri := v.file.value, wanted[v.key];
    var h :| h in t.files && t.files[h].uri == uri;
    FinalUri(s, front, wanted, f);
    FinalUri(s, front, wanted, h);
    OneMoreVersion(s, versions, wanted, f);
    OneMoreVersion(s, versions, wanted, h);
  }

  /** No key starts with a slash, and no URI is that of a file of another storage class. */
  ghost predicate Attachable(s: Store, pids: seq<ExternalPid>) {
    forall e :: e in pids ==> !("/" <= e.key) && !HasPlain(s.files, Normal(e.pid))
  }

  ghost predicate HasPlain(files: map<FileId, File>, uri: string) {
    exists f :: f in files && files[f] == File(uri, false)
  }

  lemma {:induction false} AttachOneDoneIff(t: Store, e: ExternalPid)
    requires Valid(t)
    ensures AttachOne(t, e).Done? <==> !Slash(e.key) && !HasPlain(t.files, Normal(e.pid))
    ensures AttachOne(t, e).Done? ==> forall uri :: HasPlain(AttachOne(t, e).store.files, uri) <==> HasPlain(t.files, uri)
  {
    var uri := Normal(e.pid);
    if HasUri(t.files, uri) {
      var f :| f in t.files && t.files[f].uri == uri;
      if HasPlain(t.files, uri) {
        var h :| h in t.files && t.files[h] == File(uri, false);
        assert h == f;
      }
    }
    if AttachOne(t, e).Done? {
      var u := AttachOne(t, e).store;
      forall uri
        ensures HasPlain(u.files, uri) <==> HasPlain(t.files, uri)
      {
        if HasPlain(t.files, uri) {
          var f :| f in t.files && t.files[f] == File(uri, false);
          assert f in u.files && u.files[f] == t.files[f];
        }
      }
    }
  }

  lemma {:induction false} AttachDoneIff(t: Store, pids: seq<ExternalPid>)
    requires Valid(t)
    ensures Attach(t, pids).Done? <==> Attachable(t, pids)
    ensures Attach(t, pids).Done? ==> forall uri :: HasPlain(Attach(t, pids).store.files, uri) <==> HasPlain(t.files, uri)
  {
    if pids != [] {
      var front, e := pids[..|pids| - 1], pids[|pids| - 1];
      assert pids == front + [e];
      AttachDoneIff(t, front);
      if Attach(t, front).Done? {
        AttachKeeps(t, front);
        AttachOneDoneIff(Attach(t, front).store, e);
      } else {
        assert !Attachable(t, front);
      }
    }
  }

  lemma {:induction false} PlainHasNoWish(s: Store, versions: seq<Version>, wanted: map<string, string>, f: FileId)
    requires f in s.files && !s.files[f].external
    ensures Wish(s, versions, wanted, f) == None
  {
    if versions != [] {
      PlainHasNoWish(s, versions[..|versions| - 1], wanted, f);
    }
  }

  lemma SamePlain(s: Store, versions: seq<Version>, wanted: map<string, string>, uri: string)
    requires Valid(s) && Release(s, versions, wanted).Done?
    ensures HasPlain(Release(s, versions, wanted).store.files, uri) <==> HasPlain(s.files, uri)
  {
    var t := Release(s, versions, wanted).store;
    ReleaseKeeps(s, versions, wanted);
    forall f | f in s.files && !s.files[f].external
      ensures f in t.files && t.files[f] == s.files[f]
    {
      PlainHasNoWish(s, versions, wanted, f);
      FinalUri(s, versions, wanted, f);
    }
    if HasPlain(s.files, uri) {
      var f :| f in s.files && s.files[f] == File(uri, false);
      assert t.files[f] == File(uri, false);
    }
    if HasPlain(t.files, uri) {
      var f :| f in t.files && t.files[f] == File(uri, false);
      assert s.files[f] == File(uri, false);
    }
  }

  /** Exactly when a list can be committed: its keys are distinct and start with no slash, its URIs
      belong to no other kind of file, and renaming never gives two files the same URI, not even
      on the way. */
  lemma ReconcileDoneIff(s: Store, versions: seq<Version>, pids: seq<ExternalPid>)
    requires Valid(s)
    ensures Reconcile(s, versions, pids).Done? <==>
            ApartThroughout(s, versions, Wanted(pids)) && DistinctKeys(pids) && Attachable(s, pids)
  {
    ReleaseDoneIff(s, versions, Wanted(pids));
    if Release(s, versions, Wanted(pids)).Done? {
      var t := Release(s, versions, Wanted(pids)).store;
      ReleaseKeeps(s, versions, Wanted(pids));
      AttachDoneIff(t, pids);
      SameAttachable(s, versions, Wanted(pids), pids);
    }
  }

  lemma {:induction false} ReleaseFails(s: Store, versions: seq<Version>, wanted: map<string, string>)
    ensures Release(s, versions, wanted).Done? || Release(s, versions, wanted).UriTaken?
  {
    if versions != [] {
      ReleaseFails(s, versions[..|versions| - 1], wanted);
    }
  }

  lemma {:induction false} AttachOneFails(t: Store, e: ExternalPid)
    requires Valid(t) && !AttachOne(t, e).Done?
    ensures AttachOne(t, e) == if "/" <= e.key then SlashKey else NotExternal
    ensures AttachOne(t, e).NotExternal? ==> HasPlain(t.files, Normal(e.pid))
  {
    AttachOneDoneIff(t, e);
  }

  /** The second loop stops at the first entry that cannot be attached. */
  lemma {:induction false} AttachFails(t: Store, pids: seq<ExternalPid>) returns (i: nat)
    requires Valid(t) && !Attach(t, pids).Done?
    ensures i < |pids| && Attachable(t, pids[..i]) && !Attachable(t, pids[..i + 1])
    ensures Attach(t, pids) == if "/" <= pids[i].key then SlashKey else NotExternal
  {
    var front, last := pids[..|pids| - 1], pids[|pids| - 1];
    assert pids == front + [last];
    AttachDoneIff(t, pids);
    AttachDoneIff(t, front);
    if Attach(t, front).Done? {
      AttachKeeps(t, front);
      AttachOneFails(Attach(t, front).store, last);
      i := |pids| - 1;
      assert pids[..i + 1] == pids;
    } else {
      i := AttachFails(t, front);
      assert front[..i] == pids[..i] && front[..i + 1] == pids[..i + 1];
    }
  }

  /** Why a list is refused: the renaming comes first, then the keys are compared, and the entries
      are taken last. */
  lemma {:induction false} ReconcileFailsWhy(s: Store, versions: seq<Version>, pids: seq<ExternalPid>)
    requires Valid(s)
    ensures var r := Reconcile(s, versions, pids);
            && (r.UriTaken? <==> !ApartThroughout(s, versions, Wanted(pids)))
            && (r.DuplicateKeys? <==> ApartThroughout(s, versions, Wanted(pids)) && !DistinctKeys(pids))
            && (r.SlashKey? || r.NotExternal? ==>
                  exists i :: 0 <= i < |pids| && Attachable(s, pids[..i]) && !Attachable(s, pids[..i + 1])
                              && r == if "/" <= pids[i].key then SlashKey else NotExternal)
  {
    ReleaseDoneIff(s, versions, Wanted(pids));
    ReleaseFails(s, versions, Wanted(pids));
    if Release(s, versions, Wanted(pids)).Done? && DistinctKeys(pids) {
      var t := Release(s, versions, Wanted(pids)).store;
      ReleaseKeeps(s, versions, Wanted(pids));
      if !Attach(t, pids).Done? {
        var i := AttachFails(t, pids);
        SameAttachable(s, versions, Wanted(pids), pids[..i]);
        SameAttachable(s, versions, Wanted(pids), pids[..i + 1]);
      }
    }
  }

  /** The renaming does not change which entries can be attached. */
  lemma {:induction false} SameAttachable(s: Store, versions: seq<Version>, wanted: map<string, string>, pids: seq<ExternalPid>)
    requires Valid(s) && Release(s, versions, wanted).Done?
    ensures Attachable(Release(s, versions, wanted).store, pids) <==> Attachable(s, pids)
  {
    forall e | e in pids
      ensures HasPlain(Release(s, versions, wanted).store.files, Normal(e.pid)) <==> HasPlain(s.files, Normal(e.pid))
    {
      SamePlain(s, versions, wanted, Normal(e.pid));
    }
  }

  /** The file is in the list of versions, and only under this key. */
  ghost predicate OnlyUnder(versions: seq<Version>, f: FileId, key: string) {
    && Version(key, Some(f)) in versions
    && forall v :: v in versions && v.file == Some(f) ==> v.key == key
  }

  lemma {:induction false} WishOfOneKey(s: Store, versions: seq<Version>, wanted: map<string, string>, f: FileId, key: string)
    requires OnlyUnder(versions, f, key) && key in wanted && f in s.files && s.files[f].external
    ensures Wish(s, versions, wanted, f) == Some(wanted[key])
  {
    var front, v := versions[..|versions| - 1], versions[|versions| - 1];
    assert v in versions;
    if v.file != Some(f) {
      assert versions == front + [v];
      WishOfOneKey(s, front, wanted, f, key);
    }
  }

  /** When a key holds versions of two external files that are under no other key, no list that
      has the key can be committed: both files would get the same URI. */
  lemma TwoFilesBlockKey(s: Store, versions: seq<Version>, pids: seq<ExternalPid>, key: string, f: FileId, h: FileId)
    requires Valid(s) && f in s.files && h in s.files && s.files[f].external && s.files[h].external
    requires f != h && OnlyUnder(versions, f, key) && OnlyUnder(versions, h, key) && Lists(pids, key)
    ensures !Reconcile(s, versions, pids).Done?
  {
    var wanted := Wanted(pids);
    WantedIsListed(pids, key);
    WishOfOneKey(s, versions, wanted, f, key);
    WishOfOneKey(s, versions, wanted, h, key);
    assert UriAfter(s, versions, wanted, f) == UriAfter(s, versions, wanted, h);
    ReconcileDoneIff(s, versions, pids);
  }

  ghost function SharedKeys(k: string, j: string): Store {
    Store(map[0 := File("0", true), 1 := File("1", true)], 2,
          [Version(k, Some(0)), Version(j, Some(0)), Version(k, Some(1))])
  }

  lemma SharedKeysUris(k: string, j: string, x: string, y: string, wanted: map<string, string>, f: FileId)
    requires k != j && wanted == map[k := x, j := y] && f < 2
    ensures var s, a, b, c := SharedKeys(k, j), Version(k, Some(0)), Version(j, Some(0)), Version(k, Some(1));
            && UriAfter(s, [], wanted, f) == s.files[f].uri
            && UriAfter(s, [a], wanted, f) == (if f == 0 then x else "1")
            && UriAfter(s, [a, b], wanted, f) == (if f == 0 then y else "1")
            && UriAfter(s, [a, b, c], wanted, f) == (if f == 0 then y else x)
  {
    var s, a, b, c := SharedKeys(k, j), Version(k, Some(0)), Version(j, Some(0)), Version(k, Some(1));
    assert [a, b, c][..2] == [a, b] && [a, b][..1] == [a] && [a][..0] == [];
    OneMoreVersion(s, [a], wanted, f);
    OneMoreVersion(s, [a, b], wanted, f);
    OneMoreVersion(s, [a, b, c], wanted, f);
  }

  lemma SharedKeysApart(k: string, j: string, x: string, y: string, wanted: map<string, string>)
    requires k != j && wanted == map[k := x, j := y]
    requires x != y && x !in {"0", "1"} && y !in {"0", "1"}
    ensures ApartThroughout(SharedKeys(k, j), SharedKeys(k, j).bucket, wanted)
  {
    var s, a, b, c := SharedKeys(k, j), Version(k, Some(0)), Version(j, Some(0)), Version(k, Some(1));
    SharedKeysUris(k, j, x, y, wanted, 0);
    SharedKeysUris(k, j, x, y, wanted, 1);
    assert [a, b, c][..2] == [a, b] && [a, b][..1] == [a] && [a][..0] == [];
    assert ApartThroughout(s, [a], wanted);
    assert ApartThroughout(s, [a, b], wanted);
  }

  lemma TwoKeysDistinct(d: ExternalPid, e: ExternalPid)
    requires d.key != e.key
    ensures DistinctKeys([d, e]) && Wanted([d, e]) == map[d.key := d.pid, e.key := e.pid]
  {
    assert [d, e][..1] == [d] && [d][..0] == [];
    assert Wanted([]) == map[];
    assert Wanted([d]) == map[d.key := d.pid];
    assert !Lists([], d.key) && DistinctKeys([]);
    assert !Lists([d], e.key) && DistinctKeys([d]);
  }

  /** Two files under one key alone block nothing: if one of them is also under a second listed
      key that is visited in between, it makes room. */
  lemma SecondKeyMakesRoom(k: string, j: string, x: string, y: string)
    requires k != j && !Slash(k) && !Slash(j)
    requires Normal(x) == x && Normal(y) == y && x != y
    ensures var s := SharedKeys(k, j);
            Valid(s) && Reconcile(s, s.bucket, [ExternalPid(k, x), ExternalPid(j, y)]).Done?
  {
    var s, d, e := SharedKeys(k, j), ExternalPid(k, x), ExternalPid(j, y);
    assert [d, e][..1] == [d] && [d][..0] == [];
    assert |"0"| != |x| && |"1"| != |x| && |"0"| != |y| && |"1"| != |y|;
    TwoKeysDistinct(d, e);
    SharedKeysApart(k, j, x, y, Wanted([d, e]));
    ReconcileDoneIff(s, s.bucket, [d, e]);
  }

  // ---------------------------------------------------------------------------------------
  // Committing the same list again
  // ---------------------------------------------------------------------------------------

  function Normalised(pids: seq<ExternalPid>): seq<ExternalPid> {
    seq(|pids|, i requires 0 <= i < |pids| => ExternalPid(pids[i].key, Normal(pids[i].pid)))
  }

  /** Every external version of a listed key already has the URI the list wants. */
  ghost predicate Settled(s: Store, versions: seq<Version>, wanted: map<string, string>) {
    forall i :: 0 <= i < |versions| && IsExternal(s, versions[i]) && versions[i].key in wanted
      ==> s.files[versions[i].file.value].uri == wanted[versions[i].key]
  }

  /** The keys of external versions are empty if they are not wanted, and hold the wanted URI. */
  ghost predicate InLine(s: Store, versions: seq<Version>, wanted: map<string, string>) {
    && (forall i :: 0 <= i < |versions| && IsExternal(s, versions[i]) ==>
          versions[i].key in wanted || Head(s.bucket, versions[i].key) == None)
    && (forall key :: key in wanted ==> HeadIs(s, key, wanted[key]))
  }

  lemma {:induction false} ReleaseAgain(s: Store, versions: seq<Version>, wanted: map<string, string>)
    requires Valid(s) && InLine(s, versions, wanted)
    ensures Release(s, versions, wanted) == if Settled(s, versions, wanted) then Done(s) else UriTaken
  {
    if versions != [] {
      var front, v := versions[..|versions| - 1], versions[|versions| - 1];
      assert forall i :: 0 <= i < |front| ==> front[i] == versions[i];
      ReleaseAgain(s, front, wanted);
      if Settled(s, front, wanted) && IsExternal(s, v) && v.key in wanted {
        assert HeadIs(s, v.key, wanted[v.key]);
        assert HasUri(s.files, wanted[v.key]);
      }
    }
  }

  lemma {:induction false} AttachAgain(s: Store, pids: seq<ExternalPid>)
    requires Valid(s) && forall i :: 0 <= i < |pids| ==> HeadIs(s, pids[i].key, Normal(pids[i].pid)) && !Slash(pids[i].key)
    ensures Attach(s, pids) == Done(s)
  {
    if pids != [] {
      var front, e := pids[..|pids| - 1], pids[|pids| - 1];
      assert forall i :: 0 <= i < |front| ==> front[i] == pids[i];
      AttachAgain(s, front);
      assert HeadIs(s, e.key, Normal(e.pid));
    }
  }

  lemma ListsSnoc(pids: seq<ExternalPid>, key: string)
    requires pids != []
    ensures Lists(pids, key) <==> Lists(pids[..|pids| - 1], key) || pids[|pids| - 1].key == key
  {
    var front := pids[..|pids| - 1];
    if Lists(front, key) {
      var i :| 0 <= i < |front| && front[i].key == key;
      assert pids[i].key == key;
    }
    if Lists(pids, key) && pids[|pids| - 1].key != key {
      var i :| 0 <= i < |pids| && pids[i].key == key;
      assert front[i].key == key;
    }
  }

  lemma {:induction false} AttachAddsListed(t: Store, pids: seq<ExternalPid>, v: Version)
    requires Attach(t, pids).Done? && v in Attach(t, pids).store.bucket
    ensures v in t.bucket || Lists(pids, v.key)
  {
    if pids != [] {
      var front, e := pids[..|pids| - 1], pids[|pids| - 1];
      ListsSnoc(pids, v.key);
      if v in Attach(t, front).store.bucket {
        AttachAddsListed(t, front, v);
      }
    }
  }

  lemma {:induction false} AttachHasNoSlash(t: Store, pids: seq<ExternalPid>)
    requires Attach(t, pids).Done?
    ensures forall i :: 0 <= i < |pids| ==> !Slash(pids[i].key)
  {
    if pids != [] {
      AttachHasNoSlash(t, pids[..|pids| - 1]);
      assert forall i :: 0 <= i < |pids| - 1 ==> pids[..|pids| - 1][i] == pids[i];
    }
  }

  /** A committed bucket is in line with the normalised list. */
  lemma CommittedIsInLine(s: Store, versions: seq<Version>, pids: seq<ExternalPid>, again: seq<Version>)
    requires Valid(s) && Covers(versions, s.bucket) && Reconcile(s, versions, pids).Done?
    requires Covers(again, Reconcile(s, versions, pids).store.bucket)
    ensures InLine(Reconcile(s, versions, pids).store, again, Wanted(Normalised(pids)))
  {
    var wanted, t := Wanted(pids), Release(s, versions, Wanted(pids)).store;
    var u := Reconcile(s, versions, pids).store;
    ReleaseKeeps(s, versions, wanted);
    AttachKeeps(t, pids);
    AttachHeads(t, pids);
    forall i | 0 <= i < |again| && IsExternal(u, again[i])
      ensures again[i].key in Wanted(Normalised(pids)) || Head(u.bucket, again[i].key) == None
    {
      var v := again[i];
      assert v in u.bucket;
      WantedIsListed(Normalised(pids), v.key);
      NormalisedLists(pids, v.key);
      if !Lists(pids, v.key) {
        AttachAddsListed(t, pids, v);
        assert v in t.bucket && v in s.bucket && v in versions;
        var j :| 0 <= j < |versions| && versions[j] == v;
        assert versions[j].key == v.key && IsExternal(s, versions[j]);
        WantedIsListed(pids, v.key);
        ReleaseHeads(s, versions, wanted, v.key);
      }
    }
    forall key | key in Wanted(Normalised(pids))
      ensures HeadIs(u, key, Wanted(Normalised(pids))[key])
    {
      var i := WantedEntry(Normalised(pids), key);
      assert HeadIs(u, pids[i].key, Normal(pids[i].pid));
    }
  }

  lemma NormalisedLists(pids: seq<ExternalPid>, key: string)
    ensures Lists(Normalised(pids), key) <==> Lists(pids, key)
  {
    if Lists(pids, key) {
      var i :| 0 <= i < |pids| && pids[i].key == key;
      assert Normalised(pids)[i].key == key;
    }
  }

  lemma {:induction false} NormalisedDistinct(pids: seq<ExternalPid>)
    requires DistinctKeys(pids)
    ensures DistinctKeys(Normalised(pids))
  {
    if pids != [] {
      var front := pids[..|pids| - 1];
      NormalisedDistinct(front);
      NormalisedLists(front, pids[|pids| - 1].key);
      assert Normalised(pids)[..|pids| - 1] == Normalised(front);
    }
  }

  lemma {:induction false} WantedEntry(pids: seq<ExternalPid>, key: string) returns (i: nat)
    requires key in Wanted(pids)
    ensures i < |pids| && pids[i].key == key && pids[i].pid == Wanted(pids)[key]
  {
    if pids[|pids| - 1].key == key {
      i := |pids| - 1;
    } else {
      i := WantedEntry(pids[..|pids| - 1], key);
    }
  }

  lemma NormalTwice(pid: string)
    ensures Normal(Normal(pid)) == Normal(pid)
  {
  }

  /** A committed list, normalised, can be committed again if and only if no older external
      version of a listed key has another file; then it changes nothing. */
  lemma RepeatSucceedsIff(s: Store, versions: seq<Version>, pids: seq<ExternalPid>, again: seq<Version>)
    requires Valid(s) && Covers(versions, s.bucket) && Reconcile(s, versions, pids).Done?
    requires Covers(again, Reconcile(s, versions, pids).store.bucket)
    ensures var u := Reconcile(s, versions, pids).store;
            Reconcile(u, again, Normalised(pids)) ==
            if Settled(u, again, Wanted(Normalised(pids))) then Done(u) else UriTaken
  {
    var t, u := Release(s, versions, Wanted(pids)).store, Reconcile(s, versions, pids).store;
    var normal := Normalised(pids);
    HeadsAreTheList(s, versions, pids);
    CommittedIsInLine(s, versions, pids, again);
    ReleaseAgain(u, again, Wanted(normal));
    NormalisedDistinct(pids);
    ReleaseKeeps(s, versions, Wanted(pids));
    AttachHasNoSlash(t, pids);
    AttachHeads(t, pids);
    forall i | 0 <= i < |normal|
      ensures HeadIs(u, normal[i].key, Normal(normal[i].pid)) && !Slash(normal[i].key)
    {
      NormalTwice(pids[i].pid);
      assert HeadIs(u, pids[i].key, Normal(pids[i].pid));
    }
    AttachAgain(u, normal);
  }

  /** One external file under one key, whose URI is a handle's. */
  ghost function OneHandle(key: string, handle: string): Store {
    Store(map[0 := File(HANDLE_PREFIX + handle, true)], 1, [Version(key, Some(0))])
  }

  ghost function TwoHandles(key: string, handle: string): Store {
    Store(map[0 := File(handle, true), 1 := File(HANDLE_PREFIX + handle, true)], 2, [Version(key, Some(0)), Version(key, Some(1))])
  }

  lemma BareHandleCommits(key: string, handle: string)
    requires !Slash(key) && !(HANDLE_PREFIX <= handle)
    ensures var s := OneHandle(key, handle);
            Valid(s) && Reconcile(s, s.bucket, [ExternalPid(key, handle)]) == Done(TwoHandles(key, handle))
  {
    var uri := HANDLE_PREFIX + handle;
    var v := Version(key, Some(0));
    var s := OneHandle(key, handle);
    var pids := [ExternalPid(key, handle)];
    assert [v][..0] == [] && pids[..0] == [];
    assert |uri| != |handle|;
    assert Wanted(pids) == map[key := handle];
    assert Release(s, [], Wanted(pids)) == Done(s);
    var t := ReleaseOne(s, v, Wanted(pids)).store;
    assert Release(s, s.bucket, Wanted(pids)) == Done(t);
    assert t.files == map[0 := File(handle, true)];
    assert Attach(t, []) == Done(t);
    var u := AttachOne(t, pids[0]).store;
    assert Attach(t, pids) == Attach(t, pids[..0] + [pids[0]]) == Done(u);
    assert u == TwoHandles(key, handle);
    assert DistinctKeys(pids[..0]) && !Lists(pids[..0], key);
    assert DistinctKeys(pids);
  }

  /** Listing a key that holds an external file under its bare handle commits once: the file is
      renamed and a second one made; the normalised list cannot be committed after that. */
  lemma BareHandleBlocksKey(key: string, handle: string)
    requires !Slash(key) && !(HANDLE_PREFIX <= handle)
    ensures var s, u := OneHandle(key, handle), TwoHandles(key, handle);
            var pids := [ExternalPid(key, handle)];
            && Valid(s) && Valid(u) && Reconcile(s, s.bucket, pids) == Done(u)
            && Reconcile(u, u.bucket, Normalised(pids)) == UriTaken
  {
    var s, u := OneHandle(key, handle), TwoHandles(key, handle);
    var pids := [ExternalPid(key, handle)];
    BareHandleCommits(key, handle);
    RepeatSucceedsIff(s, s.bucket, pids, u.bucket);
    assert |HANDLE_PREFIX + handle| != |handle|;
    assert u.bucket[0] == Version(key, Some(0)) && IsExternal(u, u.bucket[0]);
    WantedIsListed(Normalised(pids), key);
    assert Normalised(pids)[0].key == key;
    var i := WantedEntry(Normalised(pids), key);
    assert !Settled(u, u.bucket, Wanted(Normalised(pids)));
  }

  /** From then on no list that has the key can be committed, in whatever order the versions are
      visited. */
  lemma BareHandleBlocksEveryList(key: string, handle: string, versions: seq<Version>, pids: seq<ExternalPid>)
    requires !Slash(key) && !(HANDLE_PREFIX <= handle)
    requires Covers(versions, TwoHandles(key, handle).bucket) && Lists(pids, key)
    ensures !Reconcile(TwoHandles(key, handle), versions, pids).Done?
  {
    var u := TwoHandles(key, handle);
    BareHandleBlocksKey(key, handle);
    assert u.bucket[0] in versions && u.bucket[1] in versions;
    TwoFilesBlockKey(u, versions, pids, key, 0, 1);
  }
}
