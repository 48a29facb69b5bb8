/** The recipe graph and the breadth-first search for an upgrade path
    (b2share/modules/upgrade/api.py).

    The search keeps no set of visited versions, so on a cyclic graph it can run for ever.
    `SearchStopsIff` says exactly when it stops, the contract of `BuildUpgradePath` what it then
    answers, and `ResumeIsStable` that searching again from inside an answer gives its rest. */
module UpgradePath {
  import opened Sequences

  /** A version such as 2.1.0. Versions are only compared for equality, so they are numbered. */
  type Version = int

  /** Source version to the target versions of its recipes, in the order the dictionary of
      recipes enumerates them. A walk names its recipes by the versions they lead to. */
  type Graph = map<Version, seq<Version>>

  type Walk = seq<Version>

  /** What registration keeps: an entry exists only for a version some recipe starts from, and
      no version is the target of two recipes of an entry. */
  ghost predicate WellFormed(g: Graph) {
    forall v :: v in g ==> g[v] != [] && NoRepeat(g[v])
  }

  /** The index of `dst` in an entry; `|vs|` when there is none. */
  function Find(vs: seq<Version>, dst: Version): (i: nat)
    ensures i <= |vs|
    ensures i < |vs| ==> vs[i] == dst
    ensures forall j :: 0 <= j < i ==> vs[j] != dst
  {
    if vs == [] || vs[0] == dst then 0 else 1 + Find(vs[1..], dst)
  }

  // ---------------------------------------------------------------------------------------
  // Walks and the order in which a dictionary-ordered search meets them
  // ---------------------------------------------------------------------------------------

  ghost predicate IsWalk(g: Graph, v: Version, w: Walk)
    decreases |w|
  {
    w == [] || (v in g && w[0] in g[v] && IsWalk(g, w[0], w[1..]))
  }

  function End(v: Version, w: Walk): Version {
    if w == [] then v else w[|w| - 1]
  }

  /** Dictionary order on walks: at the first difference, `a` takes the recipe listed first. */
  ghost predicate Earlier(g: Graph, v: Version, a: Walk, b: Walk)
    decreases |a|
  {
    && a != [] && b != [] && v in g
    && if a[0] == b[0] then Earlier(g, a[0], a[1..], b[1..])
       else Find(g[v], a[0]) < Find(g[v], b[0])
  }

  /** The order of the search: shorter walks first, dictionary order among equals. */
  ghost predicate Sooner(g: Graph, v: Version, a: Walk, b: Walk) {
    |a| < |b| || (|a| == |b| && Earlier(g, v, a, b))
  }

  /** Taking the branch `w` off the queue only queues its extensions. */
  ghost predicate Quiet(g: Graph, src: Version, dst: Version, w: Walk) {
    var v := End(src, w);
    v in g && Find(g[v], dst) == |g[v]|
  }

  /** `p` leads to `dst` and is the first in search order that does. */
  ghost predicate FirstShortest(g: Graph, src: Version, dst: Version, p: Walk) {
    && IsWalk(g, src, p) && End(src, p) == dst
    && forall q :: IsWalk(g, src, q) && End(src, q) == dst && q != p ==> Sooner(g, src, p, q)
  }

  datatype PathResult =
    | Path(upgrades: Walk)
    | NothingFound    // the queue ran empty: the function returns None
    | UnknownVersion  // MigrationFromUnknownVersionError
    | MissingEntry    // KeyError: a version on the way starts no recipe

  /** Every branch the search takes off its queue before it returns `p` has an entry. */
  ghost predicate EntriesBefore(g: Graph, src: Version, p: Walk) {
    p != [] ==>
      forall w :: IsWalk(g, src, w) && (w == p[..|p| - 1] || Sooner(g, src, w, p[..|p| - 1])) ==> End(src, w) in g
  }

  /** `w` is the first walk in search order that is not quiet, and its end has no entry. */
  ghost predicate FirstMissing(g: Graph, src: Version, dst: Version, w: Walk) {
    && IsWalk(g, src, w) && End(src, w) !in g
    && forall q :: IsWalk(g, src, q) && Sooner(g, src, q, w) ==> Quiet(g, src, dst, q)
  }

  /** What an answer of the search means, without naming the algorithm. */
  ghost predicate Answers(g: Graph, src: Version, dst: Version, r: PathResult) {
    match r
    case Path(p) => FirstShortest(g, src, dst, p) && EntriesBefore(g, src, p)
    case UnknownVersion => src != dst && src !in g
    case MissingEntry => src != dst && src in g && exists w :: FirstMissing(g, src, dst, w)
    case NothingFound => false
  }

  /** What lets the search end: some walk reaches the target or a version without an entry. */
  ghost predicate Stops(g: Graph, src: Version, dst: Version) {
    src == dst || src !in g || exists w :: Ending(g, src, dst, w)
  }

  ghost predicate Ending(g: Graph, src: Version, dst: Version, w: Walk) {
    IsWalk(g, src, w) && (End(src, w) == dst || End(src, w) !in g)
  }

  // ---------------------------------------------------------------------------------------
  // One turn of the loop, and any number of turns
  // ---------------------------------------------------------------------------------------

  datatype Branch = Branch(version: Version, upgrades: Walk)

  datatype Search = Running(queue: seq<Branch>) | Done(result: PathResult)

  function Extensions(b: Branch, rs: seq<Version>): (bs: seq<Branch>)
    ensures |bs| == |rs|
  {
    if rs == [] then []
    else
      var r := rs[|rs| - 1];
      Extensions(b, rs[..|rs| - 1]) + [Branch(r, b.upgrades + [r])]
  }

  function Turn(g: Graph, dst: Version, queue: seq<Branch>): Search {
    if queue == [] then Done(NothingFound)
    else
      var b := queue[0];
      if b.version !in g then Done(MissingEntry)
      else
        var rs := g[b.version];
        var i := Find(rs, dst);
        if i < |rs| then Done(Path(b.upgrades + [rs[i]]))
        else Running(queue[1..] + Extensions(b, rs))
  }

  function Turns(g: Graph, dst: Version, queue: seq<Branch>, n: nat): Search
    decreases n
  {
    if n == 0 then Running(queue)
    else
      match Turn(g, dst, queue)
      case Running(q) => Turns(g, dst, q, n - 1)
      case Done(r) => Done(r)
  }

  /** The whole function, given enough turns: its checks, then the loop. */
  function Begin(g: Graph, src: Version, dst: Version, n: nat): Search {
    if src == dst then Done(Path([]))
    else if src !in g then Done(UnknownVersion)
    else Turns(g, dst, [Branch(src, [])], n)
  }

  // ---------------------------------------------------------------------------------------
  // Levels: all walks of one length in dictionary order, as the queue enumerates them
  // ---------------------------------------------------------------------------------------

  ghost function Fork(w: Walk, rs: seq<Version>): (ws: seq<Walk>)
    ensures |ws| == |rs|
  {
    if rs == [] then [] else Fork(w, rs[..|rs| - 1]) + [w + [rs[|rs| - 1]]]
  }

  lemma {:induction false} ForkAt(w: Walk, rs: seq<Version>, i: nat)
    requires i < |rs|
    ensures Fork(w, rs)[i] == w + [rs[i]]
  {
    if i < |rs| - 1 {
      ForkAt(w, rs[..|rs| - 1], i);
    }
  }

  ghost function Exits(g: Graph, v: Version): seq<Version> {
    if v in g then g[v] else []
  }

  /** The extensions of all walks of `ws`, in order. */
  ghost function Kids(g: Graph, src: Version, ws: seq<Walk>): seq<Walk> {
    if ws == [] then []
    else Kids(g, src, ws[..|ws| - 1]) + Fork(ws[|ws| - 1], Exits(g, End(src, ws[|ws| - 1])))
  }

  ghost function Level(g: Graph, src: Version, n: nat): seq<Walk> {
    if n == 0 then [[]] else Kids(g, src, Level(g, src, n - 1))
  }

  ghost predicate Sorted(g: Graph, src: Version, ws: seq<Walk>) {
    forall i, j :: 0 <= i < j < |ws| ==> Earlier(g, src, ws[i], ws[j])
  }

  lemma {:induction false} WalkSnoc(g: Graph, v: Version, w: Walk, r: Version)
    ensures IsWalk(g, v, w + [r]) <==> IsWalk(g, v, w) && End(v, w) in g && r in g[End(v, w)]
    decreases |w|
  {
    if w == [] {
      assert (w + [r])[1..] == [];
    } else {
      assert (w + [r])[1..] == w[1..] + [r];
      WalkSnoc(g, w[0], w[1..], r);
    }
  }

  /** Extending two walks that differ keeps their order; extending one walk orders by recipe. */
  lemma {:induction false} EarlierSnoc(g: Graph, v: Version, a: Walk, b: Walk, r: Version, s: Version)
    requires IsWalk(g, v, a) && IsWalk(g, v, b)
    requires Earlier(g, v, a, b) ||
             (a == b && End(v, a) in g && r != s && Find(g[End(v, a)], r) < Find(g[End(v, a)], s))
    ensures Earlier(g, v, a + [r], b + [s])
    decreases |a|
  {
    if a != [] {
      assert (a + [r])[1..] == a[1..] + [r];
      assert (b + [s])[1..] == b[1..] + [s];
      if a[0] == b[0] {
        EarlierSnoc(g, a[0], a[1..], b[1..], r, s);
      }
    }
  }

  /** Every extension extends some walk of the list by an exit of its end. */
  lemma {:induction false} KidOf(g: Graph, src: Version, ws: seq<Walk>, k: nat) returns (i: nat, r: Version)
    requires k < |Kids(g, src, ws)|
    ensures i < |ws| && Kids(g, src, ws)[k] == ws[i] + [r]
    ensures r in Exits(g, End(src, ws[i]))
  {
    var front, last := ws[..|ws| - 1], ws[|ws| - 1];
    var rs := Exits(g, End(src, last));
    if k < |Kids(g, src, front)| {
      i, r := KidOf(g, src, front, k);
    } else {
      var j := k - |Kids(g, src, front)|;
      ForkAt(last, rs, j);
      i, r := |ws| - 1, rs[j];
    }
  }

  lemma {:induction false} KidsAreAll(g: Graph, src: Version, ws: seq<Walk>, i: nat, r: Version) returns (k: nat)
    requires i < |ws| && r in Exits(g, End(src, ws[i]))
    ensures k < |Kids(g, src, ws)| && Kids(g, src, ws)[k] == ws[i] + [r]
  {
    var front, last := ws[..|ws| - 1], ws[|ws| - 1];
    if i == |ws| - 1 {
      var rs := Exits(g, End(src, last));
      var j :| 0 <= j < |rs| && rs[j] == r;
      ForkAt(last, rs, j);
      k := |Kids(g, src, front)| + j;
    } else {
      k := KidsAreAll(g, src, front, i, r);
    }
  }

  ghost predicate AllWalks(g: Graph, src: Version, ws: seq<Walk>, n: nat) {
    forall i :: 0 <= i < |ws| ==> IsWalk(g, src, ws[i]) && |ws[i]| == n
  }

  lemma {:induction false} KidsAreWalks(g: Graph, src: Version, ws: seq<Walk>, n: nat)
    requires AllWalks(g, src, ws, n)
    ensures AllWalks(g, src, Kids(g, src, ws), n + 1)
  {
    forall k | 0 <= k < |Kids(g, src, ws)|
      ensures IsWalk(g, src, Kids(g, src, ws)[k]) && |Kids(g, src, ws)[k]| == n + 1
    {
      var i, r := KidOf(g, src, ws, k);
      WalkSnoc(g, src, ws[i], r);
    }
  }

  lemma {:induction false} ForkSorted(g: Graph, src: Version, w: Walk, rs: seq<Version>)
    requires WellFormed(g) && IsWalk(g, src, w) && rs == Exits(g, End(src, w))
    ensures Sorted(g, src, Fork(w, rs))
  {
    var fork := Fork(w, rs);
    forall i, j | 0 <= i < j < |fork|
      ensures Earlier(g, src, fork[i], fork[j])
    {
      ForkAt(w, rs, i);
      ForkAt(w, rs, j);
      FindAt(rs, i);
      FindAt(rs, j);
      EarlierSnoc(g, src, w, w, rs[i], rs[j]);
    }
  }

  lemma {:induction false} KidsSorted(g: Graph, src: Version, ws: seq<Walk>, n: nat)
    requires WellFormed(g) && Sorted(g, src, ws) && AllWalks(g, src, ws, n)
    ensures Sorted(g, src, Kids(g, src, ws))
  {
    if ws != [] {
      var front, last := ws[..|ws| - 1], ws[|ws| - 1];
      KidsSorted(g, src, front, n);
      var rs := Exits(g, End(src, last));
      var kids, fork := Kids(g, src, front), Fork(last, rs);
      ForkSorted(g, src, last, rs);
      forall k, j | 0 <= k < |kids| && 0 <= j < |fork|
        ensures Earlier(g, src, kids[k], fork[j])
      {
        var i, r := KidOf(g, src, front, k);
        ForkAt(last, rs, j);
        EarlierSnoc(g, src, ws[i], last, r, rs[j]);
      }
      SortedConcat(g, src, kids, fork);
    }
  }

  lemma {:induction false} SortedConcat(g: Graph, src: Version, a: seq<Walk>, b: seq<Walk>)
    requires Sorted(g, src, a) && Sorted(g, src, b)
    requires forall i, j :: 0 <= i < |a| && 0 <= j < |b| ==> Earlier(g, src, a[i], b[j])
    ensures Sorted(g, src, a + b)
  {
    forall i, j | 0 <= i < j < |a + b|
      ensures Earlier(g, src, (a + b)[i], (a + b)[j])
    {
      assert (a + b)[i] == if i < |a| then a[i] else b[i - |a|];
      assert (a + b)[j] == if j < |a| then a[j] else b[j - |a|];
    }
  }

  lemma {:induction false} FindAt(vs: seq<Version>, i: nat)
    requires NoRepeat(vs) && i < |vs|
    ensures Find(vs, vs[i]) == i
  {
    var j := Find(vs, vs[i]);
    if j < i {
      NoRepeatApart(vs, j, i);
    }
  }

  /** A level holds only walks of its length, */
  lemma {:induction false} LevelHoldsWalks(g: Graph, src: Version, n: nat)
    ensures AllWalks(g, src, Level(g, src, n), n)
  {
    if n > 0 {
      LevelHoldsWalks(g, src, n - 1);
      KidsAreWalks(g, src, Level(g, src, n - 1), n - 1);
    }
  }

  /** all of them, */
  lemma {:induction false} LevelHoldsAll(g: Graph, src: Version, w: Walk) returns (k: nat)
    requires IsWalk(g, src, w)
    ensures k < |Level(g, src, |w|)| && Level(g, src, |w|)[k] == w
    decreases |w|
  {
    if w == [] {
      k := 0;
    } else {
      var n := |w| - 1;
      var p, r := w[..n], w[n];
      assert w == p + [r];
      WalkSnoc(g, src, p, r);
      var i := LevelHoldsAll(g, src, p);
      k := KidsAreAll(g, src, Level(g, src, n), i, r);
    }
  }

  /** and lists them in dictionary order. */
  lemma {:induction false} LevelIsSorted(g: Graph, src: Version, n: nat)
    requires WellFormed(g)
    ensures Sorted(g, src, Level(g, src, n))
  {
    if n > 0 {
      LevelIsSorted(g, src, n - 1);
      LevelHoldsWalks(g, src, n - 1);
      KidsSorted(g, src, Level(g, src, n - 1), n - 1);
    }
  }

  lemma {:induction false} EarlierAsymmetric(g: Graph, v: Version, a: Walk, b: Walk)
    requires Earlier(g, v, a, b)
    ensures !Earlier(g, v, b, a)
    decreases |a|
  {
    if a[0] == b[0] {
      EarlierAsymmetric(g, a[0], a[1..], b[1..]);
    }
  }

  /** In a level, whatever is not listed later is not earlier. */
  lemma {:induction false} ListedBefore(g: Graph, src: Version, level: seq<Walk>, i: nat, q: Walk) returns (j: nat)
    requires WellFormed(g) && IsWalk(g, src, q) && level == Level(g, src, |q|) && i < |level|
    ensures j < |level| && level[j] == q
    ensures j > i ==> Earlier(g, src, level[i], q)
    ensures Earlier(g, src, q, level[i]) ==> j < i
  {
    j := LevelHoldsAll(g, src, q);
    LevelIsSorted(g, src, |q|);
    if Earlier(g, src, q, level[i]) {
      EarlierAsymmetric(g, src, q, level[i]);
    }
  }

  // ---------------------------------------------------------------------------------------
  // The queue is always the rest of one level followed by the extensions of its beginning
  // ---------------------------------------------------------------------------------------

  ghost function Branches(src: Version, ws: seq<Walk>): (bs: seq<Branch>)
    ensures |bs| == |ws|
  {
    if ws == [] then []
    else
      var w := ws[|ws| - 1];
      Branches(src, ws[..|ws| - 1]) + [Branch(End(src, w), w)]
  }

  lemma {:induction false} BranchesConcat(src: Version, a: seq<Walk>, b: seq<Walk>)
    ensures Branches(src, a + b) == Branches(src, a) + Branches(src, b)
  {
    if b == [] {
      assert a + b == a;
    } else {
      BranchesConcat(src, a, b[..|b| - 1]);
      assert (a + b)[..|a + b| - 1] == a + b[..|b| - 1];
    }
  }

  lemma {:induction false} BranchesFirst(src: Version, ws: seq<Walk>)
    requires ws != []
    ensures Branches(src, ws)[0] == Branch(End(src, ws[0]), ws[0])
    ensures Branches(src, ws)[1..] == Branches(src, ws[1..])
  {
    assert ws == [ws[0]] + ws[1..];
    BranchesConcat(src, [ws[0]], ws[1..]);
    assert [ws[0]][..0] == [];
    assert Branches(src, [ws[0]]) == [Branch(End(src, ws[0]), ws[0])];
  }

  lemma {:induction false} BranchesOfFork(src: Version, x: Walk, rs: seq<Version>)
    ensures Branches(src, Fork(x, rs)) == Extensions(Branch(End(src, x), x), rs)
  {
    if rs != [] {
      var front, r := rs[..|rs| - 1], rs[|rs| - 1];
      BranchesOfFork(src, x, front);
      assert Fork(x, rs)[..|rs| - 1] == Fork(x, front);
    }
  }

  ghost function QueueAt(g: Graph, src: Version, taken: seq<Walk>, todo: seq<Walk>): seq<Branch> {
    Branches(src, todo + Kids(g, src, taken))
  }

  ghost predicate AllQuiet(g: Graph, src: Version, dst: Version, ws: seq<Walk>) {
    forall i :: 0 <= i < |ws| ==> Quiet(g, src, dst, ws[i])
  }

  ghost predicate QuietBelow(g: Graph, src: Version, dst: Version, n: nat) {
    n > 0 ==> AllQuiet(g, src, dst, Level(g, src, n - 1)) && QuietBelow(g, src, dst, n - 1)
  }

  /** The search has taken the walks of all levels below `n` and `taken` of level `n` off its
      queue, and they were all quiet; `todo`, the rest of the level, comes next. */
  ghost predicate At(g: Graph, src: Version, dst: Version, n: nat, taken: seq<Walk>, todo: seq<Walk>) {
    && taken + todo == Level(g, src, n) && todo != []
    && QuietBelow(g, src, dst, n) && AllQuiet(g, src, dst, taken)
  }

  lemma {:induction false} QuietBelowHolds(g: Graph, src: Version, dst: Version, n: nat, m: nat)
    requires QuietBelow(g, src, dst, n) && m < n
    ensures AllQuiet(g, src, dst, Level(g, src, m))
  {
    if m < n - 1 {
      QuietBelowHolds(g, src, dst, n - 1, m);
    }
  }

  lemma {:induction false} ShorterIsQuiet(g: Graph, src: Version, dst: Version, n: nat, w: Walk)
    requires QuietBelow(g, src, dst, n) && IsWalk(g, src, w) && |w| < n
    ensures Quiet(g, src, dst, w)
  {
    var k := LevelHoldsAll(g, src, w);
    QuietBelowHolds(g, src, dst, n, |w|);
  }

  lemma {:induction false} AtIsWalk(g: Graph, src: Version, dst: Version, n: nat, taken: seq<Walk>, todo: seq<Walk>)
    requires At(g, src, dst, n, taken, todo)
    ensures IsWalk(g, src, todo[0]) && |todo[0]| == n
  {
    LevelHoldsWalks(g, src, n);
    assert todo[0] == (taken + todo)[|taken|];
  }

  lemma {:induction false} FrontOfQueue(g: Graph, src: Version, taken: seq<Walk>, todo: seq<Walk>)
    requires todo != []
    ensures QueueAt(g, src, taken, todo) != []
    ensures QueueAt(g, src, taken, todo)[0] == Branch(End(src, todo[0]), todo[0])
  {
    BranchesFirst(src, todo + Kids(g, src, taken));
  }

  lemma {:induction false} KidsSnoc(g: Graph, src: Version, taken: seq<Walk>, x: Walk)
    ensures Kids(g, src, taken + [x]) == Kids(g, src, taken) + Fork(x, Exits(g, End(src, x)))
  {
    assert (taken + [x])[..|taken|] == taken;
  }

  /** The queue of the next walk: the front goes, its extensions come to the back. */
  lemma {:induction false} QueueMoves(g: Graph, src: Version, taken: seq<Walk>, todo: seq<Walk>)
    requires todo != []
    ensures QueueAt(g, src, taken, todo) != []
    ensures var x := todo[0];
            QueueAt(g, src, taken + [x], todo[1..]) ==
            QueueAt(g, src, taken, todo)[1..] + Extensions(Branch(End(src, x), x), Exits(g, End(src, x)))
  {
    var x, kids := todo[0], Kids(g, src, taken);
    var fork := Fork(x, Exits(g, End(src, x)));
    KidsSnoc(g, src, taken, x);
    Regroup(todo[1..], kids, fork);
    assert (todo + kids)[1..] == todo[1..] + kids;
    BranchesFirst(src, todo + kids);
    BranchesConcat(src, todo[1..] + kids, fork);
    BranchesOfFork(src, x, Exits(g, End(src, x)));
  }

  lemma {:induction false} NextInLevel(g: Graph, src: Version, dst: Version, taken: seq<Walk>, todo: seq<Walk>)
    requires todo != [] && Quiet(g, src, dst, todo[0])
    ensures Turn(g, dst, QueueAt(g, src, taken, todo)) == Running(QueueAt(g, src, taken + [todo[0]], todo[1..]))
  {
    FrontOfQueue(g, src, taken, todo);
    QueueMoves(g, src, taken, todo);
  }

  /** A level that is used up leaves the next level in the queue; it is not empty. */
  lemma {:induction false} NextLevel(g: Graph, src: Version, dst: Version, level: seq<Walk>)
    requires WellFormed(g) && level != [] && AllQuiet(g, src, dst, level)
    ensures Kids(g, src, level) != []
    ensures QueueAt(g, src, level, []) == QueueAt(g, src, [], Kids(g, src, level))
  {
    var kids := Kids(g, src, level);
    assert Quiet(g, src, dst, level[|level| - 1]);
    assert [] + kids == kids == kids + Kids(g, src, []);
  }

  lemma {:induction false} LevelDone(g: Graph, src: Version, dst: Version, n: nat, level: seq<Walk>)
    requires WellFormed(g) && level == Level(g, src, n) && level != []
    requires AllQuiet(g, src, dst, level) && QuietBelow(g, src, dst, n)
    ensures At(g, src, dst, n + 1, [], Kids(g, src, level))
    ensures QueueAt(g, src, level, []) == QueueAt(g, src, [], Kids(g, src, level))
  {
    NextLevel(g, src, dst, level);
    assert [] + Kids(g, src, level) == Kids(g, src, level);
  }

  lemma {:induction false} Take(g: Graph, src: Version, dst: Version, level: seq<Walk>, taken: seq<Walk>, todo: seq<Walk>)
    requires taken + todo == level && todo != []
    requires AllQuiet(g, src, dst, taken) && Quiet(g, src, dst, todo[0])
    ensures (taken + [todo[0]]) + todo[1..] == level
    ensures AllQuiet(g, src, dst, taken + [todo[0]])
    ensures |todo| == 1 ==> taken + [todo[0]] == level && todo[1..] == []
  {
  }

  /** The place reached when the walk at hand is taken. */
  lemma {:induction false} NextPlace(g: Graph, src: Version, dst: Version, n: nat, taken: seq<Walk>, todo: seq<Walk>)
      returns (m: nat, taken': seq<Walk>, todo': seq<Walk>)
    requires WellFormed(g) && At(g, src, dst, n, taken, todo)
    requires Quiet(g, src, dst, todo[0])
    ensures At(g, src, dst, m, taken', todo')
    ensures QueueAt(g, src, taken + [todo[0]], todo[1..]) == QueueAt(g, src, taken', todo')
    ensures (m == n && |todo'| < |todo|) || m == n + 1
  {
    var level := Level(g, src, n);
    Take(g, src, dst, level, taken, todo);
    if |todo| == 1 {
      LevelDone(g, src, dst, n, level);
      m, taken', todo' := n + 1, [], Kids(g, src, level);
    } else {
      m, taken', todo' := n, taken + [todo[0]], todo[1..];
    }
  }

  lemma {:induction false} OneTurn(g: Graph, src: Version, dst: Version, n: nat, taken: seq<Walk>, todo: seq<Walk>)
      returns (m: nat, taken': seq<Walk>, todo': seq<Walk>)
    requires WellFormed(g) && At(g, src, dst, n, taken, todo)
    requires Quiet(g, src, dst, todo[0])
    ensures At(g, src, dst, m, taken', todo')
    ensures Turn(g, dst, QueueAt(g, src, taken, todo)) == Running(QueueAt(g, src, taken', todo'))
    ensures (m == n && |todo'| < |todo|) || m == n + 1
  {
    NextInLevel(g, src, dst, taken, todo);
    m, taken', todo' := NextPlace(g, src, dst, n, taken, todo);
  }

  /** When the walk at hand is not quiet, this turn ends the search with the right answer. */
  lemma {:induction false} LastTurn(g: Graph, src: Version, dst: Version, n: nat, taken: seq<Walk>, todo: seq<Walk>)
    requires WellFormed(g) && src in g && src != dst && At(g, src, dst, n, taken, todo)
    requires !Quiet(g, src, dst, todo[0])
    ensures var t := Turn(g, dst, QueueAt(g, src, taken, todo)); t.Done? && Answers(g, src, dst, t.result)
  {
    FrontOfQueue(g, src, taken, todo);
    AtIsWalk(g, src, dst, n, taken, todo);
    var x := todo[0];
    forall q | IsWalk(g, src, q) && Sooner(g, src, q, x)
      ensures Quiet(g, src, dst, q)
    {
      SoonerIsQuiet(g, src, dst, n, taken, todo, q);
    }
    if End(src, x) !in g {
      assert FirstMissing(g, src, dst, x);
    } else {
      FoundIsFirst(g, src, dst, n, x);
      assert (x + [dst])[..|x|] == x;
    }
  }

  lemma {:induction false} SoonerIsQuiet(g: Graph, src: Version, dst: Version, n: nat, taken: seq<Walk>, todo: seq<Walk>, q: Walk)
    requires WellFormed(g) && At(g, src, dst, n, taken, todo)
    requires IsWalk(g, src, q) && Sooner(g, src, q, todo[0])
    ensures Quiet(g, src, dst, q)
  {
    AtIsWalk(g, src, dst, n, taken, todo);
    var level := taken + todo;
    if |q| == n {
      var j := ListedBefore(g, src, level, |taken|, q);
      assert level[j] == taken[j];
    } else {
      ShorterIsQuiet(g, src, dst, n, q);
    }
  }

  /** A walk that leads to the target leaves a walk that is not quiet. */
  lemma {:induction false} ParentIsNotQuiet(g: Graph, src: Version, dst: Version, q: Walk)
    requires WellFormed(g) && IsWalk(g, src, q) && q != [] && End(src, q) == dst
    ensures var p := q[..|q| - 1];
            IsWalk(g, src, p) && !Quiet(g, src, dst, p) && End(src, p) in g && q[|q| - 1] in g[End(src, p)]
  {
    var p, r := q[..|q| - 1], q[|q| - 1];
    assert q == p + [r];
    WalkSnoc(g, src, p, r);
    var rs := g[End(src, p)];
    var k :| 0 <= k < |rs| && rs[k] == r;
    FindAt(rs, k);
  }

  lemma {:induction false} FoundIsFirst(g: Graph, src: Version, dst: Version, n: nat, x: Walk)
    requires WellFormed(g) && src != dst && IsWalk(g, src, x) && End(src, x) in g && !Quiet(g, src, dst, x)
    requires forall q :: IsWalk(g, src, q) && Sooner(g, src, q, x) ==> Quiet(g, src, dst, q)
    ensures FirstShortest(g, src, dst, x + [dst])
  {
    var p := x + [dst];
    WalkSnoc(g, src, x, dst);
    forall q | IsWalk(g, src, q) && End(src, q) == dst && q != p
      ensures Sooner(g, src, p, q)
    {
      ParentIsNotQuiet(g, src, dst, q);
      var q' := q[..|q| - 1];
      assert q == q' + [dst];
      if |q'| == |x| {
        EarlierTotal(g, src, q', x);
        EarlierSnoc(g, src, x, q', dst, dst);
      }
    }
  }

  // ---------------------------------------------------------------------------------------
  // Any number of turns
  // ---------------------------------------------------------------------------------------

  lemma {:induction false} TurnsOnce(g: Graph, dst: Version, queue: seq<Branch>, next: seq<Branch>, n: nat)
    requires n > 0 && Turn(g, dst, queue) == Running(next)
    ensures Turns(g, dst, queue, n) == Turns(g, dst, next, n - 1)
  {
  }

  lemma {:induction false} TurnsEndAt(g: Graph, src: Version, dst: Version, taken: seq<Walk>, todo: seq<Walk>, n: nat)
    requires WellFormed(g) && todo != [] && !Quiet(g, src, dst, todo[0]) && n > 0
    ensures Turns(g, dst, QueueAt(g, src, taken, todo), n).Done?
    ensures Turns(g, dst, QueueAt(g, src, taken, todo), n) == Turn(g, dst, QueueAt(g, src, taken, todo))
  {
    FrontOfQueue(g, src, taken, todo);
  }

  lemma {:induction false} TurnsGo(g: Graph, src: Version, dst: Version, n: nat, taken: seq<Walk>, todo: seq<Walk>, turns: nat)
      returns (m: nat, taken': seq<Walk>, todo': seq<Walk>)
    requires WellFormed(g) && At(g, src, dst, n, taken, todo) && Quiet(g, src, dst, todo[0]) && turns > 0
    ensures At(g, src, dst, m, taken', todo')
    ensures Turns(g, dst, QueueAt(g, src, taken, todo), turns) == Turns(g, dst, QueueAt(g, src, taken', todo'), turns - 1)
  {
    m, taken', todo' := OneTurn(g, src, dst, n, taken, todo);
    TurnsOnce(g, dst, QueueAt(g, src, taken, todo), QueueAt(g, src, taken', todo'), turns);
  }

  /** A search that has ended ended in a turn on a walk that is not quiet. */
  lemma {:induction false} TurnsReach(g: Graph, src: Version, dst: Version, n: nat, taken: seq<Walk>, todo: seq<Walk>,
                                      turns: nat, answer: Search)
      returns (m: nat, taken': seq<Walk>, todo': seq<Walk>)
    requires WellFormed(g) && At(g, src, dst, n, taken, todo)
    requires Turns(g, dst, QueueAt(g, src, taken, todo), turns) == answer && answer.Done?
    ensures At(g, src, dst, m, taken', todo') && !Quiet(g, src, dst, todo'[0])
    ensures Turn(g, dst, QueueAt(g, src, taken', todo')) == answer
    decreases turns
  {
    if Quiet(g, src, dst, todo[0]) {
      m, taken', todo' := TurnsGo(g, src, dst, n, taken, todo, turns);
      m, taken', todo' := TurnsReach(g, src, dst, m, taken', todo', turns - 1, answer);
    } else {
      TurnsEndAt(g, src, dst, taken, todo, turns);
      m, taken', todo' := n, taken, todo;
    }
  }

  /** Towards an ending walk: the level cannot grow past its length. */
  lemma {:induction false} TurnsEnd(g: Graph, src: Version, dst: Version, n: nat, taken: seq<Walk>, todo: seq<Walk>, w: Walk)
      returns (turns: nat)
    requires WellFormed(g) && src != dst && Ending(g, src, dst, w)
    requires At(g, src, dst, n, taken, todo)
    ensures Turns(g, dst, QueueAt(g, src, taken, todo), turns).Done?
    decreases |w| - n, |todo|
  {
    if Quiet(g, src, dst, todo[0]) {
      var m, taken', todo' := OneTurn(g, src, dst, n, taken, todo);
      EndingBounds(g, src, dst, m, w);
      var more := TurnsEnd(g, src, dst, m, taken', todo', w);
      TurnsOnce(g, dst, QueueAt(g, src, taken, todo), QueueAt(g, src, taken', todo'), more + 1);
      turns := more + 1;
    } else {
      TurnsEndAt(g, src, dst, taken, todo, 1);
      turns := 1;
    }
  }

  lemma {:induction false} EndingBounds(g: Graph, src: Version, dst: Version, n: nat, w: Walk)
    requires WellFormed(g) && src != dst && Ending(g, src, dst, w) && QuietBelow(g, src, dst, n)
    ensures n <= |w|
  {
    if |w| < n {
      ShorterIsQuiet(g, src, dst, n, w);
      ParentIsNotQuiet(g, src, dst, w);
      ShorterIsQuiet(g, src, dst, n, w[..|w| - 1]);
    }
  }

  lemma {:induction false} NeverEndingIsQuiet(g: Graph, src: Version, dst: Version, x: Walk)
    requires !Stops(g, src, dst) && IsWalk(g, src, x)
    ensures Quiet(g, src, dst, x)
  {
    assert !Ending(g, src, dst, x);
    var rs := g[End(src, x)];
    if Find(rs, dst) < |rs| {
      var r := rs[Find(rs, dst)];
      WalkSnoc(g, src, x, r);
      assert Ending(g, src, dst, x + [r]);
    }
  }

  /** Where no walk ends the search, no number of turns does. */
  lemma {:induction false} TurnsGoOn(g: Graph, src: Version, dst: Version, n: nat, taken: seq<Walk>, todo: seq<Walk>, turns: nat)
    requires WellFormed(g) && !Stops(g, src, dst) && At(g, src, dst, n, taken, todo)
    ensures Turns(g, dst, QueueAt(g, src, taken, todo), turns).Running?
  {
    var t := Turns(g, dst, QueueAt(g, src, taken, todo), turns);
    if t.Done? {
      var m, taken', todo' := TurnsReach(g, src, dst, n, taken, todo, turns, t);
      AtIsWalk(g, src, dst, m, taken', todo');
      NeverEndingIsQuiet(g, src, dst, todo'[0]);
      assert false;
    }
  }

  lemma StartOfQueue(g: Graph, src: Version, dst: Version)
    ensures At(g, src, dst, 0, [], [[]])
    ensures QueueAt(g, src, [], [[]]) == [Branch(src, [])]
  {
    var todo: seq<Walk> := [[]];
    assert [] + todo == todo == todo + Kids(g, src, []);
  }

  /** The search ends exactly when some walk from the source reaches the target or a version
      that starts no recipe: with a cycle and neither, every number of turns leaves it running. */
  lemma SearchStopsIff(g: Graph, src: Version, dst: Version)
    requires WellFormed(g)
    ensures (exists n: nat :: Begin(g, src, dst, n).Done?) <==> Stops(g, src, dst)
  {
    if src != dst && src in g {
      StartOfQueue(g, src, dst);
      if Stops(g, src, dst) {
        var w :| Ending(g, src, dst, w);
        var n := TurnsEnd(g, src, dst, 0, [], [[]], w);
        assert Begin(g, src, dst, n).Done?;
      } else {
        forall n: nat
          ensures Begin(g, src, dst, n).Running?
        {
          TurnsGoOn(g, src, dst, 0, [], [[]], n);
        }
      }
    } else {
      assert Begin(g, src, dst, 0).Done?;
    }
  }

  /** Whatever the search answers means what `Answers` says. */
  lemma SearchAnswers(g: Graph, src: Version, dst: Version, n: nat)
    requires WellFormed(g)
    ensures var t := Begin(g, src, dst, n); t.Done? ==> Answers(g, src, dst, t.result)
  {
    if src != dst && src in g {
      StartOfQueue(g, src, dst);
      if Begin(g, src, dst, n).Done? {
        var m, taken, todo := TurnsReach(g, src, dst, 0, [], [[]], n, Begin(g, src, dst, n));
        LastTurn(g, src, dst, m, taken, todo);
      }
    }
  }

  lemma {:induction false} EarlierTotal(g: Graph, v: Version, a: Walk, b: Walk)
    requires WellFormed(g) && IsWalk(g, v, a) && IsWalk(g, v, b) && |a| == |b| && a != b
    ensures Earlier(g, v, a, b) || Earlier(g, v, b, a)
    decreases |a|
  {
    if a[0] == b[0] {
      assert a == [a[0]] + a[1..] && b == [b[0]] + b[1..];
      EarlierTotal(g, a[0], a[1..], b[1..]);
    } else {
      var rs := g[v];
      var i :| 0 <= i < |rs| && rs[i] == a[0];
      var j :| 0 <= j < |rs| && rs[j] == b[0];
      FindAt(rs, i);
      FindAt(rs, j);
    }
  }

  /** A path and a missing entry cannot both be right. */
  lemma PathBeatsMissing(g: Graph, src: Version, dst: Version, p: Walk, w: Walk)
    requires WellFormed(g) && src != dst
    requires FirstShortest(g, src, dst, p) && EntriesBefore(g, src, p)
    ensures !FirstMissing(g, src, dst, w)
  {
    ParentIsNotQuiet(g, src, dst, p);
    var parent := p[..|p| - 1];
    if IsWalk(g, src, w) && w != parent && |w| == |parent| {
      EarlierTotal(g, src, w, parent);
    }
  }

  /** There is one right answer at most. */
  lemma AnswerIsUnique(g: Graph, src: Version, dst: Version, a: PathResult, b: PathResult)
    requires WellFormed(g) && Answers(g, src, dst, a) && Answers(g, src, dst, b)
    ensures a == b
  {
    if a.Path? && b.Path? {
      if a.upgrades != b.upgrades && |a.upgrades| == |b.upgrades| {
        EarlierAsymmetric(g, src, a.upgrades, b.upgrades);
      }
    } else if a.Path? && b.MissingEntry? {
      var w :| FirstMissing(g, src, dst, w);
      PathBeatsMissing(g, src, dst, a.upgrades, w);
    } else if b.Path? && a.MissingEntry? {
      var w :| FirstMissing(g, src, dst, w);
      PathBeatsMissing(g, src, dst, b.upgrades, w);
    }
  }

  lemma ExtensionsSnoc(b: Branch, vs: seq<Version>, i: nat)
    requires i < |vs|
    ensures Extensions(b, vs[..i + 1]) == Extensions(b, vs[..i]) + [Branch(vs[i], b.upgrades + [vs[i]])]
  {
    assert vs[..i + 1] == vs[..i] + [vs[i]];
  }

  lemma FindIsNext(vs: seq<Version>, dst: Version, i: nat)
    requires i < |vs| && i <= Find(vs, dst)
    ensures Find(vs, dst) == i <==> vs[i] == dst
  {
  }

  lemma TurnsMove(g: Graph, dst: Version, queue: seq<Branch>, left: nat)
    requires queue != [] && queue[0].version in g && left > 0
    requires Find(g[queue[0].version], dst) == |g[queue[0].version]|
    ensures Turns(g, dst, queue, left) == Turns(g, dst, queue[1..] + Extensions(queue[0], g[queue[0].version]), left - 1)
  {
  }

  lemma SearchEnds(g: Graph, src: Version, dst: Version) returns (turns: nat)
    requires WellFormed(g) && Stops(g, src, dst)
    ensures Begin(g, src, dst, turns).Done? && Answers(g, src, dst, Begin(g, src, dst, turns).result)
  {
    SearchStopsIff(g, src, dst);
    turns :| Begin(g, src, dst, turns).Done?;
    SearchAnswers(g, src, dst, turns);
  }

  /** `UpgradeRecipe.build_upgrade_path`. When no walk reaches the target or a version without
      an entry the loop never ends (`SearchStopsIff`), so there is nothing to return. */
  method BuildUpgradePath(g: Graph, src: Version, dst: Version) returns (r: PathResult)
    requires WellFormed(g) && Stops(g, src, dst)
    ensures Answers(g, src, dst, r)
  {
    if src == dst {
      return Path([]);
    }
    if src !in g {
      return UnknownVersion;
    }
    ghost var left := SearchEnds(g, src, dst);
    ghost var answer := Begin(g, src, dst, left);
    var queue := [Branch(src, [])];
    while queue != []
      invariant Turns(g, dst, queue, left) == answer
      decreases left
    {
      ghost var now := queue;
      var branch := queue[0];
      queue := queue[1..];
      if branch.version !in g {
        return MissingEntry;
      }
      var targets := g[branch.version];
      ghost var rest := queue;
      for i := 0 to |targets|
        invariant i <= Find(targets, dst)
        invariant queue == rest + Extensions(branch, targets[..i])
      {
        ExtensionsSnoc(branch, targets, i);
        FindIsNext(targets, dst, i);
        var upgrades := branch.upgrades + [targets[i]];
        if targets[i] == dst {
          return Path(upgrades);
        }
        queue := queue + [Branch(targets[i], upgrades)];
      }
      assert targets[..|targets|] == targets;
      TurnsMove(g, dst, now, left);
      left := left - 1;
    }
    return NothingFound;
  }

  // ---------------------------------------------------------------------------------------
  // Searching again from inside an answer
  // ---------------------------------------------------------------------------------------

  lemma {:induction false} WalkCons(g: Graph, u: Version, src: Version, w: Walk)
    requires src in g && u in g[src]
    ensures IsWalk(g, src, [u] + w) <==> IsWalk(g, u, w)
    ensures End(src, [u] + w) == End(u, w)
  {
    assert ([u] + w)[1..] == w;
  }

  lemma {:induction false} SoonerCons(g: Graph, u: Version, src: Version, a: Walk, b: Walk)
    requires src in g && u in g[src]
    ensures Sooner(g, src, [u] + a, [u] + b) <==> Sooner(g, u, a, b)
  {
    assert ([u] + a)[1..] == a && ([u] + b)[1..] == b;
  }

  /** If the search answers `u` and then `rest`, searching from where `u` leads stops and
      answers `rest`: a run that is resumed after `u` takes the same targets. */
  lemma ResumeIsStable(g: Graph, src: Version, dst: Version, u: Version, rest: Walk)
    requires WellFormed(g) && Answers(g, src, dst, Path([u] + rest))
    ensures Stops(g, u, dst)
    ensures Answers(g, u, dst, Path(rest))
  {
    var p := [u] + rest;
    WalkCons(g, u, src, rest);
    forall q | IsWalk(g, u, q) && End(u, q) == dst && q != rest
      ensures Sooner(g, u, rest, q)
    {
      WalkCons(g, u, src, q);
      assert ([u] + q)[1..] == q && p[1..] == rest;
      SoonerCons(g, u, src, rest, q);
    }
    if rest != [] {
      var parent := rest[..|rest| - 1];
      assert p[..|p| - 1] == [u] + parent;
      forall w | IsWalk(g, u, w) && (w == parent || Sooner(g, u, w, parent))
        ensures End(u, w) in g
      {
        WalkCons(g, u, src, w);
        SoonerCons(g, u, src, w, parent);
      }
    }
    assert Ending(g, u, dst, rest);
  }

  lemma {:induction false} WalkConcat(g: Graph, src: Version, a: Walk, b: Walk)
    ensures IsWalk(g, src, a + b) <==> IsWalk(g, src, a) && IsWalk(g, End(src, a), b)
    ensures End(src, a + b) == End(End(src, a), b)
    decreases |a|
  {
    if a == [] {
      assert a + b == b;
    } else {
      assert (a + b)[1..] == a[1..] + b;
      WalkConcat(g, a[0], a[1..], b);
    }
  }

  /** The versions an answer leads through are pairwise distinct and differ from the source:
      between two places of an answer the version changes. */
  lemma {:induction false} AnswerVisitsOnce(g: Graph, src: Version, dst: Version, a: Walk, b: Walk, c: Walk)
    requires FirstShortest(g, src, dst, a + b + c) && b != []
    ensures End(src, a) != End(src, a + b)
  {
    WalkConcat(g, src, a + b, c);
    WalkConcat(g, src, a, b);
    WalkConcat(g, src, a, c);
  }
}
