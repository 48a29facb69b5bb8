/** The roles of a community and what they are allowed (b2share/modules/communities/models.py), and
    adding rows that may be there already (b2share/utils.py). */
module RoleRepair {
  import opened Options
  import opened Needs
  import opened Permissions
  import opened RoleNames
  import opened Sequences
  import VersionChains

  // ---------------------------------------------------------------------------------------
  // Adding rows
  // ---------------------------------------------------------------------------------------

  function Count(rows: seq<Row>, row: Row): nat {
    if rows == [] then 0
    else Count(rows[..|rows| - 1], row) + if rows[|rows| - 1] == row then 1 else 0
  }

  /** The unique key of the table. As in SQL, rows without an argument may repeat. */
  ghost predicate UniqueKey(rows: seq<Row>) {
    forall row: Row :: row.argument.Some? ==> Count(rows, row) <= 1
  }

  /** `add_to_db`. When repairing it first looks the row up, and fails on finding two; otherwise
      it inserts the row, which fails when the unique key is broken. */
  function AddRow(rows: seq<Row>, row: Row, fix: bool): Option<seq<Row>> {
    if fix then
      if Count(rows, row) > 1 then None else if Count(rows, row) == 1 then Some(rows) else Some(rows + [row])
    else if row.argument.Some? && Count(rows, row) > 0 then None
    else Some(rows + [row])
  }

  function AddRows(rows: seq<Row>, wanted: seq<Row>, fix: bool): Option<seq<Row>> {
    if wanted == [] then Some(rows)
    else
      match AddRows(rows, wanted[..|wanted| - 1], fix)
      case None => None
      case Some(now) => AddRow(now, wanted[|wanted| - 1], fix)
  }

  lemma {:induction false} CountPlus(a: seq<Row>, b: seq<Row>, row: Row)
    ensures Count(a + b, row) == Count(a, row) + Count(b, row)
  {
    if b == [] {
      assert a + b == a;
    } else {
      CountPlus(a, b[..|b| - 1], row);
      assert (a + b)[..|a + b| - 1] == a + b[..|b| - 1];
    }
  }

  lemma {:induction false} CountOne(row: Row, x: Row)
    ensures Count([row], x) == if x == row then 1 else 0
  {
    assert [row][..0] == [];
    assert Count([], x) == 0;
  }

  lemma {:induction false} CountIn(rows: seq<Row>, row: Row)
    ensures Count(rows, row) > 0 <==> row in rows
  {
    if rows != [] {
      CountIn(rows[..|rows| - 1], row);
      assert rows == rows[..|rows| - 1] + [rows[|rows| - 1]];
    }
  }

  /** A repair leaves every wanted row there exactly once, every other row as often as it was, and
      all old rows first and in their order. */
  lemma {:induction false} RepairCounts(rows: seq<Row>, wanted: seq<Row>, row: Row)
    requires AddRows(rows, wanted, true).Some?
    ensures var now := AddRows(rows, wanted, true).value;
            rows <= now && Count(now, row) == if row in wanted then 1 else Count(rows, row)
  {
    if wanted != [] {
      var front, last := wanted[..|wanted| - 1], wanted[|wanted| - 1];
      assert wanted == front + [last];
      var before := AddRows(rows, front, true).value;
      RepairCounts(rows, front, row);
      CountPlus(before, [last], row);
      CountOne(last, row);
    }
  }

  /** A repair fails only when some wanted row is already there twice. */
  lemma {:induction false} RepairSucceedsIff(rows: seq<Row>, wanted: seq<Row>)
    ensures AddRows(rows, wanted, true).Some? <==> forall row :: row in wanted ==> Count(rows, row) <= 1
  {
    if wanted != [] {
      var front, last := wanted[..|wanted| - 1], wanted[|wanted| - 1];
      assert wanted == front + [last];
      RepairSucceedsIff(rows, front);
      if AddRows(rows, front, true).Some? {
        RepairCounts(rows, front, last);
        assert last in wanted;
      } else {
        var row :| row in front && Count(rows, row) > 1;
        assert row in wanted;
      }
    }
  }

  lemma {:induction false} NothingToAdd(rows: seq<Row>, wanted: seq<Row>)
    requires forall row :: row in wanted ==> Count(rows, row) == 1
    ensures AddRows(rows, wanted, true) == Some(rows)
  {
    if wanted != [] {
      var front, last := wanted[..|wanted| - 1], wanted[|wanted| - 1];
      assert wanted == front + [last];
      NothingToAdd(rows, front);
      assert last in wanted;
    }
  }

  /** Repairing twice is repairing once, and keeps the unique key. */
  lemma {:induction false} RepairConverges(rows: seq<Row>, wanted: seq<Row>)
    requires AddRows(rows, wanted, true).Some?
    ensures AddRows(AddRows(rows, wanted, true).value, wanted, true) == AddRows(rows, wanted, true)
    ensures UniqueKey(rows) ==> UniqueKey(AddRows(rows, wanted, true).value)
  {
    var now := AddRows(rows, wanted, true).value;
    forall row
      ensures Count(now, row) == if row in wanted then 1 else Count(rows, row)
    {
      RepairCounts(rows, wanted, row);
    }
    NothingToAdd(now, wanted);
  }

  /** Where nothing wanted is there yet, inserting and repairing do the same. */
  lemma {:induction false} InsertFresh(rows: seq<Row>, wanted: seq<Row>, fix: bool)
    requires NoRepeat(wanted) && forall row :: row in wanted ==> Count(rows, row) == 0
    ensures AddRows(rows, wanted, fix) == Some(rows + wanted)
  {
    if wanted == [] {
      assert rows + wanted == rows;
    } else {
      var front, last := wanted[..|wanted| - 1], wanted[|wanted| - 1];
      assert wanted == front + [last];
      InsertFresh(rows, front, fix);
      assert last in wanted && last !in front;
      CountPlus(rows, front, last);
      CountIn(front, last);
      assert rows + wanted == rows + front + [last];
    }
  }

  // ---------------------------------------------------------------------------------------
  // The needs of a community's roles
  // ---------------------------------------------------------------------------------------

  /** The members' need first, then those only administrators have, all but the last. */
  function ActionAt(i: nat): string {
    match i
    case 0 => "create-deposit"
    case 1 => "read-deposit"
    case 2 => "read-deposit"
    case 3 => "update-deposit-metadata"
    case 4 => "update-deposit-publication-state"
    case 5 => "update-deposit-publication-state"
    case 6 => "update-record-metadata"
    case _ => "assign_role"
  }

  function InState(c: string, state: string): Arguments {
    map["community" := Some(c), "publication_state" := Some(state)]
  }

  function ArgumentsAt(c: string, i: nat): Arguments {
    match i
    case 0 => InState(c, "draft")
    case 1 => InState(c, "submitted")
    case 2 => InState(c, "published")
    case 3 => InState(c, "submitted")
    case 4 => StateArguments(c, VersionChains.Submitted, VersionChains.Published)
    case 5 => StateArguments(c, VersionChains.Submitted, VersionChains.Draft)
    case 6 => map["community" := Some(c)]
    case _ => map["community" := Some(c), "role" := Some("None")]
  }

  const SEARCH: Need := Need("accounts-search", None)

  function NeedAt(c: string, i: nat): Need {
    if i < 8 then NeedFactory(ActionAt(i), ArgumentsAt(c, i)) else SEARCH
  }

  function MemberNeeds(c: string): seq<Need> {
    [NeedAt(c, 0)]
  }

  /** The needs of administrators, the members' included. */
  function AdminNeeds(c: string): seq<Need> {
    seq(9, i requires 0 <= i < 9 => NeedAt(c, i))
  }

  function Allow(needs: seq<Need>, role: int): seq<Row> {
    seq(|needs|, i requires 0 <= i < |needs| => Row(needs[i].action, needs[i].argument, Role(role), false))
  }

  function Wanted(c: string, admin: int, member: int): seq<Row> {
    Allow(MemberNeeds(c), member) + Allow(AdminNeeds(c), admin)
  }

  lemma {:induction false} ArgumentsNotEmpty(c: string, i: nat)
    ensures ArgumentsAt(c, i) != map[]
  {
    assert "community" in ArgumentsAt(c, i);
  }

  lemma {:induction false} SameActionDiffers(c: string)
    ensures ArgumentsAt(c, 1) != ArgumentsAt(c, 2)
    ensures ArgumentsAt(c, 4) != ArgumentsAt(c, 5)
  {
    assert "submitted"[0] != "published"[0];
    assert ArgumentsAt(c, 1)["publication_state"] != ArgumentsAt(c, 2)["publication_state"];
    SameArguments(c, VersionChains.Submitted, VersionChains.Published, c, VersionChains.Submitted, VersionChains.Draft);
  }

  lemma {:induction false} ActionsDiffer(i: nat, j: nat)
    requires i < j < 8 && (i, j) != (1, 2) && (i, j) != (4, 5)
    ensures ActionAt(i) != ActionAt(j)
  {
    assert |ActionAt(i)| != |ActionAt(j)|;
  }

  lemma {:induction false} NeedsDiffer(c: string, i: nat, j: nat)
    requires i < j < 9
    ensures NeedAt(c, i) != NeedAt(c, j)
  {
    if j == 8 {
      ArgumentsNotEmpty(c, i);
    } else {
      NeedsEqualIff(ActionAt(i), ArgumentsAt(c, i), ActionAt(j), ArgumentsAt(c, j));
      if (i, j) == (1, 2) || (i, j) == (4, 5) {
        SameActionDiffers(c);
      } else {
        ActionsDiffer(i, j);
      }
    }
  }

  lemma {:induction false} AdminNeedsDistinct(c: string)
    ensures NoRepeat(AdminNeeds(c))
  {
    forall i, j | 0 <= i < j < 9
      ensures AdminNeeds(c)[i] != AdminNeeds(c)[j]
    {
      NeedsDiffer(c, i, j);
    }
    ApartNoRepeat(AdminNeeds(c));
  }

  lemma {:induction false} AllowDistinct(needs: seq<Need>, role: int)
    requires NoRepeat(needs)
    ensures NoRepeat(Allow(needs, role))
  {
    var rows := Allow(needs, role);
    forall i, j | 0 <= i < j < |rows|
      ensures rows[i] != rows[j]
    {
      NoRepeatApart(needs, i, j);
    }
    ApartNoRepeat(rows);
  }

  lemma {:induction false} WantedDistinct(c: string, admin: int, member: int)
    requires admin != member
    ensures NoRepeat(Wanted(c, admin, member))
  {
    AdminNeedsDistinct(c);
    AllowDistinct(AdminNeeds(c), admin);
    assert NoRepeat(MemberNeeds(c)) by {
      ApartNoRepeat(MemberNeeds(c));
    }
    AllowDistinct(MemberNeeds(c), member);
    NoRepeatConcat(Allow(MemberNeeds(c), member), Allow(AdminNeeds(c), admin));
  }

  // ---------------------------------------------------------------------------------------
  // Creating and repairing a community's roles
  // ---------------------------------------------------------------------------------------

  /** The roles, by their unique names, and the rows that allow them something. */
  datatype Accounts = Accounts(roles: map<string, int>, rows: seq<Row>)

  /** Ids are unique, rows speak of existing roles, and the rows keep their unique key. */
  ghost predicate Consistent(a: Accounts) {
    && (forall n, m :: n in a.roles && m in a.roles && a.roles[n] == a.roles[m] ==> n == m)
    && (forall row :: row in a.rows && row.grantee.Role? ==> row.grantee.id in a.roles.Values)
    && UniqueKey(a.rows)
  }

  function RoleId(roles: map<string, int>, name: string, id: int): int {
    if name in roles then roles[name] else id
  }

  /** `create_roles_and_permissions`; `admin` and `member` are the ids new rows would get. */
  function CreateRoles(a: Accounts, community: nat, admin: int, member: int, fix: bool): Option<Accounts> {
    var adminName, memberName := RoleName(community, "admin"), RoleName(community, "member");
    if !fix && (adminName in a.roles || memberName in a.roles) then None
    else
      var adminId, memberId := RoleId(a.roles, adminName, admin), RoleId(a.roles, memberName, member);
      match AddRows(a.rows, Wanted(UuidText(community), adminId, memberId), fix)
      case None => None
      case Some(rows) => Some(Accounts(a.roles[adminName := adminId][memberName := memberId], rows))
  }

  lemma {:induction false} NamesDiffer(community: nat)
    requires community < Power(32)
    ensures RoleName(community, "admin") != RoleName(community, "member")
  {
    RoleNamesEqualIff(community, "admin", community, "member");
  }

  /** Only the row for searching accounts has no argument, so only it can be there twice. */
  lemma {:induction false} OnlySearchRepeats(rows: seq<Row>, c: string, admin: int, member: int)
    requires UniqueKey(rows)
    ensures (forall row :: row in Wanted(c, admin, member) ==> Count(rows, row) <= 1) <==>
              Count(rows, Row(SEARCH.action, None, Role(admin), false)) <= 1
  {
    var wanted := Wanted(c, admin, member);
    var search := Row(SEARCH.action, None, Role(admin), false);
    assert wanted[9] == search;
    forall row | row in wanted
      ensures row == search || row.argument.Some?
    {
      var i :| 0 <= i < |wanted| && wanted[i] == row;
      if i < 9 {
        WantedArgument(c, admin, member, i);
      }
    }
  }

  lemma {:induction false} WantedArgument(c: string, admin: int, member: int, i: nat)
    requires i < 9
    ensures |Wanted(c, admin, member)| == 10 && Wanted(c, admin, member)[i].argument.Some?
  {
    var k := if i == 0 then 0 else i - 1;
    ArgumentsNotEmpty(c, k);
    assert Wanted(c, admin, member)[i].argument == NeedAt(c, k).argument;
  }

  /** Repairing the roles of a community fails exactly when two rows allow its administrators to
      search accounts. */
  lemma {:induction false} RepairIff(a: Accounts, community: nat, admin: int, member: int)
    requires Consistent(a)
    ensures CreateRoles(a, community, admin, member, true).Some? <==>
              Count(a.rows, Row(SEARCH.action, None, Role(RoleId(a.roles, RoleName(community, "admin"), admin)), false)) <= 1
  {
    var adminId := RoleId(a.roles, RoleName(community, "admin"), admin);
    var memberId := RoleId(a.roles, RoleName(community, "member"), member);
    RepairSucceedsIff(a.rows, Wanted(UuidText(community), adminId, memberId));
    OnlySearchRepeats(a.rows, UuidText(community), adminId, memberId);
  }

  /** A consistent table that cannot be repaired: SQL lets the row without an argument in twice. */
  lemma {:induction false} TwoSearchRowsBlockRepair(community: nat, admin: int, member: int)
    requires community < Power(32) && admin != member
    ensures var search := Row(SEARCH.action, None, Role(admin), false);
            var roles := map[RoleName(community, "admin") := admin, RoleName(community, "member") := member];
            var a := Accounts(roles, [search, search]);
            Consistent(a) && CreateRoles(a, community, admin, member, true).None?
  {
    NamesDiffer(community);
    var search := Row(SEARCH.action, None, Role(admin), false);
    var roles := map[RoleName(community, "admin") := admin, RoleName(community, "member") := member];
    var a := Accounts(roles, [search, search]);
    assert roles[RoleName(community, "admin")] == admin;
    forall row: Row
      ensures Count([search, search], row) == if row == search then 2 else 0
    {
      assert [search, search] == [search] + [search];
      CountPlus([search], [search], row);
      CountOne(search, row);
    }
    RepairIff(a, community, admin, member);
  }

  /** A repair adds the roles that are missing, keeps all rows and the unique key, and leaves every
      wanted row there once and every other as often as it was. */
  lemma {:induction false} RepairAdds(a: Accounts, community: nat, admin: int, member: int, row: Row)
    requires Consistent(a) && CreateRoles(a, community, admin, member, true).Some?
    ensures var adminName, memberName := RoleName(community, "admin"), RoleName(community, "member");
            var adminId, memberId := RoleId(a.roles, adminName, admin), RoleId(a.roles, memberName, member);
            var now := CreateRoles(a, community, admin, member, true).value;
            && now.roles == a.roles[adminName := adminId][memberName := memberId]
            && a.rows <= now.rows && UniqueKey(now.rows)
            && Count(now.rows, row) == if row in Wanted(UuidText(community), adminId, memberId) then 1 else Count(a.rows, row)
  {
    var adminId := RoleId(a.roles, RoleName(community, "admin"), admin);
    var memberId := RoleId(a.roles, RoleName(community, "member"), member);
    var wanted := Wanted(UuidText(community), adminId, memberId);
    RepairCounts(a.rows, wanted, row);
    RepairConverges(a.rows, wanted);
  }

  lemma {:induction false} RolesStay(roles: map<string, int>, n: string, m: string, x: int, y: int, x': int, y': int)
    requires n != m
    ensures var now := roles[n := x][m := y];
            RoleId(now, n, x') == x && RoleId(now, m, y') == y && now[n := x][m := y] == now
  {
  }

  /** A second repair changes nothing. */
  lemma {:induction false} RepairTwice(a: Accounts, community: nat, admin: int, member: int, admin': int, member': int)
    requires community < Power(32) && CreateRoles(a, community, admin, member, true).Some?
    ensures var now := CreateRoles(a, community, admin, member, true);
            CreateRoles(now.value, community, admin', member', true) == now
  {
    var adminName, memberName := RoleName(community, "admin"), RoleName(community, "member");
    NamesDiffer(community);
    var adminId, memberId := RoleId(a.roles, adminName, admin), RoleId(a.roles, memberName, member);
    RepairConverges(a.rows, Wanted(UuidText(community), adminId, memberId));
    RolesStay(a.roles, adminName, memberName, adminId, memberId, admin', member');
  }

  lemma {:induction false} NoRowsOfNewRole(a: Accounts, row: Row)
    requires Consistent(a) && row.grantee.Role? && row.grantee.id !in a.roles.Values
    ensures Count(a.rows, row) == 0
  {
    CountIn(a.rows, row);
  }

  lemma {:induction false} NoneWantedYet(a: Accounts, c: string, admin: int, member: int, row: Row)
    requires Consistent(a) && admin !in a.roles.Values && member !in a.roles.Values
    requires row in Wanted(c, admin, member)
    ensures Count(a.rows, row) == 0
  {
    assert row.grantee == Role(admin) || row.grantee == Role(member);
    NoRowsOfNewRole(a, row);
  }

  /** Creating the roles of a new community succeeds, and does what repairing would do. */
  lemma {:induction false} CreationIsRepair(a: Accounts, community: nat, admin: int, member: int)
    requires Consistent(a) && community < Power(32)
    requires admin != member && admin !in a.roles.Values && member !in a.roles.Values
    requires RoleName(community, "admin") !in a.roles && RoleName(community, "member") !in a.roles
    ensures CreateRoles(a, community, admin, member, false).Some?
    ensures CreateRoles(a, community, admin, member, false).value.rows == a.rows + Wanted(UuidText(community), admin, member)
    ensures CreateRoles(a, community, admin, member, false) == CreateRoles(a, community, admin, member, true)
  {
    var wanted := Wanted(UuidText(community), admin, member);
    WantedDistinct(UuidText(community), admin, member);
    forall row | row in wanted
      ensures Count(a.rows, row) == 0
    {
      NoneWantedYet(a, UuidText(community), admin, member, row);
    }
    InsertFresh(a.rows, wanted, false);
    InsertFresh(a.rows, wanted, true);
  }

  /** Creation without repair fails exactly when one of the two roles is there already. */
  lemma {:induction false} CreationSucceedsIff(a: Accounts, community: nat, admin: int, member: int)
    requires Consistent(a) && community < Power(32)
    requires admin != member && admin !in a.roles.Values && member !in a.roles.Values
    ensures CreateRoles(a, community, admin, member, false).Some? <==>
              RoleName(community, "admin") !in a.roles && RoleName(community, "member") !in a.roles
  {
    if RoleName(community, "admin") !in a.roles && RoleName(community, "member") !in a.roles {
      CreationIsRepair(a, community, admin, member);
    }
  }

  /** A row is inserted, without repair, exactly when the table with it keeps its unique key. */
  lemma {:induction false} InsertSucceedsIff(rows: seq<Row>, row: Row)
    requires UniqueKey(rows)
    ensures AddRow(rows, row, false) == if UniqueKey(rows + [row]) then Some(rows + [row]) else None
  {
    forall other
      ensures Count(rows + [row], other) == Count(rows, other) + if other == row then 1 else 0
    {
      CountPlus(rows, [row], other);
      CountOne(row, other);
    }
    assert UniqueKey(rows + [row]) <==> row.argument.None? || Count(rows, row) == 0;
  }

  // ---------------------------------------------------------------------------------------
  // What the roles of a new community may do
  // ---------------------------------------------------------------------------------------

  /** A row that allows `n` also allows `need`: it is the same need, or has no argument. */
  predicate Covers(n: Need, need: Need) {
    n.action == need.action && (n.argument.None? || n.argument == need.argument)
  }

  /** What the members of a community hold: they may create drafts in it. */
  ghost predicate MembersMay(c: string, need: Need) {
    need == NeedFactory("create-deposit", InState(c, "draft"))
  }

  /** What its administrators hold. The last may be asked with any argument. */
  ghost predicate AdminsMay(c: string, need: Need) {
    || MembersMay(c, need)
    || need == NeedFactory("read-deposit", InState(c, "submitted"))
    || need == NeedFactory("read-deposit", InState(c, "published"))
    || need == NeedFactory("update-deposit-metadata", InState(c, "submitted"))
    || Action(need) == StateNeed(c, VersionChains.Submitted, VersionChains.Published)
    || Action(need) == StateNeed(c, VersionChains.Submitted, VersionChains.Draft)
    || need == NeedFactory("update-record-metadata", map["community" := Some(c)])
    || need == NeedFactory("assign_role", map["community" := Some(c), "role" := Some("None")])
    || need.action == "accounts-search"
  }

  lemma {:induction false} AllowNamesIff(needs: seq<Need>, role: int, need: Need)
    ensures Named(Allow(needs, role), Action(need), {Role(role)}, false) <==>
              exists i :: 0 <= i < |needs| && Covers(needs[i], need)
  {
    var rows := Allow(needs, role);
    if i :| 0 <= i < |needs| && Covers(needs[i], need) {
      assert rows[i] in rows && Concerns(rows[i], need);
    }
    if Named(rows, Action(need), {Role(role)}, false) {
      var row :| row in rows && Concerns(row, need);
      var i :| 0 <= i < |rows| && rows[i] == row;
      assert Covers(needs[i], need);
    }
  }

  lemma {:induction false} CoversOwn(c: string, i: nat, need: Need)
    requires i < 8
    ensures Covers(NeedAt(c, i), need) <==> need == NeedAt(c, i)
  {
    ArgumentsNotEmpty(c, i);
  }

  lemma {:induction false} NeedsAre(c: string)
    ensures NeedAt(c, 0) == NeedFactory("create-deposit", InState(c, "draft"))
    ensures NeedAt(c, 1) == NeedFactory("read-deposit", InState(c, "submitted"))
    ensures NeedAt(c, 2) == NeedFactory("read-deposit", InState(c, "published"))
    ensures NeedAt(c, 3) == NeedFactory("update-deposit-metadata", InState(c, "submitted"))
    ensures Action(NeedAt(c, 4)) == StateNeed(c, VersionChains.Submitted, VersionChains.Published)
    ensures Action(NeedAt(c, 5)) == StateNeed(c, VersionChains.Submitted, VersionChains.Draft)
    ensures NeedAt(c, 6) == NeedFactory("update-record-metadata", map["community" := Some(c)])
    ensures NeedAt(c, 7) == NeedFactory("assign_role", map["community" := Some(c), "role" := Some("None")])
  {
  }

  lemma {:induction false} AdminsMayIff(c: string, need: Need)
    ensures AdminsMay(c, need) <==>
              || need == NeedAt(c, 0) || need == NeedAt(c, 1) || need == NeedAt(c, 2) || need == NeedAt(c, 3)
              || need == NeedAt(c, 4) || need == NeedAt(c, 5) || need == NeedAt(c, 6) || need == NeedAt(c, 7)
              || need.action == SEARCH.action
  {
    NeedsAre(c);
  }

  lemma {:induction false} SomeNeedCovers(c: string, need: Need)
    ensures (exists i :: 0 <= i < 9 && Covers(NeedAt(c, i), need)) <==>
              (exists i :: 0 <= i < 8 && need == NeedAt(c, i)) || need.action == SEARCH.action
  {
    forall i | 0 <= i < 8
      ensures Covers(NeedAt(c, i), need) <==> need == NeedAt(c, i)
    {
      CoversOwn(c, i, need);
    }
    assert Covers(NeedAt(c, 8), need) <==> need.action == SEARCH.action;
  }

  lemma {:induction false} AdminNeedsCover(own: string, need: Need)
    ensures (exists i :: 0 <= i < |AdminNeeds(own)| && Covers(AdminNeeds(own)[i], need)) <==>
              exists i :: 0 <= i < 9 && Covers(NeedAt(own, i), need)
  {
    var needs := AdminNeeds(own);
    assert |needs| == 9 && forall i :: 0 <= i < 9 ==> needs[i] == NeedAt(own, i);
    if i :| 0 <= i < 9 && Covers(NeedAt(own, i), need) {
      assert Covers(needs[i], need);
    }
  }

  lemma {:induction false} AdminsNamedIff(own: string, admin: int, need: Need)
    ensures Named(Allow(AdminNeeds(own), admin), Action(need), {Role(admin)}, false) <==> AdminsMay(own, need)
  {
    AllowNamesIff(AdminNeeds(own), admin, need);
    AdminNeedsCover(own, need);
    SomeNeedCovers(own, need);
    AdminsMayIff(own, need);
  }

  lemma {:induction false} MembersNamedIff(own: string, member: int, need: Need)
    ensures Named(Allow(MemberNeeds(own), member), Action(need), {Role(member)}, false) <==> MembersMay(own, need)
  {
    AllowNamesIff(MemberNeeds(own), member, need);
    CoversOwn(own, 0, need);
    assert MemberNeeds(own)[0] == NeedAt(own, 0);
  }

  lemma {:induction false} NamedPlus(a: seq<Row>, b: seq<Row>, claim: Claim, who: Identity)
    ensures Named(a + b, claim, who, false) <==> Named(a, claim, who, false) || Named(b, claim, who, false)
  {
    forall row | row in a || row in b
      ensures row in a + b
    {
    }
  }

  lemma {:induction false} NamedByNone(rows: seq<Row>, claim: Claim, role: int)
    requires forall row :: row in rows ==> row.grantee != Role(role)
    ensures !Named(rows, claim, {Role(role)}, false)
  {
  }

  lemma {:induction false} AllowGrantee(needs: seq<Need>, role: int)
    ensures forall row :: row in Allow(needs, role) ==> row.grantee == Role(role)
  {
  }

  /** What the two roles of a new community hold, and no more: the members may create drafts in it;
      the administrators too, and read, publish, send back and edit submissions, edit its records,
      assign its roles, and search accounts. */
  lemma {:induction false} NewRolesHold(a: Accounts, community: nat, admin: int, member: int, need: Need)
    requires Consistent(a) && community < Power(32)
    requires admin != member && admin !in a.roles.Values && member !in a.roles.Values
    requires RoleName(community, "admin") !in a.roles && RoleName(community, "member") !in a.roles
    ensures CreateRoles(a, community, admin, member, false).Some?
    ensures var rows := CreateRoles(a, community, admin, member, false).value.rows;
            && (Holds(rows, Action(need), {Role(admin)}) <==> AdminsMay(UuidText(community), need))
            && (Holds(rows, Action(need), {Role(member)}) <==> MembersMay(UuidText(community), need))
  {
    CreationIsRepair(a, community, admin, member);
    var own, claim := UuidText(community), Action(need);
    var first, second := Allow(MemberNeeds(own), member), Allow(AdminNeeds(own), admin);
    AdminsNamedIff(own, admin, need);
    MembersNamedIff(own, member, need);
    AllowGrantee(AdminNeeds(own), admin);
    AllowGrantee(MemberNeeds(own), member);
    NamedByNone(a.rows, claim, admin);
    NamedByNone(a.rows, claim, member);
    NamedByNone(second, claim, member);
    NamedByNone(first, claim, admin);
    NamedPlus(first, second, claim, {Role(admin)});
    NamedPlus(a.rows, first + second, claim, {Role(admin)});
    NamedPlus(first, second, claim, {Role(member)});
    NamedPlus(a.rows, first + second, claim, {Role(member)});
  }

  lemma {:induction false} StateNeedIs(c: string, before: State, after: State, c': string, before': State, after': State)
    ensures StateNeed(c, before, after) == StateNeed(c', before', after') <==> (c, before, after) == (c', before', after')
  {
    var action := "update-deposit-publication-state";
    NeedsEqualIff(action, StateArguments(c, before, after), action, StateArguments(c', before', after'));
    SameArguments(c, before, after, c', before', after');
  }

  /** In particular, the administrators may publish and send back submissions, there and nowhere
      else; the members may move nothing. */
  lemma {:induction false} RolesOfNewCommunity(a: Accounts, community: nat, admin: int, member: int, c: string, before: State, after: State)
    requires Consistent(a) && community < Power(32)
    requires admin != member && admin !in a.roles.Values && member !in a.roles.Values
    requires RoleName(community, "admin") !in a.roles && RoleName(community, "member") !in a.roles
    ensures CreateRoles(a, community, admin, member, false).Some?
    ensures var rows := CreateRoles(a, community, admin, member, false).value.rows;
            && (Holds(rows, StateNeed(c, before, after), {Role(admin)}) <==>
                  c == UuidText(community) && before.Submitted? && (after.Published? || after.Draft?))
            && !Holds(rows, StateNeed(c, before, after), {Role(member)})
  {
    var need := StateNeed(c, before, after).need;
    NewRolesHold(a, community, admin, member, need);
    StateNeedIs(c, before, after, UuidText(community), VersionChains.Submitted, VersionChains.Published);
    StateNeedIs(c, before, after, UuidText(community), VersionChains.Submitted, VersionChains.Draft);
    OnlyMovesMove(UuidText(community), need);
  }

  /** They may edit submissions, in their community only, and nothing in another state. */
  lemma {:induction false} NewAdminsEdit(a: Accounts, community: nat, admin: int, member: int, c: string, state: State)
    requires Consistent(a) && community < Power(32)
    requires admin != member && admin !in a.roles.Values && member !in a.roles.Values
    requires RoleName(community, "admin") !in a.roles && RoleName(community, "member") !in a.roles
    ensures CreateRoles(a, community, admin, member, false).Some?
    ensures Holds(CreateRoles(a, community, admin, member, false).value.rows, MetadataNeed(c, Some(Name(state))), {Role(admin)}) <==>
              c == UuidText(community) && state.Submitted?
  {
    var own, need := UuidText(community), MetadataNeed(c, Some(Name(state))).need;
    NewRolesHold(a, community, admin, member, need);
    assert |need.action| == 23;
    NeedsEqualIff("update-deposit-metadata", InState(c, Name(state)), "update-deposit-metadata", InState(own, "submitted"));
    SameInState(c, Name(state), own, "submitted");
    if Name(state) == "submitted" {
      SameName(state, VersionChains.Submitted);
    }
  }

  lemma {:induction false} SameInState(c: string, state: string, c': string, state': string)
    ensures InState(c, state) == InState(c', state') <==> c == c' && state == state'
  {
    var m, m' := InState(c, state), InState(c', state');
    if m == m' {
      assert m["community"] == m'["community"] && m["publication_state"] == m'["publication_state"];
    }
  }

  /** Of what administrators hold, only two needs are for changing states. */
  lemma {:induction false} OnlyMovesMove(c: string, need: Need)
    requires need.action == "update-deposit-publication-state"
    ensures !MembersMay(c, need)
    ensures AdminsMay(c, need) <==>
              || Action(need) == StateNeed(c, VersionChains.Submitted, VersionChains.Published)
              || Action(need) == StateNeed(c, VersionChains.Submitted, VersionChains.Draft)
  {
    assert |need.action| == 32;
  }

  // ---------------------------------------------------------------------------------------
  // The tables in place
  // ---------------------------------------------------------------------------------------

  /** Adding the rows from the `i`-th on. */
  function AddFrom(rows: seq<Row>, more: seq<Row>, i: nat, fix: bool): Option<seq<Row>>
    requires i <= |more|
    decreases |more| - i
  {
    if i == |more| then Some(rows)
    else
      match AddRow(rows, more[i], fix)
      case None => None
      case Some(now) => AddFrom(now, more, i + 1, fix)
  }

  lemma {:induction false} FailureStays(rows: seq<Row>, wanted: seq<Row>, more: seq<Row>, fix: bool)
    requires AddRows(rows, wanted, fix).None?
    ensures AddRows(rows, wanted + more, fix).None?
  {
    if more == [] {
      assert wanted + more == wanted;
    } else {
      FailureStays(rows, wanted, more[..|more| - 1], fix);
      assert (wanted + more)[..|wanted + more| - 1] == wanted + more[..|more| - 1];
    }
  }

  lemma {:induction false} AddOneMore(was: seq<Row>, wanted: seq<Row>, row: Row, fix: bool)
    requires AddRows(was, wanted, fix).Some?
    ensures AddRows(was, wanted + [row], fix) == AddRow(AddRows(was, wanted, fix).value, row, fix)
  {
    assert (wanted + [row])[..|wanted|] == wanted;
  }

  lemma {:induction false} AddedFrom(was: seq<Row>, added: seq<Row>, more: seq<Row>, i: nat, fix: bool, now: seq<Row>)
    requires i <= |more| && AddRows(was, added + more[..i], fix) == Some(now)
    ensures AddRows(was, added + more, fix) == AddFrom(now, more, i, fix)
    decreases |more| - i
  {
    if i == |more| {
      assert more[..i] == more;
    } else {
      AddOneMore(was, added + more[..i], more[i], fix);
      TakeMore(added, more, i);
      match AddRow(now, more[i], fix) {
        case None =>
          FailureStays(was, added + more[..i + 1], more[i + 1..], fix);
          TakeDrop(added, more, i + 1);
        case Some(next) =>
          AddedFrom(was, added, more, i + 1, fix, next);
      }
    }
  }

  /** The tables of accounts and what a request does to them in place. */
  class Session {
    var roles: map<string, int>
    var rows: seq<Row>

    /** Fails and changes nothing where `AddRow` fails. */
    method AddToDb(row: Row, fix: bool) returns (ok: bool)
      modifies `rows
      ensures ok <==> AddRow(old(rows), row, fix).Some?
      ensures rows == if ok then AddRow(old(rows), row, fix).value else old(rows)
    {
      var existing := Count(rows, row);
      if fix && existing > 1 {
        return false;
      }
      if fix && existing == 1 {
        return true;
      }
      if !fix && row.argument.Some? && existing > 0 {
        return false;
      }
      rows := rows + [row];
      return true;
    }

    /** Adds rows one by one and stops at the first failure. */
    method AddAll(more: seq<Row>, fix: bool, ghost was: seq<Row>, ghost added: seq<Row>) returns (ok: bool)
      requires AddRows(was, added, fix) == Some(rows)
      modifies `rows
      ensures AddRows(was, added + more, fix) == if ok then Some(rows) else None
    {
      assert added + more[..0] == added;
      AddedFrom(was, added, more, 0, fix, rows);
      for i := 0 to |more|
        invariant AddRows(was, added + more, fix) == AddFrom(rows, more, i, fix)
      {
        var done := AddToDb(more[i], fix);
        if !done {
          return false;
        }
      }
      return true;
    }

    /** A failure undoes everything, as the transaction does. */
    method CreateRolesAndPermissions(community: nat, admin: int, member: int, fix: bool) returns (ok: bool)
      modifies this
      ensures ok <==> CreateRoles(Accounts(old(roles), old(rows)), community, admin, member, fix).Some?
      ensures Accounts(roles, rows) ==
                if ok then CreateRoles(Accounts(old(roles), old(rows)), community, admin, member, fix).value
                else Accounts(old(roles), old(rows))
    {
      var c, adminName, memberName := UuidText(community), RoleName(community, "admin"), RoleName(community, "member");
      if !fix && (adminName in roles || memberName in roles) {
        return false;
      }
      var savedRoles, savedRows := roles, rows;
      var adminId, memberId := RoleId(roles, adminName, admin), RoleId(roles, memberName, member);
      roles := roles[adminName := adminId][memberName := memberId];
      var first, second := Allow(MemberNeeds(c), memberId), Allow(AdminNeeds(c), adminId);
      ok := AddAll(first, fix, savedRows, []);
      assert [] + first == first;
      if ok {
        ok := AddAll(second, fix, savedRows, first);
      } else {
        FailureStays(savedRows, first, second, fix);
      }
      if !ok {
        roles, rows := savedRoles, savedRows;
      }
    }
  }
}
