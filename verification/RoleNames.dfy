/** The names of the roles of a community (b2share/modules/communities/models.py,
    b2share/modules/communities/api.py). A community id is a 128-bit number. */
module RoleNames {
  import opened Options
  import opened Needs
  import opened Sequences

  function Power(w: nat): nat {
    if w == 0 then 1 else 16 * Power(w - 1)
  }

  /** `w` lower-case hexadecimal digits. */
  function HexText(n: nat, w: nat): (t: string)
    ensures |t| == w
  {
    if w == 0 then [] else HexText(n / 16, w - 1) + [Digit(n % 16)]
  }

  function HexValue(t: string): Option<nat> {
    if t == [] then Some(0)
    else
      match (HexValue(t[..|t| - 1]), DigitValue(t[|t| - 1]))
      case (Some(n), Some(d)) => Some(16 * n + d)
      case _ => None
  }

  function WithoutDashes(t: string): string {
    if t == [] then [] else WithoutDashes(t[..|t| - 1]) + if t[|t| - 1] == '-' then [] else [t[|t| - 1]]
  }

  /** A UUID's text, with or without dashes. */
  function ReadUuid(t: string): Option<nat> {
    if |WithoutDashes(t)| == 32 then HexValue(WithoutDashes(t)) else None
  }

  function UuidHex(id: nat): string {
    HexText(id, 32)
  }

  /** The usual text of a UUID, in groups. */
  function UuidText(id: nat): string {
    var h := UuidHex(id);
    h[..8] + "-" + h[8..12] + "-" + h[12..16] + "-" + h[16..20] + "-" + h[20..]
  }

  function RoleName(id: nat, kind: string): string {
    "com:" + UuidHex(id) + ":" + kind
  }

  function Split(t: string): (parts: seq<string>)
    ensures parts != []
  {
    if t == [] then [""]
    else
      var front := Split(t[..|t| - 1]);
      if t[|t| - 1] == ':' then front + [""]
      else front[..|front| - 1] + [front[|front| - 1] + [t[|t| - 1]]]
  }

  predicate IsCommunityRole(name: string) {
    |name| > 4 && name[..4] == "com:"
  }

  predicate IsRoleOfKind(name: string, kind: string) {
    IsCommunityRole(name) && |Split(name)| == 3 && Split(name)[2] == kind
  }

  /** `get_role_community_id`; None when it raises. */
  function CommunityOf(name: string): Option<nat> {
    if IsCommunityRole(name) && |Split(name)| == 3 then ReadUuid(Split(name)[1]) else None
  }

  lemma {:induction false} HexValueSnoc(t: string, n: nat, d: nat)
    requires HexValue(t) == Some(n) && d < 16
    ensures HexValue(t + [Digit(d)]) == Some(16 * n + d)
  {
    DigitRoundTrip(d);
    assert (t + [Digit(d)])[..|t|] == t;
  }

  lemma {:induction false} HexRoundTrip(n: nat, w: nat)
    requires n < Power(w)
    ensures HexValue(HexText(n, w)) == Some(n)
  {
    if w > 0 {
      HexRoundTrip(n / 16, w - 1);
      HexValueSnoc(HexText(n / 16, w - 1), n / 16, n % 16);
    }
  }

  lemma {:induction false} HexIsPlain(n: nat, w: nat)
    ensures ':' !in HexText(n, w) && '-' !in HexText(n, w)
  {
    if w > 0 {
      HexIsPlain(n / 16, w - 1);
      DigitRoundTrip(n % 16);
    }
  }

  lemma {:induction false} DivideTwice(n: nat, p: nat)
    requires p > 0
    ensures n / 16 / p == n / (16 * p)
  {
    var q, r := n / 16 / p, n / 16 % p;
    assert n / 16 == q * p + r;
    assert n == 16 * (q * p + r) + n % 16;
    Quotient(n, 16 * p, q, 16 * r + n % 16);
  }

  lemma {:induction false} Quotient(n: int, d: int, q: int, r: int)
    requires 0 <= r < d && n == q * d + r
    ensures n / d == q
  {
    var k, m := n / d, n % d;
    assert d * (k - q) == r - m;
    if k > q {
      AtLeast(d, k - q);
    } else if k < q {
      AtLeast(d, q - k);
    }
  }

  lemma {:induction false} AtLeast(d: int, x: int)
    requires d > 0 && x >= 1
    ensures d * x >= d
  {
  }

  lemma PowerIsPositive(w: nat)
    ensures Power(w) > 0
  {
  }

  /** The digits, the least one last. */
  lemma {:induction false} HexDigitIs(n: nat, w: nat, i: nat)
    requires i < w
    ensures Power(i) > 0
    ensures HexText(n, w)[w - 1 - i] == HEX_DIGITS[n / Power(i) % 16]
  {
    DigitIs(n % 16);
    PowerIsPositive(i);
    if i > 0 {
      HexDigitIs(n / 16, w - 1, i - 1);
      DivideTwice(n, Power(i - 1));
    }
  }

  /** A UUID's text: 32 digits in groups of 8, 4, 4, 4 and 12. */
  lemma {:induction false} UuidShape(id: nat)
    ensures |UuidHex(id)| == 32 && |UuidText(id)| == 36
    ensures forall i :: 0 <= i < 36 ==>
              UuidText(id)[i] == if i == 8 || i == 13 || i == 18 || i == 23 then '-'
                                 else UuidHex(id)[i - (if i > 23 then 4 else if i > 18 then 3 else if i > 13 then 2 else if i > 8 then 1 else 0)]
  {
  }

  lemma {:induction false} NoDashes(t: string)
    requires '-' !in t
    ensures WithoutDashes(t) == t
  {
    if t != [] {
      NoDashes(t[..|t| - 1]);
      assert t == t[..|t| - 1] + [t[|t| - 1]];
    }
  }

  /** The parts with more text at the end of the last one. */
  function Lengthened(parts: seq<string>, more: string): seq<string>
    requires parts != []
  {
    parts[..|parts| - 1] + [parts[|parts| - 1] + more]
  }

  lemma {:induction false} LengthenedTwice(parts: seq<string>, a: string, b: string)
    requires parts != []
    ensures Lengthened(Lengthened(parts, a), b) == Lengthened(parts, a + b)
  {
    Regroup(parts[|parts| - 1], a, b);
    assert Lengthened(parts, a)[..|parts| - 1] == parts[..|parts| - 1];
  }

  lemma {:induction false} SplitSnoc(t: string, c: char)
    requires c != ':'
    ensures Split(t + [c]) == Lengthened(Split(t), [c])
  {
    assert (t + [c])[..|t|] == t;
  }

  lemma {:induction false} SplitMore(t: string, more: string)
    requires ':' !in more
    ensures Split(t + more) == Lengthened(Split(t), more)
  {
    if more == [] {
      assert t + more == t && Split(t)[|Split(t)| - 1] + more == Split(t)[|Split(t)| - 1];
    } else {
      var front, c := more[..|more| - 1], more[|more| - 1];
      assert more == front + [c];
      SplitMore(t, front);
      SplitSnoc(t + front, c);
      Regroup(t, front, [c]);
      LengthenedTwice(Split(t), front, [c]);
    }
  }

  lemma {:induction false} SplitColon(t: string)
    ensures Split(t + ":") == Split(t) + [""]
  {
    var u := t + ":";
    assert u[..|u| - 1] == t && u[|u| - 1] == ':';
    assert Split(u) == Split(u[..|u| - 1]) + [""];
  }

  lemma {:induction false} SplitThree(a: string, b: string, c: string)
    requires ':' !in a && ':' !in b && ':' !in c
    ensures Split(a + ":" + b + ":" + c) == [a, b, c]
  {
    SplitMore("", a);
    assert "" + a == a && Split("") == [""];
    assert Split(a) == [a];
    SplitNext(a, [], a, b);
    SplitNext(a + ":" + b, [a], b, c);
  }

  lemma {:induction false} SplitNext(t: string, parts: seq<string>, last: string, more: string)
    requires Split(t) == parts + [last] && ':' !in more
    ensures Split(t + ":" + more) == parts + [last, more]
  {
    SplitColon(t);
    SplitMore(t + ":", more);
    assert Split(t + ":")[..|parts| + 1] == parts + [last];
    assert "" + more == more;
  }

  lemma {:induction false} RoleNameParts(id: nat, kind: string)
    requires id < Power(32) && ':' !in kind
    ensures Split(RoleName(id, kind)) == ["com", UuidHex(id), kind]
    ensures IsCommunityRole(RoleName(id, kind))
  {
    HexIsPlain(id, 32);
    assert RoleName(id, kind) == "com" + ":" + UuidHex(id) + ":" + kind;
    SplitThree("com", UuidHex(id), kind);
    assert RoleName(id, kind)[..4] == "com:";
  }

  /** Names without the prefix are of no community, and no other kind of name is taken for a role. */
  lemma {:induction false} OtherNames(name: string, kind: string)
    ensures IsCommunityRole(name) <==> "com:" < name
    ensures !("com:" < name) ==> CommunityOf(name) == None && !IsRoleOfKind(name, kind)
    ensures |Split(name)| != 3 ==> CommunityOf(name) == None && !IsRoleOfKind(name, kind)
  {
    if "com:" < name {
      assert name[..4] == "com:";
    }
  }

  /** A role's name tells the community it was made for and the kind of role, and no more. */
  lemma {:induction false} RoleNameRoundTrip(id: nat, kind: string)
    requires id < Power(32) && ':' !in kind
    ensures CommunityOf(RoleName(id, kind)) == Some(id)
    ensures forall k :: IsRoleOfKind(RoleName(id, kind), k) <==> k == kind
  {
    RoleNameParts(id, kind);
    HexRoundTrip(id, 32);
    HexIsPlain(id, 32);
    NoDashes(UuidHex(id));
  }

  lemma {:induction false} RoleNamesEqualIff(id: nat, kind: string, id': nat, kind': string)
    requires id < Power(32) && id' < Power(32) && ':' !in kind && ':' !in kind'
    ensures RoleName(id, kind) == RoleName(id', kind') <==> id == id' && kind == kind'
  {
    RoleNameRoundTrip(id, kind);
    RoleNameRoundTrip(id', kind');
    assert IsRoleOfKind(RoleName(id, kind), kind);
  }

  lemma {:induction false} WithoutDashesPlus(a: string, b: string)
    requires '-' !in b
    ensures WithoutDashes(a + b) == WithoutDashes(a) + b
  {
    if b == [] {
      assert a + b == a;
      assert WithoutDashes(a) + b == WithoutDashes(a);
    } else {
      var front, c := b[..|b| - 1], b[|b| - 1];
      WithoutDashesPlus(a, front);
      assert b == front + [c];
      OneMore(a + front, c);
      assert a + b == (a + front) + [c];
      assert WithoutDashes(a) + b == (WithoutDashes(a) + front) + [c];
    }
  }

  lemma {:induction false} OneMore(t: string, c: char)
    ensures WithoutDashes(t + [c]) == WithoutDashes(t) + if c == '-' then [] else [c]
  {
    assert (t + [c])[..|t|] == t;
  }

  lemma {:induction false} DashPlus(a: string, b: string)
    requires '-' !in b
    ensures WithoutDashes(a + "-" + b) == WithoutDashes(a) + b
  {
    OneMore(a, '-');
    WithoutDashesPlus(a + "-", b);
    assert WithoutDashes(a) + [] == WithoutDashes(a);
  }

  /** The dashed text of an id, which the needs of a community carry, gives the id back too. */
  lemma {:induction false} UuidRoundTrip(id: nat)
    requires id < Power(32)
    ensures ReadUuid(UuidText(id)) == Some(id)
  {
    var h := UuidHex(id);
    HexRoundTrip(id, 32);
    HexIsPlain(id, 32);
    WithoutFourDashes(h[..8], h[8..12], h[12..16], h[16..20], h[20..]);
    assert h[..8] + h[8..12] + h[12..16] + h[16..20] + h[20..] == h;
  }

  lemma {:induction false} WithoutFourDashes(a: string, b: string, c: string, d: string, e: string)
    requires '-' !in a && '-' !in b && '-' !in c && '-' !in d && '-' !in e
    ensures WithoutDashes(a + "-" + b + "-" + c + "-" + d + "-" + e) == a + b + c + d + e
  {
    NoDashes(a);
    DashPlus(a, b);
    DashPlus(a + "-" + b, c);
    DashPlus(a + "-" + b + "-" + c, d);
    DashPlus(a + "-" + b + "-" + c + "-" + d, e);
  }
}
