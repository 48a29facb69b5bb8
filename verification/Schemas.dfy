/** Validating deposits and records against JSON Schemas (b2share/modules/deposit/api.py,
    b2share/modules/schemas/api.py, b2share/modules/schemas/helpers.py). The keywords are those
    of the root schema and of the restricted metaschema (b2share/modules/schemas/validate.py). */
module Schemas {
  import opened Options
  import opened Sequences

  datatype Json =
    | Null
    | Bool(b: bool)
    | Int(n: int)
    | Decimal(d: real)
    | Str(s: string)
    | Arr(items: seq<Json>)
    | Obj(fields: map<string, Json>)

  datatype Kind = KNull | KBoolean | KInteger | KNumber | KString | KArray | KObject

  datatype Additional = Allowed | Forbidden | Must(schema: Schema)

  /** A schema; an absent keyword is `None`, an empty map or list, `Allowed` or `false`. The code
      tells an absent `properties` from an empty one, so `hasProperties` records which it is. */
  datatype Schema = Schema(
    kind: Option<Kind>,             // type
    choices: Option<seq<string>>,   // enum
    minimum: Option<real>,
    maximum: Option<real>,
    minItems: Option<nat>,
    maxItems: Option<nat>,
    uniqueItems: bool,
    items: Option<Schema>,
    hasProperties: bool,
    properties: map<string, Schema>,
    additional: Additional,
    required: Option<seq<string>>,
    allOf: seq<Schema>)

  const ANY: Schema := Schema(None, None, None, None, None, None, false, None, false, map[], Allowed, None, [])

  // ---------------------------------------------------------------------------------------
  // The validators
  // ---------------------------------------------------------------------------------------

  predicate HasKind(v: Json, kind: Kind) {
    match kind
    case KNull => v.Null?
    case KBoolean => v.Bool?
    case KInteger => v.Int?
    case KNumber => v.Int? || v.Decimal?
    case KString => v.Str?
    case KArray => v.Arr?
    case KObject => v.Obj?
  }

  predicate InRange(v: Json, minimum: Option<real>, maximum: Option<real>) {
    v.Int? || v.Decimal? ==>
      var x := if v.Int? then v.n as real else v.d;
      (minimum.Some? ==> minimum.value <= x) && (maximum.Some? ==> x <= maximum.value)
  }

  /** The keywords that look at a value as a whole. The validator of drafts ignores `minItems`
      and `required`, at every depth. */
  ghost predicate ValidHere(draft: bool, s: Schema, v: Json) {
    && (s.kind.Some? ==> HasKind(v, s.kind.value))
    && (s.choices.Some? ==> v.Str? && v.s in s.choices.value)
    && InRange(v, s.minimum, s.maximum)
    && (v.Arr? && s.maxItems.Some? ==> |v.items| <= s.maxItems.value)
    && (v.Arr? && s.uniqueItems ==> NoRepeat(v.items))
    && (draft || CompleteHere(s, v))
  }

  ghost predicate CompleteHere(s: Schema, v: Json) {
    && (v.Arr? && s.minItems.Some? ==> s.minItems.value <= |v.items|)
    && (v.Obj? && s.required.Some? ==> forall k :: k in s.required.value ==> k in v.fields)
  }

  /** A value against a schema, by the full validator or by the one for drafts. */
  ghost predicate Valid(draft: bool, s: Schema, v: Json)
    decreases s
  {
    && ValidHere(draft, s, v)
    && (v.Arr? && s.items.Some? ==> forall x :: x in v.items ==> Valid(draft, s.items.value, x))
    && (v.Obj? ==>
          forall k :: k in s.properties && k in v.fields ==> Valid(draft, s.properties[k], v.fields[k]))
    && (v.Obj? && s.additional.Forbidden? ==> forall k :: k in v.fields ==> k in s.properties)
    && (v.Obj? && s.additional.Must? ==>
          forall k :: k in v.fields && k !in s.properties ==> Valid(draft, s.additional.schema, v.fields[k]))
    && (forall a :: a in s.allOf ==> Valid(draft, a, v))
  }

  /** Every `required` and `minItems` that applies to some part of the value is satisfied. */
  ghost predicate Complete(s: Schema, v: Json)
    decreases s
  {
    && CompleteHere(s, v)
    && (v.Arr? && s.items.Some? ==> forall x :: x in v.items ==> Complete(s.items.value, x))
    && (v.Obj? ==>
          forall k :: k in s.properties && k in v.fields ==> Complete(s.properties[k], v.fields[k]))
    && (v.Obj? && s.additional.Must? ==>
          forall k :: k in v.fields && k !in s.properties ==> Complete(s.additional.schema, v.fields[k]))
    && (forall a :: a in s.allOf ==> Complete(a, v))
  }

  /** The validator of drafts asks for everything the full validator asks for except
      completeness: a value is fully valid if and only if it is valid as a draft and complete. */
  lemma {:induction false} FullIffDraftAndComplete(s: Schema, v: Json)
    ensures Valid(false, s, v) <==> Valid(true, s, v) && Complete(s, v)
    decreases s
  {
    if v.Arr? && s.items.Some? {
      forall x | x in v.items
        ensures Valid(false, s.items.value, x) <==> Valid(true, s.items.value, x) && Complete(s.items.value, x)
      {
        FullIffDraftAndComplete(s.items.value, x);
      }
    }
    if v.Obj? {
      forall k | k in s.properties && k in v.fields
        ensures var p := s.properties[k]; var x := v.fields[k];
                Valid(false, p, x) <==> Valid(true, p, x) && Complete(p, x)
      {
        FullIffDraftAndComplete(s.properties[k], v.fields[k]);
      }
    }
    if v.Obj? && s.additional.Must? {
      forall k | k in v.fields
        ensures var x := v.fields[k];
                Valid(false, s.additional.schema, x) <==> Valid(true, s.additional.schema, x) && Complete(s.additional.schema, x)
      {
        FullIffDraftAndComplete(s.additional.schema, v.fields[k]);
      }
    }
    forall a | a in s.allOf
      ensures Valid(false, a, v) <==> Valid(true, a, v) && Complete(a, v)
    {
      FullIffDraftAndComplete(a, v);
    }
  }

  // ---------------------------------------------------------------------------------------
  // Leaving things out of a draft
  // ---------------------------------------------------------------------------------------

  /** `w` is `v` with fields left out of objects and items left out of arrays, at any depth; the
      items that stay may be thinned out too, and in any order. */
  ghost predicate Part(w: Json, v: Json)
    decreases v
  {
    match v
    case Obj(fields) => w.Obj? && forall k :: k in w.fields ==> k in fields && Part(w.fields[k], fields[k])
    case Arr(items) => w.Arr? && |w.items| <= |items| && forall x :: x in w.items ==> exists y :: y in items && Part(x, y)
    case _ => w == v
  }

  /** No array that must not repeat items repeats one. */
  ghost predicate Unique(s: Schema, v: Json)
    decreases s
  {
    && (v.Arr? && s.uniqueItems ==> NoRepeat(v.items))
    && (v.Arr? && s.items.Some? ==> forall x :: x in v.items ==> Unique(s.items.value, x))
    && (v.Obj? ==> forall k :: k in s.properties && k in v.fields ==> Unique(s.properties[k], v.fields[k]))
    && (v.Obj? && s.additional.Must? ==>
          forall k :: k in v.fields && k !in s.properties ==> Unique(s.additional.schema, v.fields[k]))
    && (forall a :: a in s.allOf ==> Unique(a, v))
  }

  /** What is left of a valid draft is a valid draft if and only if no array that must not repeat
      items repeats one now. */
  lemma {:induction false} DraftSurvivesOmissionIff(s: Schema, w: Json, v: Json)
    requires Part(w, v) && Valid(true, s, v)
    ensures Valid(true, s, w) <==> Unique(s, w)
    decreases s
  {
    assert ValidHere(true, s, w) <==> (w.Arr? && s.uniqueItems ==> NoRepeat(w.items));
    if v.Arr? && s.items.Some? {
      forall x | x in w.items
        ensures Valid(true, s.items.value, x) <==> Unique(s.items.value, x)
      {
        var y :| y in v.items && Part(x, y);
        DraftSurvivesOmissionIff(s.items.value, x, y);
      }
    }
    if v.Obj? {
      forall k | k in w.fields && k in s.properties
        ensures Valid(true, s.properties[k], w.fields[k]) <==> Unique(s.properties[k], w.fields[k])
      {
        DraftSurvivesOmissionIff(s.properties[k], w.fields[k], v.fields[k]);
      }
      if s.additional.Must? {
        forall k | k in w.fields && k !in s.properties
          ensures Valid(true, s.additional.schema, w.fields[k]) <==> Unique(s.additional.schema, w.fields[k])
        {
          DraftSurvivesOmissionIff(s.additional.schema, w.fields[k], v.fields[k]);
        }
      }
    }
    forall a | a in s.allOf
      ensures Valid(true, a, w) <==> Unique(a, w)
    {
      DraftSurvivesOmissionIff(a, w, v);
    }
  }

  ghost predicate Subsequence(a: seq<Json>, b: seq<Json>) {
    a == [] || (b != [] && ((a[0] == b[0] && Subsequence(a[1..], b[1..])) || Subsequence(a, b[1..])))
  }

  /** As `Part`, but the items that stay in an array stay whole and in order. */
  ghost predicate PartOfWholeItems(w: Json, v: Json)
    decreases v
  {
    match v
    case Obj(fields) => w.Obj? && forall k :: k in w.fields ==> k in fields && PartOfWholeItems(w.fields[k], fields[k])
    case Arr(items) => w.Arr? && Subsequence(w.items, items)
    case _ => w == v
  }

  lemma {:induction false} SubsequenceFacts(a: seq<Json>, b: seq<Json>)
    requires Subsequence(a, b)
    ensures |a| <= |b|
    ensures forall x :: x in a ==> x in b
    ensures NoRepeat(b) ==> NoRepeat(a)
    decreases b
  {
    if a != [] {
      assert b == [b[0]] + b[1..];
      NoRepeatCons(b[0], b[1..]);
      if a[0] == b[0] && Subsequence(a[1..], b[1..]) {
        SubsequenceFacts(a[1..], b[1..]);
        assert a == [a[0]] + a[1..];
        NoRepeatCons(a[0], a[1..]);
      } else {
        SubsequenceFacts(a, b[1..]);
      }
    }
  }

  lemma {:induction false} WholeIsPart(v: Json)
    ensures Part(v, v)
    decreases v
  {
    match v
    case Obj(fields) =>
      forall k | k in fields
        ensures Part(fields[k], fields[k])
      {
        WholeIsPart(fields[k]);
      }
    case Arr(items) =>
      forall x | x in items
        ensures Part(x, x)
      {
        WholeIsPart(x);
      }
    case _ =>
  }

  lemma {:induction false} WholeItemsArePart(w: Json, v: Json)
    requires PartOfWholeItems(w, v)
    ensures Part(w, v)
    decreases v
  {
    match v
    case Obj(fields) =>
      forall k | k in w.fields
        ensures Part(w.fields[k], fields[k])
      {
        WholeItemsArePart(w.fields[k], fields[k]);
      }
    case Arr(items) =>
      SubsequenceFacts(w.items, items);
      forall x | x in w.items
        ensures Part(x, x)
      {
        WholeIsPart(x);
      }
    case _ =>
  }

  lemma {:induction false} ValidIsUnique(s: Schema, v: Json)
    requires Valid(true, s, v)
    ensures Unique(s, v)
  {
    WholeIsPart(v);
    DraftSurvivesOmissionIff(s, v, v);
  }

  lemma {:induction false} WholeItemsStayUnique(s: Schema, w: Json, v: Json)
    requires PartOfWholeItems(w, v) && Unique(s, v)
    ensures Unique(s, w)
    decreases s
  {
    if v.Arr? {
      SubsequenceFacts(w.items, v.items);
    }
    if v.Obj? {
      forall k | k in w.fields && k in s.properties
        ensures Unique(s.properties[k], w.fields[k])
      {
        WholeItemsStayUnique(s.properties[k], w.fields[k], v.fields[k]);
      }
      if s.additional.Must? {
        forall k | k in w.fields && k !in s.properties
          ensures Unique(s.additional.schema, w.fields[k])
        {
          WholeItemsStayUnique(s.additional.schema, w.fields[k], v.fields[k]);
        }
      }
    }
    forall a | a in s.allOf
      ensures Unique(a, w)
    {
      WholeItemsStayUnique(a, w, v);
    }
  }

  /** In particular, whole items and fields outside arrays can always be left out. */
  lemma {:induction false} DraftSurvivesWholeItems(s: Schema, w: Json, v: Json)
    requires PartOfWholeItems(w, v) && Valid(true, s, v)
    ensures Valid(true, s, w)
  {
    WholeItemsArePart(w, v);
    ValidIsUnique(s, v);
    WholeItemsStayUnique(s, w, v);
    DraftSurvivesOmissionIff(s, w, v);
  }

  const NAMED: Schema := ANY.(kind := Some(KObject), hasProperties := true, required := Some(["creator_name"]),
                              properties := map["creator_name" := ANY.(kind := Some(KString))], additional := Forbidden)

  const CREATORS: Schema := ANY.(kind := Some(KArray), uniqueItems := true, items := Some(NAMED))

  lemma {:induction false} TwoCreators(x: Json, y: Json)
    requires Valid(true, NAMED, x) && Valid(true, NAMED, y)
    ensures Valid(true, CREATORS, Arr([x, y])) <==> x != y
  {
    var v := Arr([x, y]);
    assert [x, y][..1] == [x] && [x][..0] == [] && x in [x];
    assert NoRepeat([x]);
    assert NoRepeat([x, y]) <==> x != y;
    assert x in v.items && y in v.items;
    assert forall z :: z in v.items ==> z == x || z == y;
  }

  lemma {:induction false} PartOfTwo(z: Json, x: Json, y: Json)
    requires Part(z, x)
    ensures Part(Arr([z, z]), Arr([x, y]))
  {
    var w, v := Arr([z, z]), Arr([x, y]);
    assert x in v.items;
    assert forall u :: u in w.items ==> u == z;
  }

  lemma {:induction false} NamedIsValid(name: string)
    ensures Valid(true, NAMED, Obj(map["creator_name" := Str(name)])) && Valid(true, NAMED, Obj(map[]))
    ensures Part(Obj(map[]), Obj(map["creator_name" := Str(name)]))
  {
  }

  /** The creators of a record: two of them, as soon as both lose their name, are the same item
      twice, and the draft is refused. */
  lemma {:induction false} NamelessCreatorsAreRefused(a: string, b: string)
    requires a != b
    ensures var v := Arr([Obj(map["creator_name" := Str(a)]), Obj(map["creator_name" := Str(b)])]);
            var w := Arr([Obj(map[]), Obj(map[])]);
            Valid(true, CREATORS, v) && Part(w, v) && !Valid(true, CREATORS, w)
  {
    var x, y, none := Obj(map["creator_name" := Str(a)]), Obj(map["creator_name" := Str(b)]), Obj(map[]);
    assert Str(a).s != Str(b).s;
    assert x.fields["creator_name"] == Str(a) && y.fields["creator_name"] == Str(b);
    NamedIsValid(a);
    NamedIsValid(b);
    TwoCreators(x, y);
    TwoCreators(none, none);
    PartOfTwo(none, x, y);
  }

  // ---------------------------------------------------------------------------------------
  // The schema of a community's records
  // ---------------------------------------------------------------------------------------

  const SPECIFIC := "community_specific"

  function BuildJsonSchema(root: Schema, community: Schema): Schema {
    ANY.(allOf := [root, ANY.(kind := Some(KObject), hasProperties := true, properties := map[SPECIFIC := community])])
  }

  /** A record answers to the root schema and, in `community_specific`, to the community's. */
  lemma {:induction false} RecordSchemaMeans(draft: bool, root: Schema, community: Schema, v: Json)
    ensures Valid(draft, BuildJsonSchema(root, community), v) <==>
              v.Obj? && Valid(draft, root, v)
              && (SPECIFIC in v.fields ==> Valid(draft, community, v.fields[SPECIFIC]))
  {
    var inner := ANY.(kind := Some(KObject), hasProperties := true, properties := map[SPECIFIC := community]);
    InnerMeans(draft, inner, community, v);
    var s := BuildJsonSchema(root, community);
    assert s.allOf[0] == root && s.allOf[1] == inner;
    assert ValidHere(draft, s, v) && s.properties == map[];
  }

  lemma {:induction false} InnerMeans(draft: bool, inner: Schema, community: Schema, v: Json)
    requires inner == ANY.(kind := Some(KObject), hasProperties := true, properties := map[SPECIFIC := community])
    ensures Valid(draft, inner, v) <==>
              v.Obj? && (SPECIFIC in v.fields ==> Valid(draft, community, v.fields[SPECIFIC]))
  {
    assert SPECIFIC in inner.properties;
  }

  /** Where the root schema declares `community_specific`, its content answers to that
      declaration and to the community's schema, and to nothing else: closing the root schema to
      the fields it does not declare does not reach into it. */
  lemma {:induction false} ContentIsTheCommunitys(draft: bool, root: Schema, community: Schema, v: Json, content: Json)
    requires SPECIFIC in root.properties && root.allOf == []
    requires v.Obj? && Valid(draft, root, v)
    ensures Valid(draft, BuildJsonSchema(root, community), Obj(v.fields[SPECIFIC := content])) <==>
              Valid(draft, root.properties[SPECIFIC], content) && Valid(draft, community, content)
  {
    var w := Obj(v.fields[SPECIFIC := content]);
    assert ValidHere(draft, root, w);
    forall k | k in root.properties && k in w.fields && k != SPECIFIC
      ensures Valid(draft, root.properties[k], w.fields[k])
    {
      assert w.fields[k] == v.fields[k];
    }
    assert w.fields[SPECIFIC] == content;
    assert Valid(draft, root, w) <==> Valid(draft, root.properties[SPECIFIC], content);
    RecordSchemaMeans(draft, root, community, w);
  }

  // ---------------------------------------------------------------------------------------
  // Which schemas a community may register
  // ---------------------------------------------------------------------------------------

  predicate Has(s: Option<Schema>, kind: Kind) {
    s.Some? && s.value.kind == Some(kind)
  }

  /** `verify_required_fields` returns: no name is missing, and `properties` is there to be read.
      An object that requires nothing is not looked into. */
  ghost predicate Accepts(s: Schema)
    decreases s
  {
    s.kind == Some(KObject) && s.required.Some? ==>
      && s.hasProperties
      && (forall k :: k in s.required.value ==> k in s.properties)
      && (forall k :: k in s.properties && s.properties[k].kind == Some(KObject) ==> Accepts(s.properties[k]))
      && (forall k :: k in s.properties && s.properties[k].kind == Some(KArray) && Has(s.properties[k].items, KObject) ==>
            Accepts(s.properties[k].items.value))
  }

  /** The object a property's schema describes, or has as the items of an array. */
  function ObjectIn(s: Schema): Option<Schema> {
    if s.kind == Some(KObject) then Some(s)
    else if s.kind == Some(KArray) && Has(s.items, KObject) then s.items
    else None
  }

  /** The object that the check comes to by these property names; it goes on from objects that
      require something. */
  function Reached(s: Schema, path: seq<string>): Option<Schema>
    decreases |path|
  {
    if path == [] then if s.kind == Some(KObject) then Some(s) else None
    else if s.kind == Some(KObject) && s.required.Some? && path[0] in s.properties then
      match ObjectIn(s.properties[path[0]])
      case None => None
      case Some(t) => Reached(t, path[1..])
    else None
  }

  /** What the object requires it declares. */
  ghost predicate DeclaresRequired(s: Schema) {
    s.required.Some? ==> s.hasProperties && forall k :: k in s.required.value ==> k in s.properties
  }

  lemma {:induction false} AcceptedDeclares(s: Schema, path: seq<string>)
    requires Accepts(s) && Reached(s, path).Some?
    ensures DeclaresRequired(Reached(s, path).value)
    decreases |path|
  {
    if path != [] {
      AcceptedDeclares(ObjectIn(s.properties[path[0]]).value, path[1..]);
    }
  }

  lemma {:induction false} RefusedAt(s: Schema) returns (path: seq<string>)
    requires !Accepts(s)
    ensures Reached(s, path).Some? && !DeclaresRequired(Reached(s, path).value)
    decreases s
  {
    path := [];
    if DeclaresRequired(s) {
      var k: string;
      if exists k :: k in s.properties && s.properties[k].kind == Some(KObject) && !Accepts(s.properties[k]) {
        k :| k in s.properties && s.properties[k].kind == Some(KObject) && !Accepts(s.properties[k]);
        path := RefusedAt(s.properties[k]);
      } else {
        k :| k in s.properties && s.properties[k].kind == Some(KArray) && Has(s.properties[k].items, KObject)
             && !Accepts(s.properties[k].items.value);
        path := RefusedAt(s.properties[k].items.value);
      }
      assert ([k] + path)[1..] == path;
      path := [k] + path;
    }
  }

  /** The check accepts a schema if and only if every object it comes to declares what it requires. */
  lemma {:induction false} AcceptsIff(s: Schema)
    ensures Accepts(s) <==> forall path :: Reached(s, path).Some? ==> DeclaresRequired(Reached(s, path).value)
  {
    if Accepts(s) {
      forall path | Reached(s, path).Some?
        ensures DeclaresRequired(Reached(s, path).value)
      {
        AcceptedDeclares(s, path);
      }
    } else {
      var path := RefusedAt(s);
    }
  }

  /** The least integer that is not less. */
  function Ceiling(x: real): int {
    -(-x).Floor
  }

  /** The bounds of a schema for numbers leave room for one. */
  predicate Room(s: Schema) {
    s.minimum.Some? && s.maximum.Some? ==>
      && (s.kind == Some(KInteger) ==> Ceiling(s.minimum.value) as real <= s.maximum.value)
      && (s.kind == Some(KNumber) ==> s.minimum.value <= s.maximum.value)
  }

  function NumberWitness(s: Schema): Json {
    if s.kind == Some(KInteger) then
      Int(if s.minimum.Some? then Ceiling(s.minimum.value) else if s.maximum.Some? then s.maximum.value.Floor else 0)
    else Decimal(if s.minimum.Some? then s.minimum.value else if s.maximum.Some? then s.maximum.value else 0.0)
  }

  /** A schema for strings with a list of choices takes these and nothing else. */
  lemma {:induction false} ChoicesAre(draft: bool, s: Schema, v: Json)
    requires s.kind in {None, Some(KString)} && s.choices.Some? && s.allOf == []
    ensures Valid(draft, s, v) <==> v.Str? && v.s in s.choices.value
  {
  }

  /** A schema for arrays that looks at none of the items takes arrays of any length from the least,
      which does not count for drafts, to the greatest. */
  lemma {:induction false} LengthsAre(draft: bool, s: Schema, v: Json)
    requires s.kind == Some(KArray) && s.choices.None? && s.items.None? && !s.uniqueItems && s.allOf == []
    ensures Valid(draft, s, v) <==>
              && v.Arr?
              && (s.maxItems.Some? ==> s.maxItems.value >= |v.items|)
              && (s.minItems.Some? && !draft ==> |v.items| >= s.minItems.value)
  {
  }

  lemma {:induction false} CeilingIs(x: real, n: int)
    ensures x <= n as real <==> Ceiling(x) <= n
  {
  }

  lemma {:induction false} FloorIs(x: real, n: int)
    ensures n as real <= x <==> n <= x.Floor
  {
  }

  /** A schema for numbers that says nothing else: it takes the numbers of its kind from the least to
      the greatest. */
  lemma {:induction false} NumbersAre(draft: bool, s: Schema, v: Json)
    requires s.kind in {Some(KInteger), Some(KNumber)} && s.choices.None? && s.allOf == []
    ensures Valid(draft, s, v) <==>
              && (v.Int? || (v.Decimal? && s.kind == Some(KNumber)))
              && var x := if v.Int? then v.n as real else v.d;
                 (s.minimum.Some? ==> x >= s.minimum.value) && (s.maximum.Some? ==> x <= s.maximum.value)
  {
  }

  lemma {:induction false} WitnessFits(draft: bool, s: Schema)
    requires s.kind in {Some(KInteger), Some(KNumber)} && s.choices.None? && s.allOf == [] && Room(s)
    ensures Valid(draft, s, NumberWitness(s))
  {
    var v := NumberWitness(s);
    NumbersAre(draft, s, v);
    if s.kind == Some(KInteger) {
      if s.minimum.Some? {
        CeilingIs(s.minimum.value, v.n);
      } else if s.maximum.Some? {
        FloorIs(s.maximum.value, v.n);
      }
    }
  }

  lemma {:induction false} TakenLeavesRoom(draft: bool, s: Schema, v: Json)
    requires s.kind in {Some(KInteger), Some(KNumber)} && s.choices.None? && s.allOf == [] && Valid(draft, s, v)
    ensures Room(s)
  {
    NumbersAre(draft, s, v);
    if s.kind == Some(KInteger) && s.minimum.Some? {
      CeilingIs(s.minimum.value, v.n);
    }
  }

  /** It takes any if and only if its bounds leave room. */
  lemma {:induction false} BoundsLeaveRoomIff(draft: bool, s: Schema)
    requires s.kind in {Some(KInteger), Some(KNumber)} && s.choices.None? && s.allOf == []
    ensures Room(s) <==> Valid(draft, s, NumberWitness(s))
    ensures !Room(s) ==> forall v :: !Valid(draft, s, v)
  {
    if Room(s) {
      WitnessFits(draft, s);
    }
    forall v | Valid(draft, s, v)
      ensures Room(s)
    {
      TakenLeavesRoom(draft, s, v);
    }
  }

  /** Schemas without `minItems` and `allOf`, whose bounds of numbers leave room, and whose `enum` is
      a list of strings for a string. Objects may be nested and closed in any way. */
  ghost predicate InFragment(s: Schema)
    decreases s
  {
    && Room(s) && s.minItems.None? && s.allOf == []
    && (s.choices.Some? ==> s.choices.value != [] && s.kind in {None, Some(KString)})
    && (forall k :: k in s.properties ==> InFragment(s.properties[k]))
  }

  /** An instance that says no more than it must. */
  ghost function Witness(s: Schema): Json
    decreases s
  {
    if s.choices.Some? && s.choices.value != [] then Str(s.choices.value[0])
    else match s.kind
      case None | Some(KNull) => Null
      case Some(KBoolean) => Bool(false)
      case Some(KInteger) | Some(KNumber) => NumberWitness(s)
      case Some(KString) => Str("")
      case Some(KArray) => Arr([])
      case Some(KObject) =>
        Obj(map k | k in s.properties && s.required.Some? && k in s.required.value :: Witness(s.properties[k]))
  }

  /** Every schema of the fragment that passes the check can be satisfied, although the check stops
      at objects that require nothing and never looks into arrays of arrays. */
  lemma {:induction false} AcceptedIsSatisfiable(s: Schema)
    requires InFragment(s) && Accepts(s)
    ensures Valid(false, s, Witness(s))
    decreases s
  {
    if s.kind == Some(KObject) && s.required.Some? {
      forall k | k in s.properties
        ensures Valid(false, s.properties[k], Witness(s.properties[k]))
      {
        if s.properties[k].kind == Some(KObject) {
          AcceptedIsSatisfiable(s.properties[k]);
        } else {
          LeafWitness(s.properties[k]);
        }
      }
    }
  }

  lemma {:induction false} LeafWitness(s: Schema)
    requires InFragment(s) && s.kind != Some(KObject)
    ensures Valid(false, s, Witness(s))
  {
    if s.kind in {Some(KInteger), Some(KNumber)} && s.choices.None? {
      WitnessFits(false, s);
    }
  }

  /** What the check is for: a closed object that requires a name it does not declare takes
      drafts, but no draft of it can ever be completed. */
  lemma {:induction false} UndeclaredNeverCompletes(s: Schema, name: string, v: Json)
    requires s.kind == Some(KObject) && s.additional.Forbidden? && s.allOf == [] && s.choices.None?
    requires s.required.Some? && name in s.required.value && name !in s.properties
    ensures Valid(true, s, Obj(map[]))
    ensures !Accepts(s)
    ensures !Valid(false, s, v)
  {
    assert ValidHere(false, s, v) ==> name in v.fields;
  }

  /** Outside the fragment the check lets schemas pass that nothing satisfies: a required array
      with contradictory bounds. */
  lemma {:induction false} ContradictoryBoundsPass(s: Schema, name: string, v: Json)
    requires s.kind == Some(KObject) && s.hasProperties && s.required == Some([name])
    requires s.properties.Keys == {name} && s.properties[name].kind == Some(KArray) && s.properties[name].items.None?
    requires s.properties[name].minItems.Some? && s.properties[name].maxItems.Some?
    requires s.properties[name].maxItems.value < s.properties[name].minItems.value
    ensures Accepts(s) && !Valid(false, s, v)
  {
    assert name in s.required.value;
    assert ValidHere(false, s, v) ==> name in v.fields;
  }
}
