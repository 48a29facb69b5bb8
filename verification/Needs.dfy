/** The arguments of permission needs: JSON texts that are compared and stored as strings
    (b2share/modules/deposit/permissions.py, b2share/modules/access/permissions.py). */
module Needs {
  import opened Options
  import opened KeyOrder
  import opened Sequences

  // ---------------------------------------------------------------------------------------
  // Characters
  // ---------------------------------------------------------------------------------------

  function Digit(d: nat): char
    requires d < 16
  {
    if d < 10 then '0' + d as char else 'a' + (d - 10) as char
  }

  function DigitValue(c: char): Option<nat> {
    if '0' <= c <= '9' then Some((c - '0') as nat)
    else if 'a' <= c <= 'f' then Some((c - 'a') as nat + 10)
    else if 'A' <= c <= 'F' then Some((c - 'A') as nat + 10)
    else None
  }

  function Hex(n: nat): string
    requires n < 0x10000
  {
    [Digit(n / 4096), Digit(n / 256 % 16), Digit(n / 16 % 16), Digit(n % 16)]
  }

  /** The number written in the four characters from position `at`. */
  function ReadHex(t: string, at: nat): Option<nat> {
    if |t| < at + 4 then None
    else
      match (DigitValue(t[at]), DigitValue(t[at + 1]), DigitValue(t[at + 2]), DigitValue(t[at + 3]))
      case (Some(a), Some(b), Some(c), Some(d)) => Some(4096 * a + 256 * b + 16 * c + d)
      case _ => None
  }

  function SurrogatePair(high: nat, low: nat): string
    requires high < 0x400 && low < 0x400
  {
    "\\u" + Hex(0xd800 + high) + "\\u" + Hex(0xdc00 + low)
  }

  /** A character inside a JSON string; everything outside printable ASCII is escaped, and
      characters above U+FFFF become a surrogate pair. */
  function Escape(c: char): string {
    var n := c as int;
    if c == '"' || c == '\\' then ['\\', c]
    else if c == '\n' then "\\n"
    else if c == '\r' then "\\r"
    else if c == '\t' then "\\t"
    else if n == 12 then "\\f"
    else if n == 8 then "\\b"
    else if ' ' <= c <= '~' then [c]
    else if n < 0x10000 then "\\u" + Hex(n)
    else SurrogatePair((n - 0x10000) / 0x400, (n - 0x10000) % 0x400)
  }

  function EscapeAll(s: string): string {
    if s == [] then [] else Escape(s[0]) + EscapeAll(s[1..])
  }

  /** The first character of a JSON string's text and how much of the text it takes. */
  function ReadChar(t: string): (r: Option<(char, nat)>)
    ensures r.Some? ==> 0 < r.value.1 <= |t| && t[0] != '"'
  {
    if t == [] || t[0] < ' ' || t[0] == '"' then None
    else if t[0] != '\\' then Some((t[0], 1))
    else if |t| < 2 then None
    else
      match t[1]
      case '"' => Some(('"', 2))
      case '\\' => Some(('\\', 2))
      case '/' => Some(('/', 2))
      case 'n' => Some(('\n', 2))
      case 'r' => Some(('\r', 2))
      case 't' => Some(('\t', 2))
      case 'f' => Some((12 as char, 2))
      case 'b' => Some((8 as char, 2))
      case 'u' => ReadEscape(t)
      case _ => None
  }

  function ReadEscape(t: string): Option<(char, nat)> {
    match (ReadHex(t, 2), if IsEscape(t, 6) then ReadHex(t, 8) else None)
    case (Some(n), Some(m)) =>
      if 0xd800 <= n < 0xdc00 <= m < 0xe000 then Some(((0x10000 + 0x400 * (n - 0xd800) + (m - 0xdc00)) as char, 12))
      else ReadScalar(n)
    case (Some(n), None) => ReadScalar(n)
    case (None, _) => None
  }

  predicate IsEscape(t: string, at: nat) {
    |t| >= at + 2 && t[at] == '\\' && t[at + 1] == 'u'
  }

  function ReadScalar(n: nat): Option<(char, nat)> {
    if n < 0xd800 || 0xe000 <= n < 0x110000 then Some((n as char, 6)) else None
  }

  lemma {:induction false} DigitRoundTrip(d: nat)
    requires d < 16
    ensures DigitValue(Digit(d)) == Some(d)
  {
    if d < 10 {
      assert '0' <= Digit(d) <= '9';
    } else {
      assert 'a' <= Digit(d) <= 'f';
    }
  }

  const HEX_DIGITS := "0123456789abcdef"

  lemma {:induction false} DigitIs(d: nat)
    requires d < 16
    ensures Digit(d) == HEX_DIGITS[d]
  {
  }

  predicate IsPlain(c: char) {
    ' ' <= c <= '~' && c != '"' && c != '\\'
  }

  /** The escapes: plain characters stand for themselves, seven have short escapes, the others are
      written in lower-case hexadecimal digits. */
  lemma {:induction false} EscapesAre(c: char)
    ensures IsPlain(c) ==> Escape(c) == [c]
    ensures Escape('"') == "\\\"" && Escape('\\') == "\\\\" && Escape('\n') == "\\n" && Escape('\r') == "\\r"
    ensures Escape('\t') == "\\t" && Escape(8 as char) == "\\b" && Escape(12 as char) == "\\f"
    ensures var n := c as int;
            !IsPlain(c) && !IsShort(c) && n < 0x10000 ==>
              Escape(c) == ['\\', 'u', HEX_DIGITS[n / 4096], HEX_DIGITS[n / 256 % 16], HEX_DIGITS[n / 16 % 16], HEX_DIGITS[n % 16]]
  {
    var n := c as int;
    if n < 0x10000 {
      HexDigits(n);
      DigitIs(n / 4096);
      DigitIs(n / 256 % 16);
      DigitIs(n / 16 % 16);
      DigitIs(n % 16);
    }
  }

  predicate AllPlain(t: string) {
    forall c :: c in t ==> IsPlain(c)
  }

  lemma {:induction false} EscapeAllCons(c: char, t: string)
    ensures EscapeAll([c] + t) == Escape(c) + EscapeAll(t)
  {
    assert ([c] + t)[1..] == t;
  }

  lemma {:induction false} PlainIsKept(t: string)
    requires AllPlain(t)
    ensures EscapeAll(t) == t
  {
    if t != [] {
      var c, more := t[0], t[1..];
      assert t == [c] + more;
      assert forall d :: d in more ==> d in t;
      PlainIsKept(more);
      EscapeAllCons(c, more);
      assert IsPlain(c);
      EscapesAre(c);
    }
  }

  lemma {:induction false} HexDigits(n: nat)
    requires n < 0x10000
    ensures n / 4096 < 16
    ensures n == 4096 * (n / 4096) + 256 * (n / 256 % 16) + 16 * (n / 16 % 16) + n % 16
  {
    assert n / 256 / 16 == n / 4096;
    assert n / 16 / 16 == n / 256;
  }

  lemma {:induction false} ReadHexOfHex(n: nat, t: string, at: nat)
    requires n < 0x10000 && |t| >= at + 4
    requires t[at] == Hex(n)[0] && t[at + 1] == Hex(n)[1] && t[at + 2] == Hex(n)[2] && t[at + 3] == Hex(n)[3]
    ensures ReadHex(t, at) == Some(n)
  {
    HexDigits(n);
    DigitRoundTrip(n / 4096);
    DigitRoundTrip(n / 256 % 16);
    DigitRoundTrip(n / 16 % 16);
    DigitRoundTrip(n % 16);
  }

  predicate IsShort(c: char) {
    c in "\"\\\n\r\t" || c as int in {8, 12}
  }

  lemma {:induction false} ReadCharOfEscape(c: char, rest: string)
    ensures Escape(c) != []
    ensures ReadChar(Escape(c) + rest) == Some((c, |Escape(c)|))
  {
    var n := c as int;
    if IsShort(c) {
      ReadShort(c, rest);
    } else if ' ' <= c <= '~' {
      assert ([c] + rest)[0] == c;
    } else if n < 0x10000 {
      ReadEscapeOfHex(n, rest);
    } else {
      ReadEscapeOfPair((n - 0x10000) / 0x400, (n - 0x10000) % 0x400, rest);
    }
  }

  lemma {:induction false} ReadShort(c: char, rest: string)
    requires IsShort(c)
    ensures |Escape(c)| == 2
    ensures ReadChar(Escape(c) + rest) == Some((c, 2))
  {
    var t := Escape(c) + rest;
    assert t[0] == '\\' && t[1] == Escape(c)[1];
  }

  lemma {:induction false} ReadEscapeOfHex(n: nat, rest: string)
    requires n < 0xd800 || 0xe000 <= n < 0x10000
    ensures ReadChar("\\u" + Hex(n) + rest) == Some((n as char, 6))
  {
    var t := "\\u" + Hex(n) + rest;
    ReadHexOfHex(n, t, 2);
    assert IsEscape(t, 0);
  }

  lemma {:induction false} ReadEscapeOfPair(high: nat, low: nat, rest: string)
    requires high < 0x400 && low < 0x400
    ensures ReadChar(SurrogatePair(high, low) + rest) == Some(((0x10000 + 0x400 * high + low) as char, 12))
  {
    var t := SurrogatePair(high, low) + rest;
    ReadHexOfHex(0xd800 + high, t, 2);
    ReadHexOfHex(0xdc00 + low, t, 8);
    assert IsEscape(t, 0) && IsEscape(t, 6);
  }

  // ---------------------------------------------------------------------------------------
  // Objects
  // ---------------------------------------------------------------------------------------

  /** The keyword arguments of a need; an argument may be Python's None. */
  type Arguments = map<string, Option<string>>

  function PrintValue(v: Option<string>): string {
    if v.None? then "null" else "\"" + EscapeAll(v.value) + "\""
  }

  function PrintField(k: string, v: Option<string>): string {
    "\"" + EscapeAll(k) + "\":" + PrintValue(v)
  }

  function PrintFields(m: Arguments): string
    requires m != map[]
    decreases |m|
  {
    var k := Least(m.Keys);
    var rest := m - {k};
    PrintField(k, m[k]) + if rest == map[] then "" else "," + PrintFields(rest)
  }

  /** `json.dumps` with sorted keys and without spaces. */
  function Print(m: Arguments): string {
    "{" + (if m == map[] then "" else PrintFields(m)) + "}"
  }

  /** A string after its opening quote, and the text that follows it. */
  function ReadString(t: string): (r: Option<(string, string)>)
    ensures r.Some? ==> |r.value.1| < |t|
    decreases |t|
  {
    if t == [] then None
    else if t[0] == '"' then Some(("", t[1..]))
    else
      match ReadChar(t)
      case None => None
      case Some((c, n)) =>
        match ReadString(t[n..])
        case None => None
        case Some((s, rest)) => Some(([c] + s, rest))
  }

  function ReadValue(t: string): (r: Option<(Option<string>, string)>)
    ensures r.Some? ==> |r.value.1| < |t|
  {
    if |t| >= 4 && t[..4] == "null" then Some((None, t[4..]))
    else if t != [] && t[0] == '"' then
      match ReadString(t[1..])
      case None => None
      case Some((s, rest)) => Some((Some(s), rest))
    else None
  }

  function ReadField(t: string): (r: Option<(string, Option<string>, string)>)
    ensures r.Some? ==> |r.value.2| < |t|
  {
    if t == [] || t[0] != '"' then None
    else
      match ReadString(t[1..])
      case None => None
      case Some((k, rest)) =>
        if rest == [] || rest[0] != ':' then None
        else
          match ReadValue(rest[1..])
          case None => None
          case Some((v, after)) => Some((k, v, after))
  }

  function ReadFields(t: string): Option<Arguments>
    decreases |t|
  {
    match ReadField(t)
    case None => None
    case Some((k, v, rest)) =>
      if rest == "}" then Some(map[k := v])
      else if rest == [] || rest[0] != ',' then None
      else
        match ReadFields(rest[1..])
        case None => None
        case Some(m) => Some(map[k := v] + m)
  }

  /** A reader of compact objects of strings and nulls, where a repeated key keeps its last value. It
      shows that printed texts are read back; what readers make of other texts is not looked into. */
  function Parse(t: string): Option<Arguments> {
    if t == "{}" then Some(map[])
    else if t == [] || t[0] != '{' then None
    else ReadFields(t[1..])
  }

  lemma {:induction false} ReadStringEnd(rest: string)
    ensures ReadString(EscapeAll("") + "\"" + rest) == Some(("", rest))
  {
    assert EscapeAll("") + "\"" + rest == "\"" + rest;
    assert ("\"" + rest)[1..] == rest;
  }

  lemma {:induction false} ReadStringStep(c: char, tail: string, s: string, rest: string)
    requires ReadString(tail) == Some((s, rest))
    ensures ReadString(Escape(c) + tail) == Some(([c] + s, rest))
  {
    ReadCharOfEscape(c, tail);
    assert (Escape(c) + tail)[|Escape(c)|..] == tail;
  }

  lemma {:induction false} EscapeAllStep(c: char, s: string, rest: string)
    ensures EscapeAll([c] + s) + "\"" + rest == Escape(c) + (EscapeAll(s) + "\"" + rest)
  {
    assert ([c] + s)[1..] == s;
    Regroup(Escape(c), EscapeAll(s), "\"");
    Regroup(Escape(c), EscapeAll(s) + "\"", rest);
  }

  lemma {:induction false} ReadStringOfEscape(s: string, rest: string)
    ensures ReadString(EscapeAll(s) + "\"" + rest) == Some((s, rest))
  {
    if s == [] {
      ReadStringEnd(rest);
    } else {
      var c, more := s[0], s[1..];
      ReadStringOfEscape(more, rest);
      ReadStringStep(c, EscapeAll(more) + "\"" + rest, more, rest);
      EscapeAllStep(c, more, rest);
      assert s == [c] + more;
    }
  }

  lemma {:induction false} ReadValueOfPrint(v: Option<string>, rest: string)
    ensures ReadValue(PrintValue(v) + rest) == Some((v, rest))
  {
    if v.None? {
      assert ("null" + rest)[..4] == "null";
    } else {
      var tail := EscapeAll(v.value) + "\"" + rest;
      assert PrintValue(v) + rest == "\"" + tail;
      assert ("\"" + tail)[0] == '"' && ("\"" + tail)[1..] == tail;
      assert |tail| >= 3 ==> ("\"" + tail)[..4][0] == '"';
      ReadStringOfEscape(v.value, rest);
    }
  }

  lemma {:induction false} FieldText(key: string, value: string, rest: string)
    ensures "\"" + key + "\":" + value + rest == "\"" + (key + "\"" + (":" + (value + rest)))
  {
    assert "\":" == "\"" + ":";
    Regroup("\"" + key, "\"", ":");
    Regroup("\"" + key + "\"", ":", value);
    Regroup("\"" + key + "\"", ":" + value, rest);
    Regroup(":", value, rest);
    Regroup("\"", key, "\"");
    Regroup("\"", key + "\"", ":" + (value + rest));
  }

  lemma {:induction false} ReadFieldStep(text: string, k: string, after: string, v: Option<string>, rest: string)
    requires ReadString(text) == Some((k, ":" + after)) && ReadValue(after) == Some((v, rest))
    ensures ReadField("\"" + text) == Some((k, v, rest))
  {
    assert ("\"" + text)[1..] == text && ("\"" + text)[0] == '"';
    assert (":" + after)[1..] == after && (":" + after)[0] == ':';
  }

  lemma {:induction false} ReadFieldOfPrint(k: string, v: Option<string>, rest: string)
    ensures ReadField(PrintField(k, v) + rest) == Some((k, v, rest))
  {
    var after := PrintValue(v) + rest;
    FieldText(EscapeAll(k), PrintValue(v), rest);
    ReadStringOfEscape(k, ":" + after);
    ReadValueOfPrint(v, rest);
    ReadFieldStep(EscapeAll(k) + "\"" + (":" + after), k, after, v, rest);
  }

  lemma {:induction false} ReadLastField(k: string, v: Option<string>)
    ensures ReadFields(PrintField(k, v) + "}") == Some(map[k := v])
  {
    ReadFieldOfPrint(k, v, "}");
  }

  lemma {:induction false} ReadFirstField(k: string, v: Option<string>, tail: string, m: Arguments)
    requires ReadFields(tail) == Some(m)
    ensures ReadFields(PrintField(k, v) + ("," + tail)) == Some(map[k := v] + m)
  {
    ReadFieldOfPrint(k, v, "," + tail);
    assert ("," + tail)[1..] == tail;
    assert ("," + tail)[0] == ',';
  }

  lemma {:induction false} SplitKey(m: Arguments, k: string)
    requires k in m
    ensures m == map[k := m[k]] + (m - {k})
  {
  }

  lemma {:induction false} OnlyKey(m: Arguments, k: string)
    requires k in m && m - {k} == map[]
    ensures m == map[k := m[k]]
  {
    forall x | x in m
      ensures x == k
    {
      assert x != k ==> x in m - {k};
    }
  }

  lemma {:induction false} PrintedFields(m: Arguments, k: string, rest: Arguments)
    requires m != map[] && k == Least(m.Keys) && rest == m - {k}
    ensures rest == map[] ==> PrintFields(m) == PrintField(k, m[k])
    ensures rest != map[] ==> PrintFields(m) + "}" == PrintField(k, m[k]) + ("," + (PrintFields(rest) + "}"))
  {
  }

  lemma {:induction false} ReadFieldsOfPrint(m: Arguments)
    requires m != map[]
    ensures ReadFields(PrintFields(m) + "}") == Some(m)
    decreases |m|
  {
    var k := Least(m.Keys);
    var rest := m - {k};
    PrintedFields(m, k, rest);
    if rest == map[] {
      ReadLastField(k, m[k]);
      OnlyKey(m, k);
    } else {
      ReadFieldsOfPrint(rest);
      ReadFirstField(k, m[k], PrintFields(rest) + "}", rest);
      SplitKey(m, k);
    }
  }

  lemma {:induction false} ParseObject(body: string)
    requires |body| > 1
    ensures Parse("{" + body) == ReadFields(body)
  {
    assert ("{" + body)[1..] == body;
    assert ("{" + body)[0] == '{';
  }

  /** What is printed is read back. */
  lemma {:induction false} ParseOfPrint(m: Arguments)
    ensures Parse(Print(m)) == Some(m)
  {
    if m == map[] {
      assert Print(m) == "{}";
    } else {
      PrintedFields(m, Least(m.Keys), m - {Least(m.Keys)});
      assert Print(m) == "{" + (PrintFields(m) + "}");
      ReadFieldsOfPrint(m);
      ParseObject(PrintFields(m) + "}");
    }
  }

  function PlainField(k: string, v: string): string {
    "\"" + k + "\":\"" + v + "\""
  }

  lemma {:induction false} PrintedPlain(k: string, v: string)
    requires AllPlain(k) && AllPlain(v)
    ensures PrintField(k, Some(v)) == PlainField(k, v)
  {
    PlainIsKept(k);
    PlainIsKept(v);
    var front := "\"" + k + "\":";
    Regroup(front, "\"", v);
    Regroup(front, "\"" + v, "\"");
    Regroup("\"" + k, "\":", "\"");
    assert "\":" + "\"" == "\":\"";
  }

  lemma {:induction false} PrintedFirst(m: Arguments, k: string, v: string)
    requires k in m && m[k] == Some(v) && IsLeast(k, m.Keys) && AllPlain(k) && AllPlain(v)
    ensures PrintFields(m) == PlainField(k, v) + if m - {k} == map[] then "" else "," + PrintFields(m - {k})
  {
    LeastIsUnique(m.Keys, k, Least(m.Keys));
    PrintedPlain(k, v);
  }

  lemma {:induction false} PrintedOne(m: Arguments, k: string, v: string)
    requires AllPlain(k) && AllPlain(v) && k in m && m == map[k := Some(v)]
    ensures PrintFields(m) == PlainField(k, v)
  {
    assert m - {k} == map[];
    PrintedFirst(m, k, v);
    assert PlainField(k, v) + "" == PlainField(k, v);
  }

  lemma {:induction false} PrintedTwo(m: Arguments, a: string, b: string, x: string, y: string)
    requires Less(a, b) && AllPlain(a) && AllPlain(b) && AllPlain(x) && AllPlain(y)
    requires a in m && m == map[a := Some(x), b := Some(y)]
    ensures PrintFields(m) == PlainField(a, x) + ("," + PlainField(b, y))
  {
    LessIsStrict(a);
    var rest: Arguments := map[b := Some(y)];
    assert b in rest && m - {a} == rest;
    PrintedFirst(m, a, x);
    PrintedOne(rest, b, y);
  }

  /** The text of an object with three plain strings has the fields in the order of their keys. */
  lemma {:induction false} PrintedThree(a: string, b: string, c: string, x: string, y: string, z: string)
    requires Less(a, b) && Less(b, c)
    requires AllPlain(a) && AllPlain(b) && AllPlain(c) && AllPlain(x) && AllPlain(y) && AllPlain(z)
    ensures Print(map[a := Some(x), b := Some(y), c := Some(z)]) ==
            "{" + (PlainField(a, x) + ("," + (PlainField(b, y) + ("," + PlainField(c, z))))) + "}"
  {
    var m: Arguments := map[a := Some(x), b := Some(y), c := Some(z)];
    LessIsTransitive(a, b, c);
    LessIsStrict(a);
    var rest: Arguments := map[b := Some(y), c := Some(z)];
    assert b in rest && m - {a} == rest && a in m;
    PrintedFirst(m, a, x);
    PrintedTwo(rest, b, c, y, z);
  }

  // ---------------------------------------------------------------------------------------
  // Needs
  // ---------------------------------------------------------------------------------------

  datatype Need = Need(action: string, argument: Option<string>)

  /** The two need factories. Both mean to drop None arguments, but look for None among the names
      of the arguments, and so drop nothing. */
  function NeedFactory(name: string, arguments: Arguments): Need {
    Need(name, if arguments == map[] then None else Some(Print(arguments)))
  }

  /** Needs are equal exactly when they were made with the same name and the same arguments. */
  lemma {:induction false} NeedsEqualIff(name: string, arguments: Arguments, name': string, arguments': Arguments)
    ensures NeedFactory(name, arguments) == NeedFactory(name', arguments') <==>
              name == name' && arguments == arguments'
  {
    ParseOfPrint(arguments);
    ParseOfPrint(arguments');
  }
}
