/**
  The content test of the date-and-identifier mover (app/main.py,
  `check_file_content`): find a `SalesCompanyId` in a parsed JSON document,
  at the top level or one level down, and compare its `str` with the target.
 */
module ContentCheck {
  import opened Wrappers
  import opened PyText

  const SalesCompanyIdKey: string := "SalesCompanyId"

  /** A value as `json.loads` returns it. An object is a Python dict: its
      fields in insertion order. A float keeps its literal text; its `str`
      is left to the formatter (see `PyStr`). */
  datatype Json =
    | JNull
    | JBool(b: bool)
    | JInt(i: int)
    | JFloat(literal: string)
    | JStr(s: string)
    | JArray(items: seq<Json>)
    | JObject(fields: seq<(string, Json)>)

  /** What reading a file's content gives. */
  datatype Content =
    | Parsed(data: Json)   // download, UTF-8 decoding and `json.loads` succeeded
    | NotJson              // `json.loads` raised `JSONDecodeError`
    | Unreadable           // the download or the UTF-8 decoding raised

  /** Where the identifier search ends: a value, nothing, or a `TypeError`
      (indexing a list or a string by a key, or `in` on a scalar). */
  datatype Lookup = Found(value: Json) | Absent | Raised

  /** `d[key]` when `key in d`, for a dict given by its fields. */
  function Get(fields: seq<(string, Json)>, key: string): (r: Option<Json>)
    ensures r.Some? <==> exists i :: 0 <= i < |fields| && fields[i].0 == key
    ensures r.Some? ==> (key, r.value) in fields
  {
    if fields == [] then None
    else if fields[0].0 == key then Some(fields[0].1)
    else Get(fields[1..], key)
  }

  /** The one-level-down test of one field's value: a dict holding the key,
      or a non-empty list whose first element is such a dict. */
  function Held(value: Json): Option<Json> {
    match value
    case JObject(fs) => Get(fs, SalesCompanyIdKey)
    case JArray(items) =>
      if items != [] && items[0].JObject? then Get(items[0].fields, SalesCompanyIdKey) else None
    case _ => None
  }

  /** The value held by the first field, in key order, that holds one. */
  function NestedLookup(fields: seq<(string, Json)>): Option<Json> {
    if fields == [] then None
    else if Held(fields[0].1).Some? then Held(fields[0].1)
    else NestedLookup(fields[1..])
  }

  /** The identifier search as a whole, on any JSON value. */
  function IdLookup(data: Json): Lookup {
    match data
    case JObject(fields) =>
      if Get(fields, SalesCompanyIdKey).Some? then Found(Get(fields, SalesCompanyIdKey).value)
      else if NestedLookup(fields).Some? then Found(NestedLookup(fields).value)
      else Absent
    case JArray(items) => if JStr(SalesCompanyIdKey) in items then Raised else Absent
    case JStr(s) => if Contains(s, SalesCompanyIdKey) then Raised else Absent
    case _ => Raised
  }

  /** Python's `str(v)`. Ints, strings, booleans and null are spelled out;
      floats, lists and dicts go through `fmt`, which the model does not
      interpret. */
  function PyStr(v: Json, fmt: Json -> string): string {
    match v
    case JNull => "None"
    case JBool(b) => if b then "True" else "False"
    case JInt(i) => IntStr(i)
    case JStr(s) => s
    case _ => fmt(v)
  }

  /** What `check_file_content` returns for the given content and target. */
  function ContentAccepted(content: Content, target: Option<string>, fmt: Json -> string): bool {
    match content
    case Unreadable => false
    case NotJson => target.None?
    case Parsed(data) =>
      target.None? ||
      (IdLookup(data).Found? && PyStr(IdLookup(data).value, fmt) == target.value)
  }

  /** The search of lines 66-82, with its loop over the fields and its
      `break` at the first field that holds the key. */
  method SearchSalesCompanyId(data: Json) returns (r: Lookup)
    ensures r == IdLookup(data)
  {
    match data {
      case JObject(fields) =>
        var direct := Get(fields, SalesCompanyIdKey);
        if direct.Some? {
          return Found(direct.value);
        }
        r := Absent;
        var i := 0;
        while i < |fields|
          invariant 0 <= i <= |fields|
          invariant NestedLookup(fields[i..]) == NestedLookup(fields)
          invariant r == Absent
        {
          assert fields[i..][1..] == fields[i + 1..];
          var value := fields[i].1;
          if value.JObject? && Get(value.fields, SalesCompanyIdKey).Some? {
            r := Found(Get(value.fields, SalesCompanyIdKey).value);
            break;
          } else if value.JArray? {
            if value.items != [] && value.items[0].JObject?
               && Get(value.items[0].fields, SalesCompanyIdKey).Some? {
              r := Found(Get(value.items[0].fields, SalesCompanyIdKey).value);
              break;
            }
          }
          i := i + 1;
        }
      case JArray(items) =>
        r := if JStr(SalesCompanyIdKey) in items then Raised else Absent;
      case JStr(s) =>
        r := if Contains(s, SalesCompanyIdKey) then Raised else Absent;
      case _ =>
        r := Raised;
    }
  }

  /** `check_file_content` once the content is read: with a target, the
      search must find a value whose `str` equals the target. */
  method CheckFileContent(content: Content, target: Option<string>, fmt: Json -> string)
    returns (accepted: bool)
    ensures accepted == ContentAccepted(content, target, fmt)
  {
    match content {
      case Unreadable =>
        accepted := false;
      case NotJson =>
        accepted := target.None?;
      case Parsed(data) =>
        if target.None? {
          return true;
        }
        var found := SearchSalesCompanyId(data);
        if found.Raised? || found.Absent? {
          return false;
        }
        accepted := PyStr(found.value, fmt) == target.value;
    }
  }

  // ---------------------------------------------------------------------
  // Properties

  /** The nested search finds nothing exactly when no field holds the key,
      and otherwise returns what the first holding field holds. */
  lemma {:induction false} NestedLookupIsFirstHolder(fs: seq<(string, Json)>)
    ensures NestedLookup(fs).None? <==> forall i :: 0 <= i < |fs| ==> Held(fs[i].1).None?
    ensures NestedLookup(fs).Some? ==>
      exists i :: 0 <= i < |fs| && Held(fs[i].1) == NestedLookup(fs) &&
        forall j :: 0 <= j < i ==> Held(fs[j].1).None?
  {
    if fs != [] {
      NestedLookupIsFirstHolder(fs[1..]);
      if Held(fs[0].1).None? && NestedLookup(fs[1..]).Some? {
        var i :| 0 <= i < |fs[1..]| && Held(fs[1..][i].1) == NestedLookup(fs[1..]) &&
          forall j :: 0 <= j < i ==> Held(fs[1..][j].1).None?;
        assert Held(fs[i + 1].1) == NestedLookup(fs);
        assert forall j :: 0 <= j < i + 1 ==> Held(fs[j].1).None? by {
          forall j | 0 <= j < i + 1 ensures Held(fs[j].1).None? {
            if j > 0 {
              assert fs[j] == fs[1..][j - 1];
            }
          }
        }
      }
      if forall i :: 0 <= i < |fs| ==> Held(fs[i].1).None? {
        forall i | 0 <= i < |fs[1..]| ensures Held(fs[1..][i].1).None? {
          assert fs[1..][i] == fs[i + 1];
        }
      }
    }
  }

  /** The search order: a top-level key wins; otherwise the first field in
      key order that holds the key one level down; otherwise nothing. */
  lemma SearchOrder(fs: seq<(string, Json)>)
    ensures Get(fs, SalesCompanyIdKey).Some? ==>
      IdLookup(JObject(fs)) == Found(Get(fs, SalesCompanyIdKey).value)
    ensures Get(fs, SalesCompanyIdKey).None? ==>
      (IdLookup(JObject(fs)) == Absent <==> forall i :: 0 <= i < |fs| ==> Held(fs[i].1).None?)
    ensures Get(fs, SalesCompanyIdKey).None? && IdLookup(JObject(fs)).Found? ==>
      exists i :: 0 <= i < |fs| && Held(fs[i].1) == Some(IdLookup(JObject(fs)).value) &&
        forall j :: 0 <= j < i ==> Held(fs[j].1).None?
  {
    NestedLookupIsFirstHolder(fs);
  }

  /** With a target set, a file is accepted exactly when it parsed to a JSON
      object, the search found a value, and that value's `str` is the
      target. Unreadable content, invalid JSON, any other top-level value,
      an absent key and a mismatch are all rejected. */
  lemma AcceptedWithTargetIff(content: Content, t: string, fmt: Json -> string)
    ensures ContentAccepted(content, Some(t), fmt) <==>
      content.Parsed? && content.data.JObject? &&
      IdLookup(content.data).Found? && PyStr(IdLookup(content.data).value, fmt) == t
  {
  }

  /** Without a target the content only has to be readable. */
  lemma AcceptedWithoutTarget(content: Content, fmt: Json -> string)
    ensures ContentAccepted(content, None, fmt) <==> !content.Unreadable?
  {
  }

  /** `{"SalesCompanyId": 42}` matches the target "42": `str(42)` is "42". */
  lemma IntIdMatchesItsDecimalText(fmt: Json -> string)
    ensures ContentAccepted(Parsed(JObject([(SalesCompanyIdKey, JInt(42))])), Some("42"), fmt)
  {
    assert IntStr(42) == Digits(4) + [DigitChar(2)];
  }

  /** An integer identifier never matches a zero-padded target such as
      "042": `str()` of an int writes no leading zero. */
  lemma PaddedTargetNeverMatchesInt(i: int, target: string, fmt: Json -> string)
    requires |target| >= 2 && target[0] == '0'
    ensures !ContentAccepted(Parsed(JObject([(SalesCompanyIdKey, JInt(i))])), Some(target), fmt)
  {
    ZeroPaddedIsNoIntStr(target, i);
  }

  /** A JSON null is found, and its `str` is "None". */
  lemma NullIdIsFound(fmt: Json -> string)
    ensures ContentAccepted(Parsed(JObject([(SalesCompanyIdKey, JNull)])), Some("None"), fmt)
  {
  }

  /** Two levels down, or in a list's second element, is never searched. */
  lemma DeeperNestingIgnored()
    ensures IdLookup(JObject([("a", JObject([("b", JObject([(SalesCompanyIdKey, JInt(1))]))]))])) == Absent
    ensures IdLookup(JObject([("a", JArray([JNull, JObject([(SalesCompanyIdKey, JInt(1))])]))])) == Absent
  {
    assert |"a"| != |SalesCompanyIdKey| && |"b"| != |SalesCompanyIdKey|;
    var deep := JObject([("b", JObject([(SalesCompanyIdKey, JInt(1))]))]);
    assert Get(deep.fields, SalesCompanyIdKey) == None;
    assert Held(deep) == None;
    var fs := [("a", deep)];
    assert NestedLookup(fs) == NestedLookup(fs[1..]);
    var list := JArray([JNull, JObject([(SalesCompanyIdKey, JInt(1))])]);
    assert Held(list) == None;
    var gs := [("a", list)];
    assert Get(gs, SalesCompanyIdKey) == Get(gs[1..], SalesCompanyIdKey);
    assert NestedLookup(gs) == NestedLookup(gs[1..]);
  }
}
