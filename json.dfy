/**
 * The Python values the crawlers receive from `json.loads`, from YAML
 * configuration and from dictionaries built in code, together with the few
 * Python operations applied to them: truthiness, `dict.get`, iteration,
 * `len`, `in` and `str`.
 */
module PyJson {
  import opened Wrappers
  import opened Strings

  /**
   * A decoded JSON value. An object is the sequence of its members in
   * document order; when a key repeats, the last member wins, as in
   * `json.loads`.
   */
  datatype Json =
    | JNull
    | JBool(b: bool)
    | JInt(i: int)
    | JStr(s: string)
    | JList(items: seq<Json>)
    | JDict(entries: seq<(string, Json)>)

  /** Python truthiness: `None`, `False`, `0`, `''`, `[]` and `{}` are false. */
  predicate Truthy(v: Json)
  {
    match v
    case JNull => false
    case JBool(b) => b
    case JInt(i) => i != 0
    case JStr(s) => s != []
    case JList(items) => items != []
    case JDict(entries) => entries != []
  }

  /** The value stored under `key`: the last member with that key. */
  function Lookup(entries: seq<(string, Json)>, key: string): (r: Option<Json>)
    ensures r.Some? <==> exists k :: 0 <= k < |entries| && entries[k].0 == key
    ensures r.Some? ==> exists k :: 0 <= k < |entries| && entries[k] == (key, r.value)
  {
    if entries == [] then None
    else if entries[|entries| - 1].0 == key then
      Some(entries[|entries| - 1].1)
    else
      var r := Lookup(entries[..|entries| - 1], key);
      assert forall k :: 0 <= k < |entries| - 1 ==> entries[..|entries| - 1][k] == entries[k];
      r
  }

  predicate HasKey(v: Json, key: string)
  {
    v.JDict? && Lookup(v.entries, key).Some?
  }

  /** `v.get(key, default)`: only a dictionary has `get`. */
  function Get(v: Json, key: string, default: Json): (r: Result<Json>)
    ensures r.Raised? <==> !v.JDict?
    ensures r.Raised? ==> r.error == AttributeError
    ensures v.JDict? && !HasKey(v, key) ==> r == Ok(default)
  {
    match v
    case JDict(entries) =>
      (match Lookup(entries, key)
       case Some(x) => Ok(x)
       case None => Ok(default))
    case _ => Raised(AttributeError)
  }

  /** `d.get(key, default)` on a value already known to be a dictionary. */
  function Field(d: Json, key: string, default: Json): Json
    requires d.JDict?
  {
    Get(d, key, default).value
  }

  /** The distinct keys of a dictionary in order of first appearance. */
  function Keys(entries: seq<(string, Json)>): (ks: seq<string>)
    ensures forall i, j :: 0 <= i < j < |ks| ==> ks[i] != ks[j]
    ensures forall key :: key in ks <==> exists k :: 0 <= k < |entries| && entries[k].0 == key
  {
    if entries == [] then []
    else
      var front := Keys(entries[..|entries| - 1]);
      var key := entries[|entries| - 1].0;
      assert forall k :: 0 <= k < |entries| - 1 ==> entries[..|entries| - 1][k] == entries[k];
      if key in front then front else front + [key]
  }

  function AsStrings(ks: seq<string>): (r: seq<Json>)
    ensures |r| == |ks| && forall i :: 0 <= i < |ks| ==> r[i] == JStr(ks[i])
  {
    seq(|ks|, i requires 0 <= i < |ks| => JStr(ks[i]))
  }

  /**
   * The elements a Python `for` loop visits: the items of a list, the keys
   * of a dictionary, the one-character strings of a string. Anything else
   * raises `TypeError`.
   */
  function Iterate(v: Json): (r: Result<seq<Json>>)
    ensures r.Ok? <==> (v.JList? || v.JDict? || v.JStr?)
    ensures r.Raised? ==> r.error == TypeError
    ensures v.JList? ==> r == Ok(v.items)
    ensures r.Ok? ==> (r.value == [] <==> !Truthy(v))
  {
    match v
    case JList(items) => Ok(items)
    case JDict(entries) =>
      if entries == [] then Ok([])
      else
        assert entries[0].0 in Keys(entries);
        Ok(AsStrings(Keys(entries)))
    case JStr(s) => Ok(seq(|s|, i requires 0 <= i < |s| => JStr([s[i]])))
    case _ => Raised(TypeError)
  }

  /** Python's `len(v)`. */
  function Len(v: Json): (r: Result<nat>)
    ensures r.Ok? <==> Iterate(v).Ok?
    ensures r.Ok? ==> r.value == |Iterate(v).value|
  {
    match Iterate(v)
    case Ok(xs) => Ok(|xs|)
    case Raised(e) => Raised(e)
  }

  /** Python's `needle in v` for a string needle. */
  function In(needle: string, v: Json): (r: Result<bool>)
    ensures r.Raised? <==> !(v.JStr? || v.JList? || v.JDict?)
    ensures v.JStr? ==> r == Ok(Contains(v.s, needle))
    ensures v.JList? ==> r == Ok(JStr(needle) in v.items)
    ensures v.JDict? ==> r == Ok(Lookup(v.entries, needle).Some?)
  {
    match v
    case JStr(s) => Ok(Contains(s, needle))
    case JList(items) => Ok(JStr(needle) in items)
    case JDict(entries) => Ok(Lookup(entries, needle).Some?)
    case _ => Raised(TypeError)
  }

  /** Python's `str(v)`; a string inside a container prints quoted. */
  function Str(v: Json): (r: string)
    ensures v.JStr? ==> r == v.s
    ensures v.JInt? ==> r == IntToString(v.i)
    ensures v.JNull? ==> r == "None"
  {
    match v
    case JStr(s) => s
    case _ => Repr(v)
  }

  /** Python's `repr(v)`, with strings between single quotes. */
  function Repr(v: Json): string
    decreases v, 1
  {
    match v
    case JNull => "None"
    case JBool(b) => if b then "True" else "False"
    case JInt(i) => IntToString(i)
    case JStr(s) => "'" + s + "'"
    case JList(items) => "[" + ReprItems(v, items) + "]"
    case JDict(entries) => "{" + ReprEntries(v, entries) + "}"
  }

  function ReprItems(parent: Json, items: seq<Json>): string
    requires forall x :: x in items ==> x < parent
    decreases parent, 0, |items|
  {
    if items == [] then ""
    else
      assert items[0] in items;
      assert forall x :: x in items[1..] ==> x in items;
      if |items| == 1 then Repr(items[0]) else Repr(items[0]) + ", " + ReprItems(parent, items[1..])
  }

  function ReprEntries(parent: Json, entries: seq<(string, Json)>): string
    requires forall e :: e in entries ==> e.1 < parent
    decreases parent, 0, |entries|
  {
    if entries == [] then ""
    else
      assert entries[0] in entries;
      assert forall e :: e in entries[1..] ==> e in entries;
      var member := "'" + entries[0].0 + "': " + Repr(entries[0].1);
      if |entries| == 1 then member else member + ", " + ReprEntries(parent, entries[1..])
  }
}
