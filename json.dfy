/**
 * The values `json.loads` and `json.load` produce, as the rest of the tool
 * sees them.  The decoder itself is not modelled: every operation that decodes
 * takes it as a parameter `decode: string -> Option<Json>`, `None` standing for
 * the exception Python raises on malformed text.
 */
module Json {
  import opened Wrappers
  import opened Text

  /**
   * A decoded JSON value.  An object keeps its members in document order, as a
   * Python dict does; a number carries the text `str()` gives the Python number
   * the decoder built from it.
   */
  datatype Json =
    | JNull
    | JBool(b: bool)
    | JNumber(text: string)
    | JString(s: string)
    | JArray(items: seq<Json>)
    | JObject(members: seq<(string, Json)>)

  /** The value of the last of the first `n` members with the given key. */
  function LookupBefore(members: seq<(string, Json)>, key: string, n: nat): Option<Json>
    requires n <= |members|
  {
    if n == 0 then None
    else if members[n - 1].0 == key then Some(members[n - 1].1)
    else LookupBefore(members, key, n - 1)
  }

  /**
   * `d[key]` / `d.get(key)` on the dict built from `members`: a later member
   * with the same key overrides an earlier one.
   */
  function Lookup(members: seq<(string, Json)>, key: string): Option<Json> {
    LookupBefore(members, key, |members|)
  }

  lemma {:induction false} LookupBeforeLast(members: seq<(string, Json)>, key: string, n: nat)
    requires n <= |members|
    ensures LookupBefore(members, key, n).None? <==> forall i :: 0 <= i < n ==> members[i].0 != key
    ensures LookupBefore(members, key, n).Some? ==>
      exists i :: 0 <= i < n && members[i] == (key, LookupBefore(members, key, n).value)
                  && forall j :: i < j < n ==> members[j].0 != key
  {
    if n > 0 && members[n - 1].0 != key {
      LookupBeforeLast(members, key, n - 1);
    }
  }

  /**
   * The lookup finds a value exactly when some member has the key, and the
   * value it finds is that of the last such member.
   */
  lemma LookupLast(members: seq<(string, Json)>, key: string)
    ensures Lookup(members, key).None? <==> !HasKey(members, key)
    ensures Lookup(members, key).Some? ==>
      exists i :: 0 <= i < |members| && members[i] == (key, Lookup(members, key).value)
                  && forall j :: i < j < |members| ==> members[j].0 != key
  {
    LookupBeforeLast(members, key, |members|);
  }

  /** Looking up either key of a two-member object. */
  lemma LookupPair(k1: string, v1: Json, k2: string, v2: Json)
    ensures Lookup([(k1, v1), (k2, v2)], k2) == Some(v2)
    ensures k1 != k2 ==> Lookup([(k1, v1), (k2, v2)], k1) == Some(v1)
  {
    var ms := [(k1, v1), (k2, v2)];
    assert ms[1].0 == k2 && ms[0].0 == k1;
    if k1 != k2 {
      assert LookupBefore(ms, k1, 1) == Some(v1);
    }
  }

  predicate HasKey(members: seq<(string, Json)>, key: string) {
    exists i :: 0 <= i < |members| && members[i].0 == key
  }

  /**
   * `repr()` of a decoded value.  Strings are quoted with `'`; the escaping
   * and the choice of quote Python applies to unusual strings are not modelled.
   */
  function Repr(j: Json): string {
    match j
    case JNull => "None"
    case JBool(b) => if b then "True" else "False"
    case JNumber(text) => text
    case JString(s) => "'" + s + "'"
    case JArray(items) =>
      "[" + Join(", ", seq(|items|, i requires 0 <= i < |items| => Repr(items[i]))) + "]"
    case JObject(members) =>
      "{" + Join(", ", seq(|members|, i requires 0 <= i < |members| =>
                                       "'" + members[i].0 + "': " + Repr(members[i].1))) + "}"
  }

  /** `str()` of a decoded value, as an f-string interpolates it. */
  function Str(j: Json): (r: string)
    ensures j.JString? ==> r == j.s
  {
    if j.JString? then j.s else Repr(j)
  }

  /**
   * The elements a Python `for` loop visits in a decoded value: the items of
   * a list, the characters of a string (as one-character strings), the keys
   * of a dict; `None` where Python raises because the value is not iterable.
   * Keys repeated in the document are visited as often as they occur; every
   * caller fails on the first key it visits, so this does not change any
   * outcome.
   */
  function Iterate(v: Json): (r: Option<seq<Json>>)
    ensures v.JArray? ==> r == Some(v.items)
    ensures (v.JNull? || v.JBool? || v.JNumber?) <==> r.None?
    ensures r.Some? && !v.JArray? ==> forall i :: 0 <= i < |r.value| ==> r.value[i].JString?
  {
    match v
    case JArray(items) => Some(items)
    case JString(s) => Some(seq(|s|, i requires 0 <= i < |s| => JString([s[i]])))
    case JObject(members) => Some(seq(|members|, i requires 0 <= i < |members| => JString(members[i].0)))
    case _ => None
  }
}
