/** The JSON values the two Flask optimizers receive, with the parts of
    Python's semantics their checks rely on: truthiness, `isinstance` against
    `int` (which a `bool` also is) and `(int, float)`, and the `in` operator,
    whose meaning depends on the container it is applied to. */
module PyValues {
  import opened Wrappers

  datatype Json =
    | JNull
    | JBool(b: bool)
    | JInt(i: int)
    | JFloat(f: real)
    | JStr(s: string)
    | JList(items: seq<Json>)
    | JObject(fields: map<string, Json>)

  /** Python's `bool(v)`: `None`, `False`, zero, and empty strings, lists and
      dicts are falsy; everything else is truthy. */
  predicate Truthy(v: Json)
  {
    match v
    case JNull => false
    case JBool(b) => b
    case JInt(i) => i != 0
    case JFloat(f) => f != 0.0
    case JStr(s) => s != ""
    case JList(items) => items != []
    case JObject(fields) => fields != map[]
  }

  /** `isinstance(v, int)`: `bool` is a subclass of `int`. */
  predicate IsInt(v: Json)
  {
    v.JInt? || v.JBool?
  }

  /** `isinstance(v, (int, float))`. */
  predicate IsNumber(v: Json)
  {
    IsInt(v) || v.JFloat?
  }

  /** The numeric value Python compares a number with (`True` is 1). */
  function NumberValue(v: Json): real
    requires IsNumber(v)
  {
    match v
    case JInt(i) => i as real
    case JBool(b) => if b then 1.0 else 0.0
    case JFloat(f) => f
  }

  /** `sub` occurs as a contiguous piece of `s`. */
  predicate IsSubstring(sub: string, s: string)
    decreases |s|
  {
    sub <= s || (s != [] && IsSubstring(sub, s[1..]))
  }

  /** `sub` sits in `s` starting at index `i`. */
  predicate OccursAt(sub: string, s: string, i: int)
  {
    0 <= i <= |s| - |sub| && s[i..i + |sub|] == sub
  }

  /** The recursive test agrees with "some window of `s` equals `sub`". */
  lemma {:induction false} IsSubstringIff(sub: string, s: string)
    ensures IsSubstring(sub, s) <==> exists i :: OccursAt(sub, s, i)
    decreases |s|
  {
    OccursAtStart(sub, s);
    if s == [] {
      assert forall i :: OccursAt(sub, s, i) ==> i == 0;
    } else {
      IsSubstringIff(sub, s[1..]);
      forall i | OccursAt(sub, s[1..], i)
        ensures OccursAt(sub, s, i + 1)
      {
        OccursAfterFirst(sub, s, i);
      }
      forall i | OccursAt(sub, s, i) && i > 0
        ensures OccursAt(sub, s[1..], i - 1)
      {
        OccursAfterFirst(sub, s, i - 1);
      }
    }
  }

  lemma OccursAtStart(sub: string, s: string)
    ensures OccursAt(sub, s, 0) <==> sub <= s
  {
    if |sub| <= |s| {
      assert s[0..|sub|] == s[..|sub|];
    }
  }

  lemma OccursAfterFirst(sub: string, s: string, i: nat)
    requires s != []
    ensures OccursAt(sub, s[1..], i) <==> OccursAt(sub, s, i + 1)
  {
    if 0 <= i <= |s| - 1 - |sub| {
      assert s[1..][i..i + |sub|] == s[i + 1..i + 1 + |sub|];
    }
  }

  /** `key in container`: a key test on a dict, an element test on a list, a
      substring test on a string; on any other value Python raises
      `TypeError`, which is `None` here. */
  function PyIn(key: string, container: Json): (r: Option<bool>)
    ensures container.JObject? ==> r == Some(key in container.fields)
    ensures container.JList? ==> r == Some(JStr(key) in container.items)
    ensures container.JStr? ==> r == Some(IsSubstring(key, container.s))
    ensures r.None? <==> !(container.JObject? || container.JList? || container.JStr?)
  {
    match container
    case JObject(fields) => Some(key in fields)
    case JList(items) => Some(JStr(key) in items)
    case JStr(s) => Some(IsSubstring(key, s))
    case _ => None
  }
}
