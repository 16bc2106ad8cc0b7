/** Sequence helpers shared by the repository model and the optimizer model:
    an order-preserving filter, a first-index search by integer key, and
    "keys are unique" for a table of rows. */
module Seqs {
  import opened Wrappers

  /** Keeps the elements satisfying `p`, in their original order. */
  function Filter<T>(s: seq<T>, p: T -> bool): (r: seq<T>)
    ensures |r| <= |s|
    ensures forall i :: 0 <= i < |r| ==> r[i] in s && p(r[i])
    ensures forall i :: 0 <= i < |s| && p(s[i]) ==> s[i] in r
    decreases |s|
  {
    if s == [] then [] else (if p(s[0]) then [s[0]] else []) + Filter(s[1..], p)
  }

  /** Filtering distributes over concatenation: the filter never reorders. */
  lemma {:induction false} FilterAppend<T>(a: seq<T>, b: seq<T>, p: T -> bool)
    ensures Filter(a + b, p) == Filter(a, p) + Filter(b, p)
    decreases |a|
  {
    if a == [] {
      assert a + b == b;
    } else {
      assert (a + b)[1..] == a[1..] + b;
      FilterAppend(a[1..], b, p);
    }
  }

  /** Nothing passes the filter when no element satisfies `p`. */
  lemma {:induction false} FilterNone<T>(s: seq<T>, p: T -> bool)
    requires forall i :: 0 <= i < |s| ==> !p(s[i])
    ensures Filter(s, p) == []
    decreases |s|
  {
    if s != [] {
      FilterNone(s[1..], p);
    }
  }

  /** Index of the first element whose key is `k`, if any. */
  function IndexOfKey<T>(s: seq<T>, key: T -> int, k: int): (r: Option<nat>)
    ensures r.Some? ==> r.value < |s| && key(s[r.value]) == k
    ensures r.Some? ==> forall j :: 0 <= j < r.value ==> key(s[j]) != k
    ensures r.None? <==> forall j :: 0 <= j < |s| ==> key(s[j]) != k
    decreases |s|
  {
    if s == [] then None
    else if key(s[0]) == k then Some(0)
    else match IndexOfKey(s[1..], key, k)
      case None => None
      case Some(i) => Some(i + 1)
  }

  /** No two rows share a key. */
  predicate KeysUnique<T>(s: seq<T>, key: T -> int)
  {
    forall i, j :: 0 <= i < j < |s| ==> key(s[i]) != key(s[j])
  }

  /** Some row has key `k`. */
  predicate HasKey<T>(s: seq<T>, key: T -> int, k: int)
  {
    exists i :: 0 <= i < |s| && key(s[i]) == k
  }

  lemma HasKeySnoc<T>(s: seq<T>, x: T, key: T -> int, k: int)
    ensures HasKey(s + [x], key, k) <==> HasKey(s, key, k) || key(x) == k
  {
    if HasKey(s, key, k) {
      var i :| 0 <= i < |s| && key(s[i]) == k;
      assert (s + [x])[i] == s[i];
    }
    if key(x) == k {
      assert (s + [x])[|s|] == x;
    }
  }

  /** Replaces every row whose key is `key(x)` by `x`; with unique keys, that
      is the one row a JPA `save` of an existing entity overwrites. */
  function ReplaceByKey<T>(s: seq<T>, key: T -> int, x: T): (r: seq<T>)
    ensures |r| == |s|
    ensures forall i :: 0 <= i < |s| ==> r[i] == (if key(s[i]) == key(x) then x else s[i])
  {
    seq(|s|, i requires 0 <= i < |s| => if key(s[i]) == key(x) then x else s[i])
  }

  /** `d[key(x)] = x` on a dict kept as rows in insertion order: an existing
      key keeps its position and takes the new row; a new key goes last. */
  function Upsert<T>(d: seq<T>, key: T -> int, x: T): seq<T>
  {
    if HasKey(d, key, key(x)) then ReplaceByKey(d, key, x) else d + [x]
  }

  lemma UpsertProperties<T>(d: seq<T>, key: T -> int, x: T)
    requires KeysUnique(d, key)
    ensures KeysUnique(Upsert(d, key, x), key)
    ensures HasKey(Upsert(d, key, x), key, key(x))
    ensures forall k :: HasKey(d, key, k) ==> HasKey(Upsert(d, key, x), key, k)
    ensures forall i :: 0 <= i < |Upsert(d, key, x)| ==>
      Upsert(d, key, x)[i] == x || (i < |d| && Upsert(d, key, x)[i] == d[i] && key(d[i]) != key(x))
  {
    var r := Upsert(d, key, x);
    if HasKey(d, key, key(x)) {
      var j :| 0 <= j < |d| && key(d[j]) == key(x);
      assert r[j] == x;
      forall k | HasKey(d, key, k) ensures HasKey(r, key, k) {
        var m :| 0 <= m < |d| && key(d[m]) == k;
        assert key(r[m]) == k;
      }
    } else {
      assert r[|d|] == x;
      forall k | HasKey(d, key, k) ensures HasKey(r, key, k) {
        var m :| 0 <= m < |d| && key(d[m]) == k;
        assert r[m] == d[m];
      }
    }
  }

  /** `x` occurs in `xs` and no later element of `xs` has its key. */
  predicate LastWithKey<T(==)>(xs: seq<T>, key: T -> int, x: T)
  {
    exists j :: 0 <= j < |xs| && xs[j] == x && NoLaterKey(xs, key, j)
  }

  predicate NoLaterKey<T>(xs: seq<T>, key: T -> int, j: int)
    requires 0 <= j < |xs|
  {
    forall j' :: j < j' < |xs| ==> key(xs[j']) != key(xs[j])
  }

  lemma LastWithKeyExtend<T>(xs: seq<T>, key: T -> int, x: T, y: T)
    requires LastWithKey(xs, key, y) && key(x) != key(y)
    ensures LastWithKey(xs + [x], key, y)
  {
    var j :| 0 <= j < |xs| && xs[j] == y && NoLaterKey(xs, key, j);
    assert (xs + [x])[j] == y;
    assert NoLaterKey(xs + [x], key, j);
  }

  /** The dict comprehension `{key(x): x for x in xs}`: one row per key, and
      that row is the last element of `xs` carrying the key. */
  function DictOf<T(==)>(xs: seq<T>, key: T -> int): (r: seq<T>)
    ensures KeysUnique(r, key)
    ensures forall i :: 0 <= i < |xs| ==> HasKey(r, key, key(xs[i]))
    ensures forall i :: 0 <= i < |r| ==> LastWithKey(xs, key, r[i])
    decreases |xs|
  {
    if xs == [] then []
    else
      var init := xs[..|xs| - 1];
      var x := xs[|xs| - 1];
      assert xs == init + [x];
      var d := DictOf(init, key);
      UpsertProperties(d, key, x);
      var r := Upsert(d, key, x);
      assert forall i :: 0 <= i < |init| ==> init[i] == xs[i];
      assert LastWithKey(xs, key, x) by {
        assert NoLaterKey(xs, key, |xs| - 1);
      }
      forall i | 0 <= i < |r| && r[i] != x ensures LastWithKey(xs, key, r[i]) {
        LastWithKeyExtend(init, key, x, r[i]);
      }
      r
  }

  /** A filter of a table with unique keys has unique keys. */
  lemma {:induction false} FilterKeepsKeysUnique<T>(s: seq<T>, p: T -> bool, key: T -> int)
    requires KeysUnique(s, key)
    ensures KeysUnique(Filter(s, p), key)
    decreases |s|
  {
    if s != [] {
      FilterKeepsKeysUnique(s[1..], p, key);
      var rest := Filter(s[1..], p);
      forall j | 0 <= j < |rest| ensures key(rest[j]) != key(s[0]) {
        var k :| 0 <= k < |s[1..]| && s[1..][k] == rest[j];
        assert s[k + 1] == rest[j];
      }
    }
  }
}
