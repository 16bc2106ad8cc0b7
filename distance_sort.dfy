/** Distances as the Python optimizers order them, and `list.sort(key=...)`
    on such keys. A distance is a finite number of kilometres or
    `float('inf')`, which the store ordering uses for a store no auditor can
    reach. Python's sort is stable; the model is a stable insertion sort. */
module DistanceOrder {
  /** The haversine distance in kilometres, `distance(lat1, lon1, lat2, lon2)`,
      taken as given. */
  type Distance = (real, real, real, real) -> real

  datatype Dist = Finite(km: real) | Infinite

  /** An `(auditor_id, distance_km)` tuple of the lists the optimizers sort. */
  datatype Candidate = Candidate(auditorId: int, distance: real)

  function CandidateKey(c: Candidate): Dist
  {
    Finite(c.distance)
  }

  /** `a <= b`, with infinity above every finite distance. */
  predicate Le(a: Dist, b: Dist)
  {
    match a
    case Infinite => b.Infinite?
    case Finite(x) => b.Infinite? || x <= b.km
  }

  predicate SortedBy<T>(s: seq<T>, key: T -> Dist)
  {
    forall i, j :: 0 <= i < j < |s| ==> Le(key(s[i]), key(s[j]))
  }

  /** Places `x` in front of the first element whose key is not below its
      own; elements with an equal key coming after `x` in the input stay
      after it. */
  function Insert<T>(x: T, s: seq<T>, key: T -> Dist): (r: seq<T>)
    ensures |r| == |s| + 1
    decreases |s|
  {
    if s == [] then [x]
    else if Le(key(x), key(s[0])) then [x] + s
    else [s[0]] + Insert(x, s[1..], key)
  }

  lemma {:induction false} InsertProperties<T>(x: T, s: seq<T>, key: T -> Dist)
    requires SortedBy(s, key)
    ensures SortedBy(Insert(x, s, key), key)
    ensures multiset(Insert(x, s, key)) == multiset(s) + multiset{x}
    decreases |s|
  {
    InsertPermutes(x, s, key);
    if s != [] && !Le(key(x), key(s[0])) {
      var rest := Insert(x, s[1..], key);
      InsertProperties(x, s[1..], key);
      HeadBelowInsert(x, s, key);
      forall i, j | 0 <= i < j < |[s[0]] + rest| ensures Le(key(([s[0]] + rest)[i]), key(([s[0]] + rest)[j])) {
        if i == 0 {
          assert ([s[0]] + rest)[j] == rest[j - 1];
        } else {
          assert ([s[0]] + rest)[i] == rest[i - 1] && ([s[0]] + rest)[j] == rest[j - 1];
        }
      }
    }
  }

  lemma {:induction false} InsertPermutes<T>(x: T, s: seq<T>, key: T -> Dist)
    ensures multiset(Insert(x, s, key)) == multiset(s) + multiset{x}
    decreases |s|
  {
    if s != [] && !Le(key(x), key(s[0])) {
      InsertPermutes(x, s[1..], key);
      assert s == [s[0]] + s[1..];
    }
  }

  /** When `x` goes past the head of a sorted `s`, that head is no larger
      than anything `x` is then inserted among. */
  lemma HeadBelowInsert<T>(x: T, s: seq<T>, key: T -> Dist)
    requires SortedBy(s, key) && s != [] && !Le(key(x), key(s[0]))
    ensures forall y :: y in Insert(x, s[1..], key) ==> Le(key(s[0]), key(y))
  {
    var rest := Insert(x, s[1..], key);
    InsertPermutes(x, s[1..], key);
    forall y | y in rest ensures Le(key(s[0]), key(y)) {
      assert y in multiset(rest);
      if y != x {
        assert y in multiset(s[1..]);
        var m :| 0 <= m < |s[1..]| && s[1..][m] == y;
        assert s[m + 1] == y;
      }
    }
  }

  /** `sorted(s, key=key)`: ordered by key and a rearrangement of `s`. */
  function SortByKey<T>(s: seq<T>, key: T -> Dist): (r: seq<T>)
    ensures SortedBy(r, key)
    ensures multiset(r) == multiset(s)
    ensures |r| == |s|
    decreases |s|
  {
    if s == [] then []
    else
      var rest := SortByKey(s[1..], key);
      InsertProperties(s[0], rest, key);
      assert multiset(s) == multiset{s[0]} + multiset(s[1..]) by {
        assert s == [s[0]] + s[1..];
      }
      Insert(s[0], rest, key)
  }

  /** The head of a sorted rearrangement is an element of the input whose key
      is no larger than any other element's. */
  lemma SortedHeadIsMinimum<T>(s: seq<T>, key: T -> Dist)
    requires s != []
    ensures SortByKey(s, key)[0] in s
    ensures forall x :: x in s ==> Le(key(SortByKey(s, key)[0]), key(x))
  {
    var r := SortByKey(s, key);
    assert r[0] in multiset(r);
    forall x | x in s ensures Le(key(r[0]), key(x)) {
      assert x in multiset(r);
      var m :| 0 <= m < |r| && r[m] == x;
      if m != 0 {
        assert Le(key(r[0]), key(r[m]));
      }
    }
  }

  /** The first element whose key is no larger than that of any element. */
  function FirstMinimum<T>(s: seq<T>, key: T -> Dist): T
    requires s != []
    decreases |s|
  {
    if |s| == 1 then s[0]
    else
      var m := FirstMinimum(s[1..], key);
      if Le(key(s[0]), key(m)) then s[0] else m
  }

  lemma {:induction false} FirstMinimumIsMinimum<T>(s: seq<T>, key: T -> Dist)
    requires s != []
    ensures FirstMinimum(s, key) in s
    ensures forall x :: x in s ==> Le(key(FirstMinimum(s, key)), key(x))
    decreases |s|
  {
    if |s| > 1 {
      FirstMinimumIsMinimum(s[1..], key);
      forall x | x in s ensures Le(key(FirstMinimum(s, key)), key(x)) {
        if x != s[0] {
          assert x in s[1..];
        }
      }
    }
  }

  /** The stable sort puts the first minimum in front: `sorted(s, key)[0]`
      is the earliest element of least key. */
  lemma {:induction false} SortedHeadIsFirstMinimum<T>(s: seq<T>, key: T -> Dist)
    requires s != []
    ensures SortByKey(s, key)[0] == FirstMinimum(s, key)
    decreases |s|
  {
    if |s| > 1 {
      SortedHeadIsFirstMinimum(s[1..], key);
    }
  }

  /** `[f(x) for x in s]`. */
  function MapSeq<T, U>(s: seq<T>, f: T -> U): (r: seq<U>)
    ensures |r| == |s| && forall i :: 0 <= i < |s| ==> r[i] == f(s[i])
  {
    seq(|s|, i requires 0 <= i < |s| => f(s[i]))
  }

  lemma {:induction false} InsertMapped<T, U>(x: T, s: seq<T>, key: T -> Dist, f: T -> U)
    ensures multiset(MapSeq(Insert(x, s, key), f)) == multiset(MapSeq(s, f)) + multiset{f(x)}
    decreases |s|
  {
    if s == [] {
    } else if Le(key(x), key(s[0])) {
      assert MapSeq([x] + s, f) == [f(x)] + MapSeq(s, f);
    } else {
      InsertMapped(x, s[1..], key, f);
      assert MapSeq([s[0]] + Insert(x, s[1..], key), f) == [f(s[0])] + MapSeq(Insert(x, s[1..], key), f);
      assert MapSeq(s, f) == [f(s[0])] + MapSeq(s[1..], f);
    }
  }

  /** Sorting rearranges the elements, so it rearranges any projection of
      them too. */
  lemma {:induction false} SortByKeyMapped<T, U>(s: seq<T>, key: T -> Dist, f: T -> U)
    ensures multiset(MapSeq(SortByKey(s, key), f)) == multiset(MapSeq(s, f))
    decreases |s|
  {
    if s != [] {
      SortByKeyMapped(s[1..], key, f);
      InsertMapped(s[0], SortByKey(s[1..], key), key, f);
      assert MapSeq(s, f) == [f(s[0])] + MapSeq(s[1..], f);
    }
  }
}
