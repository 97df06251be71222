/**
 * The LINQ operators the program composes: `Where`, `Select`,
 * `FirstOrDefault` and the stable `OrderBy` on a string key.
 */
module Seqs {
  import opened Wrappers
  import opened Strings

  /** `Where`: the elements satisfying `p`, in their original order. */
  function Filter<T(!new)>(s: seq<T>, p: T -> bool): (r: seq<T>)
    ensures |r| <= |s|
    ensures forall x :: x in r <==> x in s && p(x)
  {
    if s == [] then []
    else
      var rest := Filter(s[1..], p);
      assert s == [s[0]] + s[1..];
      if p(s[0]) then [s[0]] + rest else rest
  }

  lemma {:induction false} FilterAppend<T(!new)>(s: seq<T>, x: T, p: T -> bool)
    ensures Filter(s + [x], p) == Filter(s, p) + (if p(x) then [x] else [])
    decreases |s|
  {
    if s != [] {
      assert (s + [x])[1..] == s[1..] + [x];
      FilterAppend(s[1..], x, p);
    }
  }

  /** Every element stands in relation `before` to every later one. */
  ghost predicate Chain<T>(s: seq<T>, before: (T, T) -> bool)
  {
    forall i, j :: 0 <= i < j < |s| ==> before(s[i], s[j])
  }

  /** `Where` keeps the relative order of the elements it keeps. */
  lemma {:induction false} FilterChain<T(!new)>(s: seq<T>, p: T -> bool, before: (T, T) -> bool)
    requires Chain(s, before)
    ensures Chain(Filter(s, p), before)
    decreases |s|
  {
    if s != [] {
      var tail := s[1..];
      assert Chain(tail, before) by {
        forall i, j | 0 <= i < j < |tail| ensures before(tail[i], tail[j]) {
          assert tail[i] == s[i + 1] && tail[j] == s[j + 1];
        }
      }
      FilterChain(tail, p, before);
      var rest := Filter(tail, p);
      if p(s[0]) {
        forall j | 0 <= j < |rest| ensures before(s[0], rest[j]) {
          assert rest[j] in tail;
          var k :| 0 <= k < |tail| && tail[k] == rest[j];
          assert s[k + 1] == rest[j];
        }
        var r := [s[0]] + rest;
        forall i, j | 0 <= i < j < |r| ensures before(r[i], r[j]) {
          if i == 0 {
            assert r[j] == rest[j - 1];
          } else {
            assert r[i] == rest[i - 1] && r[j] == rest[j - 1];
          }
        }
      }
    }
  }

  /** `Select`. */
  function Map<T, U>(f: T -> U, s: seq<T>): (r: seq<U>)
    ensures |r| == |s| && forall i :: 0 <= i < |s| ==> r[i] == f(s[i])
  {
    if s == [] then [] else [f(s[0])] + Map(f, s[1..])
  }

  /** `Select` distributes over concatenation. */
  lemma {:induction false} MapAppend<T, U>(f: T -> U, s: seq<T>, t: seq<T>)
    ensures Map(f, s + t) == Map(f, s) + Map(f, t)
    decreases |s|
  {
    if s != [] {
      assert (s + t)[1..] == s[1..] + t;
      MapAppend(f, s[1..], t);
    }
  }

  /** Mapping, then filtering, keeps exactly the images that pass the filter. */
  lemma FilterMapMembers<T, U(!new)>(s: seq<T>, f: T -> U, p: U -> bool)
    ensures forall y :: y in Filter(Map(f, s), p) <==> p(y) && exists i :: 0 <= i < |s| && y == f(s[i])
  {
    var images := Map(f, s);
    forall y ensures y in images <==> exists i :: 0 <= i < |s| && y == f(s[i]) {
      if y in images {
        var i :| 0 <= i < |images| && images[i] == y;
      }
    }
  }

  /** Mapping, then filtering, keeps the order the images stand in. */
  lemma FilterMapChain<T, U(!new)>(s: seq<T>, f: T -> U, p: U -> bool, before: (U, U) -> bool)
    requires forall i, j :: 0 <= i < j < |s| ==> before(f(s[i]), f(s[j]))
    ensures Chain(Filter(Map(f, s), p), before)
  {
    var images := Map(f, s);
    assert Chain(images, before);
    FilterChain(images, p, before);
  }

  /** One more element maps to one more image, at the end. */
  lemma MapSnoc<T, U>(f: T -> U, s: seq<T>, x: T)
    ensures Map(f, s + [x]) == Map(f, s) + [f(x)]
  {
    MapAppend(f, s, [x]);
    assert Map(f, [x]) == [f(x)];
  }

  /** A prefix one longer is the prefix and the next element. */
  lemma TakeSnoc<T>(s: seq<T>, i: nat)
    requires i < |s|
    ensures s[..i + 1] == s[..i] + [s[i]]
  {
  }

  lemma AppendAssociative<T>(a: seq<T>, b: seq<T>, c: seq<T>)
    ensures a + (b + c) == a + b + c
  {
  }

  /** Nothing passes the filter when no element does. */
  lemma {:induction false} FilterNone<T(!new)>(s: seq<T>, p: T -> bool)
    requires forall i :: 0 <= i < |s| ==> !p(s[i])
    ensures Filter(s, p) == []
    decreases |s|
  {
    if s != [] {
      assert forall i :: 0 <= i < |s[1..]| ==> s[1..][i] == s[i + 1];
      FilterNone(s[1..], p);
    }
  }

  /** Every key is at most the next one, reading left to right. */
  ghost predicate SortedBy<T>(s: seq<T>, key: T -> string)
  {
    forall i, j :: 0 <= i < j < |s| ==> LessEq(key(s[i]), key(s[j]))
  }

  /** No two positions carry the same key. */
  ghost predicate DistinctBy<T>(s: seq<T>, key: T -> string)
  {
    forall i, j :: 0 <= i < j < |s| ==> key(s[i]) != key(s[j])
  }

  /** The elements whose key is `k`, in their original order. */
  function WithKey<T>(s: seq<T>, key: T -> string, k: string): seq<T>
  {
    if s == [] then []
    else (if key(s[0]) == k then [s[0]] else []) + WithKey(s[1..], key, k)
  }

  /** Puts `x` in front of the first element whose key is not below its own. */
  function Insert<T>(x: T, s: seq<T>, key: T -> string): seq<T>
  {
    if s == [] || LessEq(key(x), key(s[0])) then [x] + s
    else [s[0]] + Insert(x, s[1..], key)
  }

  /** `OrderBy(key)`: a stable insertion sort. */
  function SortBy<T>(s: seq<T>, key: T -> string): seq<T>
  {
    if s == [] then [] else Insert(s[0], SortBy(s[1..], key), key)
  }

  lemma {:induction false} InsertPermutes<T>(x: T, s: seq<T>, key: T -> string)
    ensures multiset(Insert(x, s, key)) == multiset(s) + multiset{x}
    decreases |s|
  {
    if s != [] && !LessEq(key(x), key(s[0])) {
      InsertPermutes(x, s[1..], key);
      assert s == [s[0]] + s[1..];
    }
  }

  lemma {:induction false} InsertSorted<T>(x: T, s: seq<T>, key: T -> string)
    requires SortedBy(s, key)
    ensures SortedBy(Insert(x, s, key), key)
    decreases |s|
  {
    if s == [] {
    } else if LessEq(key(x), key(s[0])) {
      forall j | 1 <= j < |s| ensures LessEq(key(x), key(s[j])) {
        LessEqTransitive(key(x), key(s[0]), key(s[j]));
      }
    } else {
      var tail := Insert(x, s[1..], key);
      InsertSorted(x, s[1..], key);
      InsertPermutes(x, s[1..], key);
      LessEqTotal(key(x), key(s[0]));
      forall j | 0 <= j < |tail| ensures LessEq(key(s[0]), key(tail[j])) {
        assert tail[j] in multiset(tail);
        if tail[j] != x {
          assert tail[j] in multiset(s[1..]);
          var k :| 0 <= k < |s[1..]| && s[1..][k] == tail[j];
          assert s[k + 1] == tail[j];
        }
      }
    }
  }

  lemma {:induction false} InsertWithKey<T>(x: T, s: seq<T>, key: T -> string, k: string)
    ensures WithKey(Insert(x, s, key), key, k)
         == (if key(x) == k then [x] else []) + WithKey(s, key, k)
    decreases |s|
  {
    if s == [] || LessEq(key(x), key(s[0])) {
      assert ([x] + s)[1..] == s;
    } else {
      var tail := Insert(x, s[1..], key);
      assert Insert(x, s, key) == [s[0]] + tail;
      assert ([s[0]] + tail)[1..] == tail;
      InsertWithKey(x, s[1..], key, k);
      LessEqReflexive(key(x));
      var here := if key(s[0]) == k then [s[0]] else [];
      var added := if key(x) == k then [x] else [];
      assert WithKey(Insert(x, s, key), key, k) == here + (added + WithKey(s[1..], key, k));
      assert WithKey(s, key, k) == here + WithKey(s[1..], key, k);
      assert here == [] || added == [];
    }
  }

  lemma {:induction false} InsertDistinct<T>(x: T, s: seq<T>, key: T -> string)
    requires DistinctBy(s, key)
    requires forall y :: y in s ==> key(y) != key(x)
    ensures DistinctBy(Insert(x, s, key), key)
    decreases |s|
  {
    if s != [] && !LessEq(key(x), key(s[0])) {
      var tail := Insert(x, s[1..], key);
      InsertDistinct(x, s[1..], key);
      InsertPermutes(x, s[1..], key);
      forall j | 0 <= j < |tail| ensures key(s[0]) != key(tail[j]) {
        assert tail[j] in multiset(tail);
        if tail[j] != x {
          assert tail[j] in multiset(s[1..]);
          var k :| 0 <= k < |s[1..]| && s[1..][k] == tail[j];
          assert s[k + 1] == tail[j];
        }
      }
    }
  }

  /** `SortBy` yields a permutation of its input, ordered by key. */
  lemma SortByCorrect<T>(s: seq<T>, key: T -> string)
    ensures multiset(SortBy(s, key)) == multiset(s)
    ensures |SortBy(s, key)| == |s|
    ensures forall x :: x in SortBy(s, key) <==> x in s
    ensures SortedBy(SortBy(s, key), key)
  {
    SortByPermutes(s, key);
    SortBySorted(s, key);
    assert |multiset(SortBy(s, key))| == |multiset(s)|;
    forall x ensures x in SortBy(s, key) <==> x in s {
      assert x in SortBy(s, key) <==> x in multiset(SortBy(s, key));
      assert x in s <==> x in multiset(s);
    }
  }

  lemma {:induction false} SortByPermutes<T>(s: seq<T>, key: T -> string)
    ensures multiset(SortBy(s, key)) == multiset(s)
    decreases |s|
  {
    if s != [] {
      SortByPermutes(s[1..], key);
      InsertPermutes(s[0], SortBy(s[1..], key), key);
      assert s == [s[0]] + s[1..];
    }
  }

  lemma {:induction false} SortBySorted<T>(s: seq<T>, key: T -> string)
    ensures SortedBy(SortBy(s, key), key)
    decreases |s|
  {
    if s != [] {
      SortBySorted(s[1..], key);
      InsertSorted(s[0], SortBy(s[1..], key), key);
    }
  }

  /** `SortBy` is stable: the elements sharing a key keep their relative order. */
  lemma {:induction false} SortByStable<T>(s: seq<T>, key: T -> string, k: string)
    ensures WithKey(SortBy(s, key), key, k) == WithKey(s, key, k)
    decreases |s|
  {
    if s != [] {
      SortByStable(s[1..], key, k);
      InsertWithKey(s[0], SortBy(s[1..], key), key, k);
    }
  }

  /** Sorting input whose keys are distinct gives output whose keys are distinct. */
  lemma {:induction false} SortByDistinct<T>(s: seq<T>, key: T -> string)
    requires DistinctBy(s, key)
    ensures DistinctBy(SortBy(s, key), key)
    decreases |s|
  {
    if s != [] {
      var rest := SortBy(s[1..], key);
      SortByDistinct(s[1..], key);
      SortByCorrect(s[1..], key);
      forall y | y in rest ensures key(y) != key(s[0]) {
        assert y in multiset(s[1..]);
        var k :| 0 <= k < |s[1..]| && s[1..][k] == y;
        assert s[k + 1] == y;
      }
      InsertDistinct(s[0], rest, key);
    }
  }

  /** Filtering keeps keys distinct. */
  lemma {:induction false} FilterDistinct<T(!new)>(s: seq<T>, p: T -> bool, key: T -> string)
    requires DistinctBy(s, key)
    ensures DistinctBy(Filter(s, p), key)
    decreases |s|
  {
    if s != [] {
      FilterDistinct(s[1..], p, key);
      var rest := Filter(s[1..], p);
      forall y | y in rest ensures key(y) != key(s[0]) {
        var k :| 0 <= k < |s[1..]| && s[1..][k] == y;
        assert s[k + 1] == y;
      }
    }
  }
}
