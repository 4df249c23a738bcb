/**
 * Python's sorted(xs, key=...) for the keys the loader uses: an integer,
 * optionally followed by a string, compared the way Python compares the
 * tuples (sort, name) — first the integers, then the strings by code point.
 * A key that is only an integer or only a string is the pair with an empty
 * string or a zero in the other place.
 *
 * The model sorts by insertion, placing each element after every element
 * whose key is not greater; that is a stable sort, as Python's is.
 */
module Sorting {

  datatype Key = Key(major: int, minor: string)

  /** Python's `<=` on strings: lexicographic by code point, a prefix first. */
  predicate StrLe(a: string, b: string)
    decreases |a|
  {
    a == [] || (b != [] && (a[0] < b[0] || (a[0] == b[0] && StrLe(a[1..], b[1..]))))
  }

  predicate KeyLe(a: Key, b: Key) {
    a.major < b.major || (a.major == b.major && StrLe(a.minor, b.minor))
  }

  lemma {:induction false} StrLeReflexive(a: string)
    ensures StrLe(a, a)
    decreases |a|
  {
    if a != [] { StrLeReflexive(a[1..]); }
  }

  lemma {:induction false} StrLeTotal(a: string, b: string)
    ensures StrLe(a, b) || StrLe(b, a)
    decreases |a|
  {
    if a != [] && b != [] && a[0] == b[0] { StrLeTotal(a[1..], b[1..]); }
  }

  lemma {:induction false} StrLeTransitive(a: string, b: string, c: string)
    requires StrLe(a, b) && StrLe(b, c)
    ensures StrLe(a, c)
    decreases |a|
  {
    if a != [] && b != [] && c != [] && a[0] == b[0] == c[0] {
      StrLeTransitive(a[1..], b[1..], c[1..]);
    }
  }

  lemma {:induction false} StrLeAntisymmetric(a: string, b: string)
    requires StrLe(a, b) && StrLe(b, a)
    ensures a == b
    decreases |a|
  {
    if a != [] && b != [] {
      StrLeAntisymmetric(a[1..], b[1..]);
      assert a == [a[0]] + a[1..] && b == [b[0]] + b[1..];
    }
  }

  /** `KeyLe` is a total order on keys. */
  lemma KeyLeTotalOrder(a: Key, b: Key, c: Key)
    ensures KeyLe(a, a)
    ensures KeyLe(a, b) || KeyLe(b, a)
    ensures KeyLe(a, b) && KeyLe(b, a) ==> a == b
    ensures KeyLe(a, b) && KeyLe(b, c) ==> KeyLe(a, c)
  {
    StrLeReflexive(a.minor);
    StrLeTotal(a.minor, b.minor);
    if KeyLe(a, b) && KeyLe(b, a) { StrLeAntisymmetric(a.minor, b.minor); }
    if KeyLe(a, b) && KeyLe(b, c) && a.major == b.major == c.major {
      StrLeTransitive(a.minor, b.minor, c.minor);
    }
  }

  ghost predicate SortedBy<T>(s: seq<T>, key: T -> Key) {
    forall i, j :: 0 <= i < j < |s| ==> KeyLe(key(s[i]), key(s[j]))
  }

  /** Puts x after every element of s whose key is not greater than x's. */
  function Insert<T>(s: seq<T>, x: T, key: T -> Key): (r: seq<T>)
    ensures |r| == |s| + 1
    ensures multiset(r) == multiset(s) + multiset{x}
    decreases |s|
  {
    if s == [] then [x]
    else if KeyLe(key(s[|s| - 1]), key(x)) then
      assert s[..|s| - 1] + [s[|s| - 1]] == s;
      s + [x]
    else
      assert s[..|s| - 1] + [s[|s| - 1]] == s;
      Insert(s[..|s| - 1], x, key) + [s[|s| - 1]]
  }

  /** Python's sorted(s, key=key). */
  function SortBy<T>(s: seq<T>, key: T -> Key): (r: seq<T>)
    ensures |r| == |s|
    ensures multiset(r) == multiset(s)
    decreases |s|
  {
    if s == [] then []
    else
      assert s[..|s| - 1] + [s[|s| - 1]] == s;
      Insert(SortBy(s[..|s| - 1], key), s[|s| - 1], key)
  }

  /** Inserting keeps every key at most b when x's and all of s's already are. */
  lemma {:induction false} InsertBounded<T>(s: seq<T>, x: T, key: T -> Key, b: Key)
    requires forall i :: 0 <= i < |s| ==> KeyLe(key(s[i]), b)
    requires KeyLe(key(x), b)
    ensures forall i :: 0 <= i < |Insert(s, x, key)| ==> KeyLe(key(Insert(s, x, key)[i]), b)
    decreases |s|
  {
    if s != [] && !KeyLe(key(s[|s| - 1]), key(x)) {
      InsertBounded(s[..|s| - 1], x, key, b);
    }
  }

  lemma {:induction false} InsertSorted<T>(s: seq<T>, x: T, key: T -> Key)
    requires SortedBy(s, key)
    ensures SortedBy(Insert(s, x, key), key)
    decreases |s|
  {
    if s == [] {
    } else if KeyLe(key(s[|s| - 1]), key(x)) {
      AppendSorted(s, x, key);
    } else {
      var init, last := s[..|s| - 1], s[|s| - 1];
      InsertSorted(init, x, key);
      KeyLeTotalOrder(key(last), key(x), key(last));
      InsertBounded(init, x, key, key(last));
      AppendSorted(Insert(init, x, key), last, key);
    }
  }

  /** Appending an element whose key is not below the last one keeps a sequence sorted. */
  lemma AppendSorted<T>(s: seq<T>, x: T, key: T -> Key)
    requires SortedBy(s, key)
    requires s == [] || KeyLe(key(s[|s| - 1]), key(x))
    ensures SortedBy(s + [x], key)
  {
    var r := s + [x];
    forall i, j | 0 <= i < j < |r|
      ensures KeyLe(key(r[i]), key(r[j]))
    {
      if j == |s| {
        KeyLeTotalOrder(key(s[i]), key(s[|s| - 1]), key(x));
      }
    }
  }

  /** The result of SortBy is sorted by key. */
  lemma {:induction false} SortBySorted<T>(s: seq<T>, key: T -> Key)
    ensures SortedBy(SortBy(s, key), key)
    decreases |s|
  {
    if s != [] {
      SortBySorted(s[..|s| - 1], key);
      InsertSorted(SortBy(s[..|s| - 1], key), s[|s| - 1], key);
    }
  }

  /** Sorting neither loses nor adds an element. */
  lemma SortByMembers<T>(s: seq<T>, key: T -> Key)
    ensures forall x :: x in SortBy(s, key) <==> x in s
  {
    var r := SortBy(s, key);
    forall x ensures x in r <==> x in s {
      assert x in r <==> x in multiset(r);
      assert x in s <==> x in multiset(s);
    }
  }

  /** No element occurs twice. */
  predicate Distinct<T(==)>(s: seq<T>) {
    forall i, j :: 0 <= i < j < |s| ==> s[i] != s[j]
  }

  lemma {:induction false} DistinctCount<T>(s: seq<T>, x: T)
    requires Distinct(s)
    ensures multiset(s)[x] <= 1
    decreases |s|
  {
    if s != [] {
      var n := |s| - 1;
      assert s == s[..n] + [s[n]];
      DistinctCount(s[..n], x);
      if s[n] == x {
        assert x !in s[..n];
      }
    }
  }

  lemma RepeatCount<T>(t: seq<T>, a: nat, b: nat)
    requires a < b < |t| && t[a] == t[b]
    ensures multiset(t)[t[a]] >= 2
  {
    assert t == t[..b] + [t[b]] + t[b + 1..];
    assert t[..b][a] == t[a];
  }

  /** Sorting a list without repeats gives a list without repeats. */
  lemma SortByDistinct<T>(s: seq<T>, key: T -> Key)
    requires Distinct(s)
    ensures Distinct(SortBy(s, key))
  {
    var r := SortBy(s, key);
    forall i, j | 0 <= i < j < |r|
      ensures r[i] != r[j]
    {
      DistinctCount(s, r[i]);
      if r[i] == r[j] {
        RepeatCount(r, i, j);
      }
    }
  }

  /** Sorting keeps distinct the values f gives, when they are distinct before. */
  lemma SortByDistinctBy<T, U>(s: seq<T>, key: T -> Key, f: T -> U)
    requires forall i, j :: 0 <= i < j < |s| ==> f(s[i]) != f(s[j])
    ensures var r := SortBy(s, key);
      forall i, j :: 0 <= i < j < |r| ==> f(r[i]) != f(r[j])
  {
    var r := SortBy(s, key);
    assert Distinct(s) by {
      forall i, j | 0 <= i < j < |s| ensures s[i] != s[j] {
        assert f(s[i]) != f(s[j]);
      }
    }
    SortByDistinct(s, key);
    SortByMembers(s, key);
    forall i, j | 0 <= i < j < |r|
      ensures f(r[i]) != f(r[j])
    {
      assert r[i] in multiset(r) && r[j] in multiset(r);
      assert r[i] in s && r[j] in s;
      var k1 :| 0 <= k1 < |s| && s[k1] == r[i];
      var k2 :| 0 <= k2 < |s| && s[k2] == r[j];
      assert k1 != k2;
    }
  }

  /** The elements of s whose key is k, in their order in s. */
  function WithKey<T>(s: seq<T>, key: T -> Key, k: Key): seq<T>
    decreases |s|
  {
    if s == [] then []
    else WithKey(s[..|s| - 1], key, k) + (if key(s[|s| - 1]) == k then [s[|s| - 1]] else [])
  }

  lemma WithKeySnoc<T>(s: seq<T>, y: T, key: T -> Key, k: Key)
    ensures WithKey(s + [y], key, k) == WithKey(s, key, k) + (if key(y) == k then [y] else [])
  {
    assert (s + [y])[..|s|] == s;
  }

  lemma {:induction false} InsertWithKey<T>(s: seq<T>, x: T, key: T -> Key, k: Key)
    ensures WithKey(Insert(s, x, key), key, k)
         == WithKey(s, key, k) + (if key(x) == k then [x] else [])
    decreases |s|
  {
    if s == [] {
      WithKeySnoc([], x, key, k);
      assert [] + [x] == [x];
    } else if KeyLe(key(s[|s| - 1]), key(x)) {
      WithKeySnoc(s, x, key, k);
    } else {
      var init, last := s[..|s| - 1], s[|s| - 1];
      assert Insert(s, x, key) == Insert(init, x, key) + [last];
      assert init + [last] == s;
      InsertWithKey(init, x, key, k);
      WithKeySnoc(Insert(init, x, key), last, key, k);
      WithKeySnoc(init, last, key, k);
      KeyLeTotalOrder(key(x), key(x), key(x));
      if key(x) == k {
        assert key(last) != k;
        assert WithKey(Insert(s, x, key), key, k) == WithKey(init, key, k) + [x];
        assert WithKey(s, key, k) == WithKey(init, key, k);
      } else {
        assert WithKey(Insert(init, x, key), key, k) == WithKey(init, key, k);
      }
    }
  }

  /** Stability: elements with equal keys keep their relative order. */
  lemma {:induction false} SortByStable<T>(s: seq<T>, key: T -> Key, k: Key)
    ensures WithKey(SortBy(s, key), key, k) == WithKey(s, key, k)
    decreases |s|
  {
    if s != [] {
      SortByStable(s[..|s| - 1], key, k);
      InsertWithKey(SortBy(s[..|s| - 1], key), s[|s| - 1], key, k);
    }
  }
}
