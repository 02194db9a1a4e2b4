/** The library sorts the sites call, modelled as one stable insertion sort on a
    string key compared by code point: PHP ksort() on course codes, PHP usort()
    with `<=>` on exam dates and Python list.sort(key=...) on exam dates. */
module Sorting {
  import opened Text

  /** Ascending by key; equal keys allowed. */
  predicate SortedBy<T>(s: seq<T>, key: T -> string) {
    forall i, j :: 0 <= i < j < |s| ==> StrLe(key(s[i]), key(s[j]))
  }

  /** No two elements share a key. */
  predicate DistinctKeys<T>(s: seq<T>, key: T -> string) {
    forall i, j :: 0 <= i < j < |s| ==> key(s[i]) != key(s[j])
  }

  /** The elements of s whose key is k, in their order in s. */
  function WithKey<T>(s: seq<T>, key: T -> string, k: string): seq<T> {
    if s == [] then []
    else (if key(s[0]) == k then [s[0]] else []) + WithKey(s[1..], key, k)
  }

  /** Places x in front of the first element whose key is not below x's key. */
  function Insert<T>(x: T, t: seq<T>, key: T -> string): seq<T> {
    if t == [] then [x]
    else if StrLe(key(x), key(t[0])) then [x] + t
    else [t[0]] + Insert(x, t[1..], key)
  }

  /** Stable sort of s by key. */
  function SortBy<T>(s: seq<T>, key: T -> string): seq<T> {
    if s == [] then [] else Insert(s[0], SortBy(s[1..], key), key)
  }

  lemma {:induction false} InsertElements<T>(x: T, t: seq<T>, key: T -> string)
    ensures multiset(Insert(x, t, key)) == multiset(t) + multiset{x}
    ensures |Insert(x, t, key)| == |t| + 1
    decreases |t|
  {
    if t != [] && !StrLe(key(x), key(t[0])) {
      InsertElements(x, t[1..], key);
      assert t == [t[0]] + t[1..];
    }
  }

  lemma {:induction false} InsertSorted<T>(x: T, t: seq<T>, key: T -> string)
    requires SortedBy(t, key)
    ensures SortedBy(Insert(x, t, key), key)
    decreases |t|
  {
    var r := Insert(x, t, key);
    if t == [] {
    } else if StrLe(key(x), key(t[0])) {
      forall i, j | 0 <= i < j < |r| ensures StrLe(key(r[i]), key(r[j])) {
        if i == 0 && j > 1 { StrLeTransitive(key(x), key(t[0]), key(r[j])); }
      }
    } else {
      StrLeTotal(key(x), key(t[0]));
      InsertSorted(x, t[1..], key);
      var rest := Insert(x, t[1..], key);
      InsertElements(x, t[1..], key);
      forall j | 0 <= j < |rest| ensures StrLe(key(t[0]), key(rest[j])) {
        assert rest[j] in multiset(rest);
        if rest[j] != x {
          assert rest[j] in multiset(t[1..]);
          var p :| 0 <= p < |t[1..]| && t[1..][p] == rest[j];
          assert t[p + 1] == rest[j];
        }
      }
    }
  }

  lemma {:induction false} InsertWithKey<T>(x: T, t: seq<T>, key: T -> string, k: string)
    ensures WithKey(Insert(x, t, key), key, k)
         == (if key(x) == k then [x] else []) + WithKey(t, key, k)
    decreases |t|
  {
    if t != [] && !StrLe(key(x), key(t[0])) {
      var rest := Insert(x, t[1..], key);
      assert Insert(x, t, key) == [t[0]] + rest;
      InsertWithKey(x, t[1..], key, k);
      WithKeyCons(t[0], rest, key, k);
      WithKeyCons(t[0], t[1..], key, k);
      assert [t[0]] + t[1..] == t;
      var w := WithKey(t[1..], key, k);
      if key(x) == k {
        StrLeReflexive(k);
        assert key(t[0]) != k;
        assert WithKey(Insert(x, t, key), key, k) == [x] + w;
      } else if key(t[0]) == k {
        assert WithKey(Insert(x, t, key), key, k) == [t[0]] + w;
      } else {
        assert WithKey(Insert(x, t, key), key, k) == w;
      }
    } else {
      WithKeyCons(x, t, key, k);
    }
  }

  lemma WithKeyCons<T>(a: T, s: seq<T>, key: T -> string, k: string)
    ensures WithKey([a] + s, key, k) == (if key(a) == k then [a] else []) + WithKey(s, key, k)
  {
    assert ([a] + s)[1..] == s;
  }

  /** SortBy returns a permutation of its input, sorted by key, in which the
      elements sharing a key keep their relative order (stability). */
  lemma SortByCorrect<T>(s: seq<T>, key: T -> string)
    ensures multiset(SortBy(s, key)) == multiset(s)
    ensures |SortBy(s, key)| == |s|
    ensures SortedBy(SortBy(s, key), key)
    ensures forall k :: WithKey(SortBy(s, key), key, k) == WithKey(s, key, k)
  {
    SortByPermutes(s, key);
    SortBySorts(s, key);
    forall k ensures WithKey(SortBy(s, key), key, k) == WithKey(s, key, k) {
      SortByStable(s, key, k);
    }
  }

  lemma {:induction false} SortByPermutes<T>(s: seq<T>, key: T -> string)
    ensures multiset(SortBy(s, key)) == multiset(s)
    ensures |SortBy(s, key)| == |s|
    decreases |s|
  {
    if s != [] {
      SortByPermutes(s[1..], key);
      InsertElements(s[0], SortBy(s[1..], key), key);
      assert s == [s[0]] + s[1..];
    }
  }

  lemma {:induction false} SortBySorts<T>(s: seq<T>, key: T -> string)
    ensures SortedBy(SortBy(s, key), key)
    decreases |s|
  {
    if s != [] {
      SortBySorts(s[1..], key);
      InsertSorted(s[0], SortBy(s[1..], key), key);
    }
  }

  lemma {:induction false} SortByStable<T>(s: seq<T>, key: T -> string, k: string)
    ensures WithKey(SortBy(s, key), key, k) == WithKey(s, key, k)
    decreases |s|
  {
    if s != [] {
      SortByStable(s[1..], key, k);
      InsertWithKey(s[0], SortBy(s[1..], key), key, k);
    }
  }

  lemma {:induction false} WithKeyEmpty<T>(s: seq<T>, key: T -> string, k: string)
    requires forall i :: 0 <= i < |s| ==> key(s[i]) != k
    ensures WithKey(s, key, k) == []
    decreases |s|
  {
    if s != [] { WithKeyEmpty(s[1..], key, k); }
  }

  lemma {:induction false} WithKeyAtMostOne<T>(s: seq<T>, key: T -> string, k: string)
    requires DistinctKeys(s, key)
    ensures |WithKey(s, key, k)| <= 1
    decreases |s|
  {
    if s != [] {
      if key(s[0]) == k {
        WithKeyEmpty(s[1..], key, k);
      } else {
        WithKeyAtMostOne(s[1..], key, k);
      }
    }
  }

  lemma {:induction false} WithKeyTwo<T>(s: seq<T>, key: T -> string, i: nat, j: nat)
    requires i < j < |s| && key(s[i]) == key(s[j])
    ensures |WithKey(s, key, key(s[i]))| >= 2
    decreases |s|
  {
    var k := key(s[i]);
    if i == 0 {
      WithKeyOne(s[1..], key, j - 1);
    } else {
      WithKeyTwo(s[1..], key, i - 1, j - 1);
    }
  }

  lemma {:induction false} WithKeyOne<T>(s: seq<T>, key: T -> string, j: nat)
    requires j < |s|
    ensures |WithKey(s, key, key(s[j]))| >= 1
    decreases |s|
  {
    if j > 0 { WithKeyOne(s[1..], key, j - 1); }
  }

  /** Sorting neither adds nor drops an element. */
  lemma SortByMembers<T>(s: seq<T>, key: T -> string)
    ensures forall x :: x in SortBy(s, key) <==> x in s
  {
    SortByCorrect(s, key);
    forall x ensures x in SortBy(s, key) <==> x in s {
      assert x in SortBy(s, key) <==> x in multiset(SortBy(s, key));
      assert x in s <==> x in multiset(s);
    }
  }

  /** Sorting a sequence with distinct keys keeps the keys distinct, so the
      result is strictly ascending. */
  lemma SortByDistinct<T>(s: seq<T>, key: T -> string)
    requires DistinctKeys(s, key)
    ensures DistinctKeys(SortBy(s, key), key)
  {
    var r := SortBy(s, key);
    SortByCorrect(s, key);
    forall i, j | 0 <= i < j < |r| ensures key(r[i]) != key(r[j]) {
      if key(r[i]) == key(r[j]) {
        WithKeyTwo(r, key, i, j);
        WithKeyAtMostOne(s, key, key(r[i]));
        assert false;
      }
    }
  }
}
