/**
 * `Array.prototype.sort` with a numeric comparator `(a, b) => key(a) - key(b)`.
 * JavaScript's sort is stable, so it is modelled as an insertion sort that
 * places each element before every later element of equal or larger key.
 */
module Sorting {

  predicate SortedBy<T>(s: seq<T>, key: T -> int) {
    forall i, j :: 0 <= i < j < |s| ==> key(s[i]) <= key(s[j])
  }

  /** The elements of s with key k, in their order in s. */
  function WithKey<T>(s: seq<T>, key: T -> int, k: int): seq<T> {
    if s == [] then []
    else (if key(s[0]) == k then [s[0]] else []) + WithKey(s[1..], key, k)
  }

  function Insert<T>(x: T, s: seq<T>, key: T -> int): seq<T> {
    if s == [] || key(x) <= key(s[0]) then [x] + s
    else [s[0]] + Insert(x, s[1..], key)
  }

  function SortBy<T>(s: seq<T>, key: T -> int): seq<T> {
    if s == [] then [] else Insert(s[0], SortBy(s[1..], key), key)
  }

  predicate AllAtLeast<T>(s: seq<T>, key: T -> int, b: int) {
    forall i :: 0 <= i < |s| ==> b <= key(s[i])
  }

  lemma {:induction false} InsertMultiset<T>(x: T, s: seq<T>, key: T -> int)
    ensures multiset(Insert(x, s, key)) == multiset(s) + multiset{x}
  {
    if s != [] && key(x) > key(s[0]) {
      InsertMultiset(x, s[1..], key);
      assert s == [s[0]] + s[1..];
    }
  }

  lemma {:induction false} InsertAtLeast<T>(x: T, s: seq<T>, key: T -> int, b: int)
    requires b <= key(x) && AllAtLeast(s, key, b)
    ensures AllAtLeast(Insert(x, s, key), key, b)
  {
    if s != [] && key(x) > key(s[0]) {
      InsertAtLeast(x, s[1..], key, b);
      var out := Insert(x, s, key);
      assert forall i :: 0 < i < |out| ==> out[i] == Insert(x, s[1..], key)[i - 1];
    } else {
      var out := Insert(x, s, key);
      assert forall i :: 0 < i < |out| ==> out[i] == s[i - 1];
    }
  }

  lemma {:induction false} InsertSorted<T>(x: T, s: seq<T>, key: T -> int)
    requires SortedBy(s, key)
    ensures SortedBy(Insert(x, s, key), key)
  {
    var out := Insert(x, s, key);
    if s == [] || key(x) <= key(s[0]) {
      forall i, j | 0 <= i < j < |out| ensures key(out[i]) <= key(out[j]) {
        assert out[j] == s[j - 1];
        if i > 0 { assert out[i] == s[i - 1]; }
        else if j > 1 { assert key(s[0]) <= key(s[j - 1]); }
      }
    } else {
      var tail := s[1..];
      var rest := Insert(x, tail, key);
      assert forall i :: 0 <= i < |tail| ==> tail[i] == s[i + 1];
      InsertSorted(x, tail, key);
      InsertAtLeast(x, tail, key, key(s[0]));
      forall i, j | 0 <= i < j < |out| ensures key(out[i]) <= key(out[j]) {
        assert out[j] == rest[j - 1];
        if i > 0 { assert out[i] == rest[i - 1]; }
      }
    }
  }

  lemma {:induction false} InsertStable<T>(x: T, s: seq<T>, key: T -> int, k: int)
    ensures WithKey(Insert(x, s, key), key, k) == (if key(x) == k then [x] else []) + WithKey(s, key, k)
  {
    var out := Insert(x, s, key);
    if s == [] || key(x) <= key(s[0]) {
      assert out == [x] + s;
      assert out[0] == x && out[1..] == s;
    } else {
      var rest := Insert(x, s[1..], key);
      InsertStable(x, s[1..], key, k);
      assert out == [s[0]] + rest;
      assert out[0] == s[0] && out[1..] == rest;
      var head := if key(s[0]) == k then [s[0]] else [];
      var xs := if key(x) == k then [x] else [];
      assert WithKey(out, key, k) == head + (xs + WithKey(s[1..], key, k));
      assert WithKey(s, key, k) == head + WithKey(s[1..], key, k);
      assert head == [] || xs == [];
    }
  }

  lemma {:induction false} SortByPermutation<T>(s: seq<T>, key: T -> int)
    ensures multiset(SortBy(s, key)) == multiset(s)
  {
    if s != [] {
      SortByPermutation(s[1..], key);
      InsertMultiset(s[0], SortBy(s[1..], key), key);
      assert s == [s[0]] + s[1..];
      assert multiset(s) == multiset{s[0]} + multiset(s[1..]);
    }
  }

  lemma {:induction false} SortBySorted<T>(s: seq<T>, key: T -> int)
    ensures SortedBy(SortBy(s, key), key)
  {
    if s != [] {
      SortBySorted(s[1..], key);
      InsertSorted(s[0], SortBy(s[1..], key), key);
    }
  }

  lemma {:induction false} SortByStable<T>(s: seq<T>, key: T -> int, k: int)
    ensures WithKey(SortBy(s, key), key, k) == WithKey(s, key, k)
  {
    if s != [] {
      SortByStable(s[1..], key, k);
      InsertStable(s[0], SortBy(s[1..], key), key, k);
    }
  }

  /**
   * The stable sort is a permutation of its input, sorted by key, and keeps
   * the input order among elements of equal key.
   */
  lemma SortByFacts<T>(s: seq<T>, key: T -> int)
    ensures multiset(SortBy(s, key)) == multiset(s)
    ensures |SortBy(s, key)| == |s|
    ensures SortedBy(SortBy(s, key), key)
    ensures forall k :: WithKey(SortBy(s, key), key, k) == WithKey(s, key, k)
  {
    SortByPermutation(s, key);
    assert |SortBy(s, key)| == |multiset(SortBy(s, key))| == |multiset(s)| == |s|;
    SortBySorted(s, key);
    forall k ensures WithKey(SortBy(s, key), key, k) == WithKey(s, key, k) {
      SortByStable(s, key, k);
    }
  }

  /** No two elements of s share a name. */
  predicate DistinctBy<T, K(==)>(s: seq<T>, name: T -> K) {
    forall i, j :: 0 <= i < j < |s| ==> name(s[i]) != name(s[j])
  }

  lemma {:induction false} InsertDistinct<T, K>(x: T, s: seq<T>, key: T -> int, name: T -> K)
    requires DistinctBy(s, name)
    requires forall i :: 0 <= i < |s| ==> name(s[i]) != name(x)
    ensures DistinctBy(Insert(x, s, key), name)
  {
    var out := Insert(x, s, key);
    if s == [] || key(x) <= key(s[0]) {
      forall i, j | 0 <= i < j < |out| ensures name(out[i]) != name(out[j]) {
        assert out[j] == s[j - 1];
        if i > 0 { assert out[i] == s[i - 1]; }
      }
    } else {
      var tail := s[1..];
      var rest := Insert(x, tail, key);
      assert forall i :: 0 <= i < |tail| ==> tail[i] == s[i + 1];
      InsertDistinct(x, tail, key, name);
      InsertMultiset(x, tail, key);
      forall j | 0 <= j < |rest| ensures name(rest[j]) != name(s[0]) {
        assert rest[j] in multiset(rest);
        if rest[j] != x {
          assert rest[j] in multiset(tail);
          var p :| 0 <= p < |tail| && tail[p] == rest[j];
          assert name(s[p + 1]) != name(s[0]);
        }
      }
      forall i, j | 0 <= i < j < |out| ensures name(out[i]) != name(out[j]) {
        assert out[j] == rest[j - 1];
        if i > 0 { assert out[i] == rest[i - 1]; }
      }
    }
  }

  /** Sorting keeps names distinct. */
  lemma {:induction false} SortByDistinct<T, K>(s: seq<T>, key: T -> int, name: T -> K)
    requires DistinctBy(s, name)
    ensures DistinctBy(SortBy(s, key), name)
  {
    if s != [] {
      var tail := s[1..];
      var sorted := SortBy(tail, key);
      assert forall i :: 0 <= i < |tail| ==> tail[i] == s[i + 1];
      SortByDistinct(tail, key, name);
      SortByFacts(tail, key);
      forall j | 0 <= j < |sorted| ensures name(sorted[j]) != name(s[0]) {
        assert sorted[j] in multiset(sorted);
        assert sorted[j] in multiset(tail);
        var p :| 0 <= p < |tail| && tail[p] == sorted[j];
        assert name(s[p + 1]) != name(s[0]);
      }
      InsertDistinct(s[0], sorted, key, name);
    }
  }

  /** The first element of the input comes first among the elements of its key. */
  lemma FirstOfKeyStaysFirst<T>(s: seq<T>, key: T -> int)
    requires s != []
    ensures WithKey(SortBy(s, key), key, key(s[0])) != []
    ensures WithKey(SortBy(s, key), key, key(s[0]))[0] == s[0]
  {
    SortByFacts(s, key);
  }
}
