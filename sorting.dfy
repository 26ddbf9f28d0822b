/** Python's sorted(xs, key=k) on integer keys, as an insertion sort that,
    like Python's, keeps equal-key elements in their input order. */
module Sorting {

  /** Keys never decrease along s. */
  predicate SortedBy<T>(s: seq<T>, key: T -> nat)
  {
    forall i, j :: 0 <= i < j < |s| ==> key(s[i]) <= key(s[j])
  }

  /** Keys strictly increase along s. */
  predicate StrictlySortedBy<T>(s: seq<T>, key: T -> nat)
  {
    forall i, j :: 0 <= i < j < |s| ==> key(s[i]) < key(s[j])
  }

  /** No two elements of s share a key. */
  predicate DistinctKeysBy<T>(s: seq<T>, key: T -> nat)
  {
    forall i, j :: 0 <= i < j < |s| ==> key(s[i]) != key(s[j])
  }

  /** Inserts x before the first element whose key is not smaller. */
  function InsertBy<T>(x: T, s: seq<T>, key: T -> nat): (r: seq<T>)
    ensures multiset(r) == multiset(s) + multiset{x} && |r| == |s| + 1
  {
    if s == [] || key(x) <= key(s[0]) then [x] + s
    else
      assert s == [s[0]] + s[1..];
      [s[0]] + InsertBy(x, s[1..], key)
  }

  /** Every element of a sequence whose multiset grew by x is x or was there before. */
  lemma ElementsOf<T>(r: seq<T>, s: seq<T>, x: T)
    requires multiset(r) == multiset(s) + multiset{x}
    ensures forall y :: y in r ==> y == x || y in s
  {
    forall y | y in r ensures y == x || y in s {
      assert y in multiset(r);
    }
  }

  /** Inserting into a sorted sequence keeps it sorted. */
  lemma {:induction false} InsertSorted<T>(x: T, s: seq<T>, key: T -> nat)
    requires SortedBy(s, key)
    ensures SortedBy(InsertBy(x, s, key), key)
  {
    if s != [] && key(x) > key(s[0]) {
      var rest := InsertBy(x, s[1..], key);
      InsertSorted(x, s[1..], key);
      ElementsOf(rest, s[1..], x);
      var r := [s[0]] + rest;
      forall i, j | 0 <= i < j < |r| ensures key(r[i]) <= key(r[j]) {
        if i == 0 {
          assert r[j] in rest;
        } else {
          assert r[i] == rest[i - 1] && r[j] == rest[j - 1];
        }
      }
    }
  }

  /** Inserting a new key into a strictly sorted sequence keeps it strictly sorted. */
  lemma {:induction false} InsertStrictlySorted<T>(x: T, s: seq<T>, key: T -> nat)
    requires StrictlySortedBy(s, key) && forall y :: y in s ==> key(y) != key(x)
    ensures StrictlySortedBy(InsertBy(x, s, key), key)
  {
    if s == [] || key(x) <= key(s[0]) {
      if s != [] {
        assert key(x) != key(s[0]);
      }
    } else {
      var rest := InsertBy(x, s[1..], key);
      InsertStrictlySorted(x, s[1..], key);
      ElementsOf(rest, s[1..], x);
      var r := [s[0]] + rest;
      forall i, j | 0 <= i < j < |r| ensures key(r[i]) < key(r[j]) {
        if i == 0 {
          assert r[j] in rest;
        } else {
          assert r[i] == rest[i - 1] && r[j] == rest[j - 1];
        }
      }
    }
  }

  /** sorted(s, key=key). */
  function SortBy<T>(s: seq<T>, key: T -> nat): (r: seq<T>)
    ensures multiset(r) == multiset(s) && |r| == |s|
  {
    if s == [] then []
    else
      assert s == [s[0]] + s[1..];
      InsertBy(s[0], SortBy(s[1..], key), key)
  }

  /** The sorted sequence is ordered by key, strictly when the input has no repeated key. */
  lemma {:induction false} SortSorted<T>(s: seq<T>, key: T -> nat)
    ensures SortedBy(SortBy(s, key), key)
    ensures DistinctKeysBy(s, key) ==> StrictlySortedBy(SortBy(s, key), key)
  {
    if s != [] {
      var rest := SortBy(s[1..], key);
      SortSorted(s[1..], key);
      InsertSorted(s[0], rest, key);
      if DistinctKeysBy(s, key) {
        assert DistinctKeysBy(s[1..], key);
        forall y | y in rest ensures key(y) != key(s[0]) {
          assert y in multiset(rest);
          var j :| 0 <= j < |s[1..]| && s[1..][j] == y;
          assert s[j + 1] == y;
        }
        InsertStrictlySorted(s[0], rest, key);
      }
    }
  }

  /** The elements of s whose key is k, in their order in s. */
  function WithKey<T>(s: seq<T>, key: T -> nat, k: nat): (r: seq<T>)
    ensures forall y :: y in r ==> y in s && key(y) == k
  {
    if s == [] then []
    else if key(s[0]) == k then [s[0]] + WithKey(s[1..], key, k)
    else WithKey(s[1..], key, k)
  }

  /** Inserting x places it ahead of every element that shares its key. */
  lemma {:induction false} WithKeyInsert<T>(x: T, s: seq<T>, key: T -> nat, k: nat)
    ensures WithKey(InsertBy(x, s, key), key, k)
         == (if key(x) == k then [x] else []) + WithKey(s, key, k)
  {
    if s == [] || key(x) <= key(s[0]) {
      assert ([x] + s)[1..] == s;
    } else {
      WithKeyInsert(x, s[1..], key, k);
      assert ([s[0]] + InsertBy(x, s[1..], key))[1..] == InsertBy(x, s[1..], key);
    }
  }

  /** Sorting is stable: the elements sharing any one key keep their input order. */
  lemma {:induction false} SortStable<T>(s: seq<T>, key: T -> nat, k: nat)
    ensures WithKey(SortBy(s, key), key, k) == WithKey(s, key, k)
  {
    if s != [] {
      SortStable(s[1..], key, k);
      WithKeyInsert(s[0], SortBy(s[1..], key), key, k);
    }
  }

  /** The key column of s. */
  function Keys<T>(s: seq<T>, key: T -> nat): (r: seq<nat>)
    ensures |r| == |s| && forall i :: 0 <= i < |s| ==> r[i] == key(s[i])
  {
    if s == [] then [] else [key(s[0])] + Keys(s[1..], key)
  }

  /** The key of a bare integer is the integer itself. */
  function Id(n: nat): nat
  {
    n
  }

  /** Inserting an element and then taking keys is inserting its key into the keys. */
  lemma {:induction false} KeysOfInsert<T>(x: T, s: seq<T>, key: T -> nat)
    ensures Keys(InsertBy(x, s, key), key) == InsertBy(key(x), Keys(s, key), Id)
  {
    if s != [] && key(x) > key(s[0]) {
      KeysOfInsert(x, s[1..], key);
      assert Keys(s, key)[1..] == Keys(s[1..], key);
    }
  }

  /** Sorting records by key and keeping the keys is sorting the keys. */
  lemma {:induction false} KeysOfSort<T>(s: seq<T>, key: T -> nat)
    ensures Keys(SortBy(s, key), key) == SortBy(Keys(s, key), Id)
  {
    if s != [] {
      KeysOfSort(s[1..], key);
      KeysOfInsert(s[0], SortBy(s[1..], key), key);
      assert Keys(s, key)[1..] == Keys(s[1..], key);
    }
  }
}
