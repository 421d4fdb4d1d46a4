/**
 * Python's `sorted(items, key=...)` and `list.sort(key=...)`: a stable sort by an integer key.
 * `sorted(..., reverse=True)` is the same sort on the negated key, since Python keeps equal
 * elements in their original order in both directions.
 */
module StableSort {

  predicate SortedBy<T>(s: seq<T>, key: T -> int) {
    forall i, j :: 0 <= i < j < |s| ==> key(s[i]) <= key(s[j])
  }

  /** The elements of `s` whose key is `k`, in their order in `s`. */
  function WithKey<T>(s: seq<T>, key: T -> int, k: int): seq<T> {
    if s == [] then [] else (if key(s[0]) == k then [s[0]] else []) + WithKey(s[1..], key, k)
  }

  /** `x` placed before the first element whose key is not smaller than its own. */
  function Insert<T>(x: T, s: seq<T>, key: T -> int): (r: seq<T>)
    ensures multiset(r) == multiset{x} + multiset(s)
  {
    if s == [] || key(x) <= key(s[0]) then [x] + s
    else
      assert s == [s[0]] + s[1..];
      [s[0]] + Insert(x, s[1..], key)
  }

  /** Insertion sort: each element goes in front of the already sorted elements that do not precede it. */
  function Sort<T>(s: seq<T>, key: T -> int): (r: seq<T>)
    ensures multiset(r) == multiset(s)
  {
    if s == [] then []
    else
      assert s == [s[0]] + s[1..];
      Insert(s[0], Sort(s[1..], key), key)
  }

  lemma {:induction false} InsertSorted<T>(x: T, s: seq<T>, key: T -> int)
    requires SortedBy(s, key)
    ensures SortedBy(Insert(x, s, key), key)
  {
    if s != [] && key(x) > key(s[0]) {
      InsertSorted(x, s[1..], key);
      var r := Insert(x, s[1..], key);
      forall n | 0 <= n < |r| ensures key(s[0]) <= key(r[n]) {
        assert r[n] in multiset(r);
        if r[n] != x {
          assert r[n] in multiset(s[1..]);
          var m :| 0 <= m < |s[1..]| && s[1..][m] == r[n];
          assert s[m + 1] == r[n];
        }
      }
      var out := [s[0]] + r;
      assert Insert(x, s, key) == out;
      forall i, j | 0 <= i < j < |out| ensures key(out[i]) <= key(out[j]) {
        assert out[j] == r[j - 1];
        if i > 0 {
          assert out[i] == r[i - 1];
        }
      }
    }
  }

  /** The result is ordered by the key. */
  lemma {:induction false} SortSorted<T>(s: seq<T>, key: T -> int)
    ensures SortedBy(Sort(s, key), key)
  {
    if s != [] {
      SortSorted(s[1..], key);
      InsertSorted(s[0], Sort(s[1..], key), key);
    }
  }

  lemma {:induction false} WithKeyInsert<T>(x: T, s: seq<T>, key: T -> int, k: int)
    ensures WithKey(Insert(x, s, key), key, k) == (if key(x) == k then [x] else []) + WithKey(s, key, k)
  {
    var hx := if key(x) == k then [x] else [];
    if s == [] || key(x) <= key(s[0]) {
      var r := [x] + s;
      assert Insert(x, s, key) == r;
      assert r[0] == x && r[1..] == s;
      assert WithKey(r, key, k) == hx + WithKey(s, key, k);
    } else {
      WithKeyInsert(x, s[1..], key, k);
      var rest := Insert(x, s[1..], key);
      var r := [s[0]] + rest;
      var h0 := if key(s[0]) == k then [s[0]] else [];
      assert Insert(x, s, key) == r;
      assert r[0] == s[0] && r[1..] == rest;
      assert WithKey(r, key, k) == h0 + WithKey(rest, key, k);
      assert WithKey(rest, key, k) == hx + WithKey(s[1..], key, k);
      assert WithKey(s, key, k) == h0 + WithKey(s[1..], key, k);
      assert h0 + (hx + WithKey(s[1..], key, k)) == hx + (h0 + WithKey(s[1..], key, k)) by {
        assert h0 == [] || hx == [];
      }
    }
  }

  /** Stability: the elements sharing a key keep their original order. */
  lemma {:induction false} SortStable<T>(s: seq<T>, key: T -> int, k: int)
    ensures WithKey(Sort(s, key), key, k) == WithKey(s, key, k)
  {
    if s != [] {
      SortStable(s[1..], key, k);
      WithKeyInsert(s[0], Sort(s[1..], key), key, k);
    }
  }

  /** Position `k` holds the greatest key, and every later element has a smaller one. */
  ghost predicate LastMax<T>(s: seq<T>, key: T -> int, k: int) {
    && 0 <= k < |s|
    && (forall j | 0 <= j < |s| :: key(s[j]) <= key(s[k]))
    && (forall j | k < j < |s| :: key(s[j]) < key(s[k]))
  }

  /** Only one position is the last with the greatest key. */
  lemma LastMaxUnique<T>(s: seq<T>, key: T -> int, k1: int, k2: int)
    requires LastMax(s, key, k1) && LastMax(s, key, k2)
    ensures k1 == k2
  {
    assert key(s[k1]) <= key(s[k2]) && key(s[k2]) <= key(s[k1]);
  }

  /** The tail of a sorted sequence is sorted. */
  lemma SortedTail<T>(s: seq<T>, key: T -> int)
    requires s != [] && SortedBy(s, key)
    ensures SortedBy(s[1..], key) && forall j | 0 <= j < |s[1..]| :: key(s[0]) <= key(s[1..][j])
  {
    var t := s[1..];
    forall i, j | 0 <= i < j < |t| ensures key(t[i]) <= key(t[j]) {
      assert t[i] == s[i + 1] && t[j] == s[j + 1];
    }
    forall j | 0 <= j < |t| ensures key(s[0]) <= key(t[j]) {
      assert t[j] == s[j + 1];
    }
  }

  lemma InsertLength<T>(x: T, s: seq<T>, key: T -> int)
    ensures |Insert(x, s, key)| == |s| + 1
  {
    assert |multiset(Insert(x, s, key))| == |multiset(s)| + 1;
  }

  /** Inserting into a sorted sequence ends with `x` only if its key exceeds the last one. */
  lemma {:induction false} InsertLast<T>(x: T, s: seq<T>, key: T -> int)
    requires s != [] && SortedBy(s, key)
    ensures |Insert(x, s, key)| == |s| + 1
    ensures Insert(x, s, key)[|s|] == if key(x) > key(s[|s| - 1]) then x else s[|s| - 1]
  {
    InsertLength(x, s, key);
    if key(x) <= key(s[0]) {
      assert Insert(x, s, key) == [x] + s;
      assert key(s[0]) <= key(s[|s| - 1]) by {
        if |s| > 1 {
          assert 0 < |s| - 1;
        }
      }
    } else {
      var t := s[1..];
      var r := Insert(x, t, key);
      InsertLength(x, t, key);
      assert Insert(x, s, key) == [s[0]] + r;
      if t == [] {
        assert r == [x];
      } else {
        SortedTail(s, key);
        InsertLast(x, t, key);
        assert t[|t| - 1] == s[|s| - 1];
      }
    }
  }

  /**
   * The last element of the sort is the input's last element with the greatest key: the stable
   * sort puts the greatest keys last and keeps their input order.
   */
  lemma SortLast<T>(s: seq<T>, key: T -> int)
    requires s != []
    ensures |Sort(s, key)| == |s|
    ensures exists k :: LastMax(s, key, k) && Sort(s, key)[|s| - 1] == s[k]
  {
    var k := SortLastAt(s, key);
  }

  lemma {:induction false} SortLastAt<T>(s: seq<T>, key: T -> int) returns (k: int)
    requires s != []
    ensures |Sort(s, key)| == |s| && LastMax(s, key, k) && Sort(s, key)[|s| - 1] == s[k]
  {
    var t := s[1..];
    assert s == [s[0]] + t;
    if t == [] {
      assert Sort(s, key) == Insert(s[0], [], key) == [s[0]];
      k := 0;
    } else {
      var k' := SortLastAt(t, key);
      var r := Sort(t, key);
      assert Sort(s, key) == Insert(s[0], r, key);
      SortSorted(t, key);
      InsertLast(s[0], r, key);
      LastOfMax(s, key, k');
      k := if key(s[0]) > key(t[k']) then 0 else k' + 1;
    }
  }

  /** Either the head or the tail's last maximum is the whole sequence's last maximum. */
  lemma LastOfMax<T>(s: seq<T>, key: T -> int, k': int)
    requires |s| > 1 && LastMax(s[1..], key, k')
    ensures key(s[0]) > key(s[1..][k']) ==> LastMax(s, key, 0)
    ensures key(s[0]) <= key(s[1..][k']) ==> LastMax(s, key, k' + 1)
  {
    var t := s[1..];
    assert s[k' + 1] == t[k'];
    forall j | 0 < j < |s| ensures s[j] == t[j - 1] && key(s[j]) <= key(t[k']) {
      assert s[j] == t[j - 1];
    }
    forall j | k' + 1 < j < |s| ensures key(s[j]) < key(t[k']) {
      assert s[j] == t[j - 1];
    }
  }

  /** No two elements share a projection, e.g. an id. */
  ghost predicate Distinct<T, U>(s: seq<T>, f: T -> U) {
    forall i, j :: 0 <= i < j < |s| ==> f(s[i]) != f(s[j])
  }

  lemma {:induction false} InsertDistinct<T, U>(x: T, s: seq<T>, key: T -> int, f: T -> U)
    requires Distinct(s, f)
    requires forall y | y in s :: f(y) != f(x)
    ensures Distinct(Insert(x, s, key), f)
  {
    if s != [] && key(x) > key(s[0]) {
      InsertDistinct(x, s[1..], key, f);
      var r := Insert(x, s[1..], key);
      forall y | y in r ensures f(s[0]) != f(y) {
        assert y in multiset(r);
        if y != x {
          var j :| 0 <= j < |s[1..]| && s[1..][j] == y;
          assert s[j + 1] == y;
        }
      }
    }
  }

  /** Sorting keeps distinct projections distinct. */
  lemma {:induction false} SortDistinct<T, U>(s: seq<T>, key: T -> int, f: T -> U)
    requires Distinct(s, f)
    ensures Distinct(Sort(s, key), f)
  {
    if s != [] {
      SortDistinct(s[1..], key, f);
      var r := Sort(s[1..], key);
      forall y | y in r ensures f(y) != f(s[0]) {
        assert y in multiset(r);
        var j :| 0 <= j < |s[1..]| && s[1..][j] == y;
        assert s[j + 1] == y;
      }
      InsertDistinct(s[0], r, key, f);
    }
  }

  /** A sequence already in key order with distinct keys is its own sort. */
  lemma {:induction false} SortStrictlySorted<T>(s: seq<T>, key: T -> int)
    requires forall i, j :: 0 <= i < j < |s| ==> key(s[i]) < key(s[j])
    ensures Sort(s, key) == s
  {
    if s != [] {
      SortStrictlySorted(s[1..], key);
      assert Sort(s[1..], key) == s[1..];
      assert s == [s[0]] + s[1..];
    }
  }
}
