// A stable sort by a lexicographically compared integer key. It stands for
// SQL `ORDER BY k1, k2, ...` (a descending column is a negated key) and for
// `Array.prototype.sort` with a key comparator, which is stable in every
// current JavaScript engine.
module Sorting {
  import opened Lists

  /** Lexicographic order on keys; the empty key is below every key. */
  predicate KeyLe(a: seq<int>, b: seq<int>)
    decreases |a|
  {
    a == [] || (b != [] && (a[0] < b[0] || (a[0] == b[0] && KeyLe(a[1..], b[1..]))))
  }

  lemma {:induction false} KeyLeTotal(a: seq<int>, b: seq<int>)
    ensures KeyLe(a, b) || KeyLe(b, a)
    decreases |a|
  {
    if a != [] && b != [] && a[0] == b[0] {
      KeyLeTotal(a[1..], b[1..]);
    }
  }

  lemma {:induction false} KeyLeTrans(a: seq<int>, b: seq<int>, c: seq<int>)
    requires KeyLe(a, b) && KeyLe(b, c)
    ensures KeyLe(a, c)
    decreases |a|
  {
    if a != [] && b != [] && c != [] && a[0] == b[0] && b[0] == c[0] {
      KeyLeTrans(a[1..], b[1..], c[1..]);
    }
  }

  ghost predicate SortedBy<T>(s: seq<T>, key: T -> seq<int>) {
    forall i, j :: 0 <= i < j < |s| ==> KeyLe(key(s[i]), key(s[j]))
  }

  /** Inserts `x` before the first element whose key is not below it. */
  function Insert<T>(x: T, s: seq<T>, key: T -> seq<int>): (r: seq<T>)
    ensures multiset(r) == multiset(s) + multiset{x}
    ensures |r| == |s| + 1
    ensures SortedBy(s, key) ==> SortedBy(r, key)
  {
    if s == [] then [x]
    else if KeyLe(key(x), key(s[0])) then
      InsertFrontSorted(x, s, key);
      [x] + s
    else
      var rest := Insert(x, s[1..], key);
      InsertAfterHead(x, s, rest, key);
      [s[0]] + rest
  }

  lemma InsertFrontSorted<T>(x: T, s: seq<T>, key: T -> seq<int>)
    requires s != [] && KeyLe(key(x), key(s[0]))
    ensures SortedBy(s, key) ==> SortedBy([x] + s, key)
  {
    if SortedBy(s, key) {
      forall j | 1 <= j < |s| + 1 ensures KeyLe(key(([x] + s)[0]), key(([x] + s)[j])) {
        if j > 1 { KeyLeTrans(key(x), key(s[0]), key(s[j - 1])); }
      }
    }
  }

  lemma InsertAfterHead<T>(x: T, s: seq<T>, rest: seq<T>, key: T -> seq<int>)
    requires s != [] && !KeyLe(key(x), key(s[0]))
    requires multiset(rest) == multiset(s[1..]) + multiset{x}
    requires SortedBy(s[1..], key) ==> SortedBy(rest, key)
    ensures multiset([s[0]] + rest) == multiset(s) + multiset{x}
    ensures SortedBy(s, key) ==> SortedBy([s[0]] + rest, key)
  {
    assert s == [s[0]] + s[1..];
    if SortedBy(s, key) {
      KeyLeTotal(key(x), key(s[0]));
      var r := [s[0]] + rest;
      forall j | 1 <= j < |r| ensures KeyLe(key(r[0]), key(r[j])) {
        assert r[j] in multiset(rest);
        assert r[j] == x || r[j] in multiset(s[1..]);
        if r[j] != x {
          var k :| 0 <= k < |s[1..]| && s[1..][k] == r[j];
          assert s[k + 1] == r[j];
        }
      }
    }
  }

  /** Stable insertion sort of `s` by `key`. */
  function SortBy<T>(s: seq<T>, key: T -> seq<int>): (r: seq<T>)
    ensures multiset(r) == multiset(s)
    ensures |r| == |s|
    ensures SortedBy(r, key)
  {
    if s == [] then []
    else
      assert s == [s[0]] + s[1..];
      Insert(s[0], SortBy(s[1..], key), key)
  }

  /** Sorting a sequence that is already in order leaves it unchanged. */
  lemma {:induction false} SortBySortedIsIdentity<T>(s: seq<T>, key: T -> seq<int>)
    requires SortedBy(s, key)
    ensures SortBy(s, key) == s
  {
    if s != [] {
      assert SortedBy(s[1..], key) by {
        forall i, j | 0 <= i < j < |s[1..]| ensures KeyLe(key(s[1..][i]), key(s[1..][j])) {
          assert s[1..][i] == s[i + 1] && s[1..][j] == s[j + 1];
        }
      }
      SortBySortedIsIdentity(s[1..], key);
      if |s| > 1 {
        assert KeyLe(key(s[0]), key(s[1]));
      }
      assert s == [s[0]] + s[1..];
    }
  }

  /** Sorting the rows a filter keeps yields exactly those rows, in key order. */
  lemma SortFilterMembers<T>(s: seq<T>, f: T -> bool, key: T -> seq<int>)
    ensures var r := SortBy(Filter(s, f), key);
      (forall k :: 0 <= k < |r| ==> r[k] in s && f(r[k])) &&
      (forall i :: 0 <= i < |s| && f(s[i]) ==> s[i] in r) &&
      SortedBy(r, key)
  {
    var kept := Filter(s, f);
    var r := SortBy(kept, key);
    forall k | 0 <= k < |r| ensures r[k] in s && f(r[k]) {
      assert r[k] in multiset(r);
      assert r[k] in kept;
    }
    forall i | 0 <= i < |s| && f(s[i]) ensures s[i] in r {
      assert s[i] in kept;
      assert s[i] in multiset(kept);
    }
  }
}
