// Order-preserving list operations standing in for `Array.prototype.filter`
// and `map`, and for SQL `WHERE` over rows in scan order.
module Lists {

  /** `s.filter(f)` */
  function Filter<T>(s: seq<T>, f: T -> bool): (r: seq<T>)
    ensures |r| <= |s|
    ensures forall i :: 0 <= i < |r| ==> r[i] in s && f(r[i])
    ensures forall i :: 0 <= i < |s| && f(s[i]) ==> s[i] in r
  {
    if s == [] then [] else (if f(s[0]) then [s[0]] else []) + Filter(s[1..], f)
  }

  /** Filtering works element by element, so kept elements stay in their order. */
  lemma {:induction false} FilterAppend<T>(a: seq<T>, b: seq<T>, f: T -> bool)
    ensures Filter(a + b, f) == Filter(a, f) + Filter(b, f)
  {
    if a == [] {
      assert a + b == b;
    } else {
      assert (a + b)[0] == a[0];
      assert (a + b)[1..] == a[1..] + b;
      FilterAppend(a[1..], b, f);
    }
  }

  /** A one-element list keeps its element exactly when it passes. */
  lemma FilterSingle<T>(x: T, f: T -> bool)
    ensures Filter([x], f) == if f(x) then [x] else []
  {
    assert [x][1..] == [];
  }

  /** A filter that every element passes gives the list back. */
  lemma {:induction false} FilterAll<T>(s: seq<T>, f: T -> bool)
    requires forall i :: 0 <= i < |s| ==> f(s[i])
    ensures Filter(s, f) == s
  {
    if s != [] {
      FilterAll(s[1..], f);
    }
  }

  /** The number of elements a filter keeps. */
  function Count<T>(s: seq<T>, f: T -> bool): (n: nat)
    ensures n <= |s|
    ensures n > 0 <==> exists i :: 0 <= i < |s| && f(s[i])
  {
    var r := Filter(s, f);
    assert r != [] ==> r[0] in s && f(r[0]);
    |r|
  }

  /** `s.map(f)` */
  function Map<T, U>(s: seq<T>, f: T -> U): (r: seq<U>)
    ensures |r| == |s|
    ensures forall i :: 0 <= i < |s| ==> r[i] == f(s[i])
  {
    if s == [] then [] else [f(s[0])] + Map(s[1..], f)
  }

  /** The list read from its end: rows in reverse insertion order. */
  function Reverse<T>(s: seq<T>): (r: seq<T>)
    ensures |r| == |s|
    ensures forall i :: 0 <= i < |s| ==> r[i] == s[|s| - 1 - i]
  {
    if s == [] then [] else [s[|s| - 1]] + Reverse(s[..|s| - 1])
  }

  /** A relation that holds between every earlier and later element still holds after filtering. */
  lemma {:induction false} FilterKeepsPairs<T>(s: seq<T>, f: T -> bool, rel: (T, T) -> bool)
    requires forall i, j :: 0 <= i < j < |s| ==> rel(s[i], s[j])
    ensures forall i, j :: 0 <= i < j < |Filter(s, f)| ==> rel(Filter(s, f)[i], Filter(s, f)[j])
  {
    if s != [] {
      var tail := s[1..];
      FilterKeepsPairs(tail, f, rel);
      var rest := Filter(tail, f);
      assert forall a, b :: 0 <= a < b < |rest| ==> rel(rest[a], rest[b]);
      if f(s[0]) {
        var r := [s[0]] + rest;
        assert Filter(s, f) == r;
        forall j | 0 <= j < |rest| ensures rel(s[0], rest[j]) {
          var k :| 0 <= k < |tail| && tail[k] == rest[j];
          assert s[k + 1] == tail[k];
        }
        forall i, j | 0 <= i < j < |r| ensures rel(r[i], r[j]) {
          assert r[j] == rest[j - 1];
          if i > 0 {
            assert r[i] == rest[i - 1];
            assert rel(rest[i - 1], rest[j - 1]);
          } else {
            assert r[i] == s[0];
            assert rel(s[0], rest[j - 1]);
          }
        }
      } else {
        assert Filter(s, f) == rest;
      }
    }
  }

  /** m is the least element of s. */
  predicate IsLeast(m: nat, s: set<nat>)
  {
    m in s && forall x :: x in s ==> m <= x
  }

  /** A finite set of naturals has a least element. */
  lemma LeastExists(s: set<nat>) returns (m: nat)
    requires s != {}
    ensures IsLeast(m, s)
    decreases s
  {
    var x :| x in s;
    if s == {x} {
      m := x;
    } else {
      var n := LeastExists(s - {x});
      m := if x < n then x else n;
      forall y | y in s ensures m <= y {
        if y != x { assert y in s - {x}; }
      }
    }
  }

  lemma HasLeast(s: set<nat>)
    requires s != {}
    ensures exists m :: IsLeast(m, s)
  {
    var m := LeastExists(s);
  }

  /** The elements of a finite set of naturals in ascending order, as integer object keys are enumerated. */
  function Ascending(s: set<nat>): (r: seq<nat>)
    ensures forall i, j :: 0 <= i < j < |r| ==> r[i] < r[j]
    ensures forall i :: 0 <= i < |r| ==> r[i] in s
    ensures forall x :: x in s ==> x in r
    decreases s
  {
    if s == {} then []
    else
      HasLeast(s);
      var m :| IsLeast(m, s);
      var rest := Ascending(s - {m});
      assert forall x :: x in s && x != m ==> x in s - {m};
      [m] + rest
  }
}
