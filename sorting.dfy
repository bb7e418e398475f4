/** Order-keeping searches and sorts over a real-valued key: the stable
    sort behind `sort_values` and `sorted`, and the first position of a
    minimal key behind `idxmin` and `argsort()[:2]`. */
module Sorting {

  ghost predicate SortedBy<T>(s: seq<T>, key: T -> real) {
    forall i, j :: 0 <= i < j < |s| ==> key(s[i]) <= key(s[j])
  }

  ghost predicate Distinct<T>(s: seq<T>) {
    forall i, j :: 0 <= i < j < |s| ==> s[i] != s[j]
  }

  /** Inserts `x` after every element whose key is not larger than its own. */
  function InsertBy<T>(s: seq<T>, x: T, key: T -> real): (r: seq<T>)
    requires SortedBy(s, key)
    ensures SortedBy(r, key)
    ensures multiset(r) == multiset(s) + multiset{x}
    ensures |r| == |s| + 1
  {
    if s == [] then [x]
    else if key(x) < key(s[0]) then
      ConsSorted(x, s, key);
      [x] + s
    else
      var rest := InsertBy(s[1..], x, key);
      assert s == [s[0]] + s[1..];
      assert forall j :: 0 <= j < |rest| ==> key(s[0]) <= key(rest[j]) by {
        forall j | 0 <= j < |rest| ensures key(s[0]) <= key(rest[j]) {
          assert rest[j] in multiset(rest);
          if rest[j] != x {
            assert rest[j] in multiset(s[1..]);
            var i :| 0 <= i < |s[1..]| && s[1..][i] == rest[j];
            assert s[1..][i] == s[i + 1];
          }
        }
      }
      ConsSorted(s[0], rest, key);
      [s[0]] + rest
  }

  lemma ConsSorted<T>(a: T, t: seq<T>, key: T -> real)
    requires SortedBy(t, key)
    requires forall j :: 0 <= j < |t| ==> key(a) <= key(t[j])
    ensures SortedBy([a] + t, key)
  {
    var r := [a] + t;
    forall i, j | 0 <= i < j < |r| ensures key(r[i]) <= key(r[j]) {
      assert r[j] == t[j - 1];
      if i > 0 {
        assert r[i] == t[i - 1];
      }
    }
  }

  /** Insertion sort: each element is inserted behind the earlier elements
      with an equal key, so ties keep their input order. */
  function SortBy<T>(s: seq<T>, key: T -> real): (r: seq<T>)
    ensures SortedBy(r, key)
    ensures multiset(r) == multiset(s)
    ensures |r| == |s|
  {
    if s == [] then []
    else
      assert s == s[..|s| - 1] + [s[|s| - 1]];
      InsertBy(SortBy(s[..|s| - 1], key), s[|s| - 1], key)
  }

  lemma {:induction false} InsertLast<T>(s: seq<T>, x: T, key: T -> real)
    requires SortedBy(s, key)
    requires forall j :: 0 <= j < |s| ==> key(s[j]) <= key(x)
    ensures InsertBy(s, x, key) == s + [x]
  {
    if s != [] {
      InsertLast(s[1..], x, key);
      assert s == [s[0]] + s[1..];
    }
  }

  lemma SortedSplit<T>(s: seq<T>, p: seq<T>, x: T, key: T -> real)
    requires SortedBy(s, key) && s == p + [x]
    ensures SortedBy(p, key)
    ensures forall j :: 0 <= j < |p| ==> key(p[j]) <= key(x)
  {
    assert forall i :: 0 <= i < |p| ==> p[i] == s[i];
    assert x == s[|p|];
  }

  /** Sorting a sequence that is already in key order changes nothing. */
  lemma {:induction false} SortBySorted<T>(s: seq<T>, key: T -> real)
    requires SortedBy(s, key)
    ensures SortBy(s, key) == s
  {
    if s != [] {
      var p := s[..|s| - 1];
      var x := s[|s| - 1];
      assert s == p + [x];
      SortedSplit(s, p, x, key);
      SortBySorted(p, key);
      InsertLast(p, x, key);
    }
  }

  /** The first position holding a minimal key. */
  function FirstMinBy<T>(s: seq<T>, key: T -> real): (i: nat)
    requires |s| > 0
    ensures i < |s|
    ensures forall j :: 0 <= j < |s| ==> key(s[i]) <= key(s[j])
    ensures forall j :: 0 <= j < i ==> key(s[i]) < key(s[j])
  {
    if |s| == 1 then 0
    else
      var k := FirstMinBy(s[..|s| - 1], key);
      if key(s[|s| - 1]) < key(s[k]) then |s| - 1 else k
  }

  /** `s` with the element at position `i` removed. */
  function Without<T>(s: seq<T>, i: nat): (r: seq<T>)
    requires i < |s|
    ensures |r| == |s| - 1
    ensures forall k :: 0 <= k < i ==> r[k] == s[k]
    ensures forall k :: i < k < |s| ==> r[k - 1] == s[k]
  {
    s[..i] + s[i + 1..]
  }

  /** The first position of the smallest key once position `i` is left
      out, as a position of `s`. */
  function NextMinBy<T>(s: seq<T>, i: nat, key: T -> real): (j: nat)
    requires i < |s| && |s| >= 2
    ensures j < |s| && j != i
    ensures forall k :: 0 <= k < |s| && k != i ==> key(s[j]) <= key(s[k])
    ensures forall k :: 0 <= k < j && k != i ==> key(s[j]) < key(s[k])
  {
    var r := Without(s, i);
    var m := FirstMinBy(r, key);
    RemovedMin(s, r, i, m, key);
    if m < i then m else m + 1
  }

  /** The minimum of `s` with position `i` removed, read back at its
      position in `s`. */
  lemma RemovedMin<T>(s: seq<T>, r: seq<T>, i: nat, m: nat, key: T -> real)
    requires i < |s| && |r| == |s| - 1 && m < |r|
    requires forall k :: 0 <= k < i ==> r[k] == s[k]
    requires forall k :: i < k < |s| ==> r[k - 1] == s[k]
    requires forall k :: 0 <= k < |r| ==> key(r[m]) <= key(r[k])
    requires forall k :: 0 <= k < m ==> key(r[m]) < key(r[k])
    ensures var j := if m < i then m else m + 1;
      && j < |s| && j != i && s[j] == r[m]
      && (forall k :: 0 <= k < |s| && k != i ==> key(s[j]) <= key(s[k]))
      && (forall k :: 0 <= k < j && k != i ==> key(s[j]) < key(s[k]))
  {
    var j := if m < i then m else m + 1;
    assert s[j] == r[m];
    forall k | 0 <= k < |s| && k != i ensures key(r[m]) <= key(s[k]) {
      if k < i { assert s[k] == r[k]; } else { assert s[k] == r[k - 1]; }
    }
    forall k | 0 <= k < j && k != i ensures key(r[m]) < key(s[k]) {
      if k < i { assert s[k] == r[k]; } else { assert s[k] == r[k - 1]; }
    }
  }

  lemma Associative<T>(x: seq<T>, y: seq<T>, z: seq<T>)
    ensures x + (y + z) == (x + y) + z
  {
  }

  lemma HeadCount<T>(s: seq<T>, x: T)
    requires s != []
    ensures multiset(s)[x] == (if s[0] == x then 1 else 0) + multiset(s[1..])[x]
  {
    assert s == [s[0]] + s[1..];
  }

  lemma ConcatCount<T>(a: seq<T>, b: seq<T>, x: T)
    ensures multiset(a + b)[x] == multiset(a)[x] + multiset(b)[x]
  {
  }

  lemma {:induction false} DistinctCount<T>(s: seq<T>, x: T)
    requires Distinct(s)
    ensures multiset(s)[x] <= 1
  {
    if s != [] {
      var p := s[..|s| - 1];
      assert s == p + [s[|s| - 1]];
      DistinctCount(p, x);
      if s[|s| - 1] == x {
        assert x !in p;
      }
    }
  }

  lemma RepeatCount<T>(s: seq<T>, i: nat, j: nat)
    requires i < j < |s| && s[i] == s[j]
    ensures multiset(s)[s[i]] >= 2
  {
    assert s == s[..j] + [s[j]] + s[j + 1..];
    assert s[i] in s[..j];
  }

  /** A permutation of a sequence without repetitions has none either. */
  lemma DistinctPermutation<T>(a: seq<T>, b: seq<T>)
    requires Distinct(a) && multiset(a) == multiset(b)
    ensures Distinct(b)
  {
    forall i, j | 0 <= i < j < |b|
      ensures b[i] != b[j]
    {
      if b[i] == b[j] {
        RepeatCount(b, i, j);
        DistinctCount(a, b[i]);
        assert false;
      }
    }
  }
}
