/** The comparator sort `xs.sort((a, b) => key(a) - key(b))` that the source
    uses for codepoints (key = the value itself) and for subset results
    (key = the group index). Array.prototype.sort is a built-in; it is stood in
    for by an insertion sort, and only its contract (ascending by key, a
    permutation) is relied on elsewhere. */
module Sorting {

  ghost predicate SortedBy<T>(s: seq<T>, key: T -> int)
  {
    forall i, j :: 0 <= i < j < |s| ==> key(s[i]) <= key(s[j])
  }

  /** Ascending order on plain integers. */
  ghost predicate Sorted(s: seq<int>)
  {
    forall i, j :: 0 <= i < j < |s| ==> s[i] <= s[j]
  }

  /** Ascending without repeats. */
  ghost predicate StrictlyIncreasing(s: seq<int>)
  {
    forall i, j :: 0 <= i < j < |s| ==> s[i] < s[j]
  }

  function Id(x: int): int { x }

  function InsertBy<T>(x: T, s: seq<T>, key: T -> int): (r: seq<T>)
    requires SortedBy(s, key)
    ensures SortedBy(r, key)
    ensures multiset(r) == multiset(s) + multiset{x}
    ensures |r| == |s| + 1
    decreases |s|
  {
    if s == [] then [x]
    else if key(x) <= key(s[0]) then [x] + s
    else
      var rest := InsertBy(x, s[1..], key);
      assert s == [s[0]] + s[1..];
      InsertKeepsHead(x, s, rest, key);
      [s[0]] + rest
  }

  lemma InsertKeepsHead<T>(x: T, s: seq<T>, rest: seq<T>, key: T -> int)
    requires s != [] && SortedBy(s, key) && key(s[0]) < key(x)
    requires SortedBy(rest, key) && multiset(rest) == multiset(s[1..]) + multiset{x}
    ensures SortedBy([s[0]] + rest, key)
  {
    var r := [s[0]] + rest;
    forall i, j | 0 <= i < j < |r| ensures key(r[i]) <= key(r[j]) {
      if i == 0 {
        assert r[j] == rest[j - 1];
        assert r[j] in multiset(rest);
        if r[j] != x {
          assert r[j] in multiset(s[1..]);
          var k :| 0 <= k < |s[1..]| && s[1..][k] == r[j];
          assert s[k + 1] == r[j];
        }
      }
    }
  }

  /** Insertion sort by key; the result is ordered by key and is a permutation
      of the input. */
  function SortBy<T>(s: seq<T>, key: T -> int): (r: seq<T>)
    ensures SortedBy(r, key)
    ensures multiset(r) == multiset(s)
    ensures |r| == |s|
    decreases |s|
  {
    if s == [] then []
    else
      assert s == [s[0]] + s[1..];
      InsertBy(s[0], SortBy(s[1..], key), key)
  }

  /** `[...codepoints].sort((a, b) => a - b)`. */
  function SortAsc(s: seq<int>): (r: seq<int>)
    ensures Sorted(r)
    ensures multiset(r) == multiset(s)
    ensures |r| == |s|
  {
    var r := SortBy(s, Id);
    assert forall i, j :: 0 <= i < j < |r| ==> Id(r[i]) <= Id(r[j]);
    r
  }

  /** A sorted permutation of a repeat-free sequence is strictly increasing. */
  lemma SortedDistinctIsStrict(s: seq<int>, r: seq<int>)
    requires forall i, j :: 0 <= i < j < |s| ==> s[i] != s[j]
    requires Sorted(r) && multiset(r) == multiset(s)
    ensures StrictlyIncreasing(r)
  {
    forall i, j | 0 <= i < j < |r| ensures r[i] < r[j] {
      if r[i] == r[j] {
        MultiplicityOfRepeat(r, i, j);
        DistinctMultiplicity(s, r[i]);
        assert false;
      }
    }
  }

  lemma MultiplicityOfRepeat<T>(r: seq<T>, i: nat, j: nat)
    requires i < j < |r| && r[i] == r[j]
    ensures multiset(r)[r[i]] >= 2
  {
    assert r == r[..i] + [r[i]] + r[i+1..j] + [r[j]] + r[j+1..];
    assert multiset(r) == multiset(r[..i]) + multiset{r[i]} + multiset(r[i+1..j]) + multiset{r[j]} + multiset(r[j+1..]);
  }

  lemma {:induction false} DistinctMultiplicity<T>(s: seq<T>, v: T)
    requires forall i, j :: 0 <= i < j < |s| ==> s[i] != s[j]
    ensures multiset(s)[v] <= 1
    decreases |s|
  {
    if s != [] {
      assert s == [s[0]] + s[1..];
      DistinctMultiplicity(s[1..], v);
      if s[0] == v {
        assert v !in s[1..];
        assert multiset(s[1..])[v] == 0;
      }
    }
  }

  /** Two sequences that are ascending and hold the same values coincide: the
      sorted order is unique, so which stable sort stands in for the built-in
      does not matter for integers. */
  lemma {:induction false} SortedUnique(a: seq<int>, b: seq<int>)
    requires Sorted(a) && Sorted(b) && multiset(a) == multiset(b)
    ensures a == b
    decreases |a|
  {
    if a != [] {
      assert |a| == |multiset(a)| == |multiset(b)| == |b|;
      assert a == [a[0]] + a[1..];
      assert b == [b[0]] + b[1..];
      assert a[0] in multiset(b);
      assert b[0] in multiset(a);
      var i :| 0 <= i < |b| && b[i] == a[0];
      var j :| 0 <= j < |a| && a[j] == b[0];
      assert a[0] <= a[j] && b[0] <= b[i];
      assert a[0] == b[0];
      assert multiset(a[1..]) == multiset(a) - multiset{a[0]};
      assert multiset(b[1..]) == multiset(b) - multiset{b[0]};
      SortedUnique(a[1..], b[1..]);
    }
  }
}
