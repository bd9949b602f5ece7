/** Optional values and outcomes shared by the other modules.
    JavaScript's `undefined`/`null`/`NaN` results become `None`; an exception
    thrown by a foreign call becomes `Failure`. */
module Wrappers {

  datatype Option<+T> = None | Some(value: T)

  datatype Result<+R, +E> = Success(value: R) | Failure(error: E)

  function Last<T>(s: seq<T>): T
    requires s != []
  {
    s[|s| - 1]
  }

  /** Concatenation of a sequence of sequences, in order. */
  function Flatten<T>(ss: seq<seq<T>>): seq<T>
    decreases |ss|
  {
    if ss == [] then [] else ss[0] + Flatten(ss[1..])
  }

  lemma {:induction false} FlattenAppend<T>(a: seq<seq<T>>, b: seq<seq<T>>)
    ensures Flatten(a + b) == Flatten(a) + Flatten(b)
    decreases |a|
  {
    if a == [] {
      assert a + b == b;
    } else {
      assert (a + b)[1..] == a[1..] + b;
      FlattenAppend(a[1..], b);
    }
  }

  lemma FlattenSnoc<T>(a: seq<seq<T>>, x: seq<T>)
    ensures Flatten(a + [x]) == Flatten(a) + x
  {
    FlattenAppend(a, [x]);
    assert Flatten([x]) == x + Flatten([x][1..]);
    assert [x][1..] == [];
  }

  /** Growing a prefix by one inner sequence grows its concatenation by it. */
  lemma FlattenPrefix<T>(ss: seq<seq<T>>, i: nat)
    requires i < |ss|
    ensures Flatten(ss[..i + 1]) == Flatten(ss[..i]) + ss[i]
  {
    assert ss[..i + 1] == ss[..i] + [ss[i]];
    FlattenSnoc(ss[..i], ss[i]);
  }

  /** Sum of the lengths of the inner sequences. */
  function TotalLength<T>(ss: seq<seq<T>>): nat
    decreases |ss|
  {
    if ss == [] then 0 else |ss[0]| + TotalLength(ss[1..])
  }

  lemma {:induction false} TotalLengthIsFlattenLength<T>(ss: seq<seq<T>>)
    ensures TotalLength(ss) == |Flatten(ss)|
    decreases |ss|
  {
    if ss != [] {
      TotalLengthIsFlattenLength(ss[1..]);
    }
  }

  /** True when no value occurs twice. */
  predicate Distinct<T(==)>(s: seq<T>)
  {
    forall i, j :: 0 <= i < j < |s| ==> s[i] != s[j]
  }

  /** The results of `f` on each element, concatenated in order: a loop that
      pushes `f(x)` for every `x`. */
  function FlatMap<A, B>(xs: seq<A>, f: A -> seq<B>): seq<B>
    decreases |xs|
  {
    if xs == [] then [] else FlatMap(xs[..|xs| - 1], f) + f(Last(xs))
  }

  lemma FlatMapSnoc<A, B>(xs: seq<A>, k: nat, f: A -> seq<B>)
    requires k < |xs|
    ensures FlatMap(xs[..k + 1], f) == FlatMap(xs[..k], f) + f(xs[k])
  {
    var p := xs[..k + 1];
    assert p[..|p| - 1] == xs[..k] && Last(p) == xs[k];
  }

  lemma {:induction false} FlatMapCons<A, B>(x: A, xs: seq<A>, f: A -> seq<B>)
    ensures FlatMap([x] + xs, f) == f(x) + FlatMap(xs, f)
    decreases |xs|
  {
    var s := [x] + xs;
    if xs == [] {
      assert s[..|s| - 1] == [] && Last(s) == x;
      assert FlatMap(s, f) == FlatMap([], f) + f(x);
    } else {
      var init := xs[..|xs| - 1];
      assert s[..|s| - 1] == [x] + init;
      assert Last(s) == Last(xs);
      assert FlatMap(s, f) == FlatMap([x] + init, f) + f(Last(xs));
      FlatMapCons(x, init, f);
      assert FlatMap(xs, f) == FlatMap(init, f) + f(Last(xs));
    }
  }

  /** A value is in the concatenation exactly when some element's result
      holds it. */
  lemma {:induction false} FlatMapMembers<A, B>(xs: seq<A>, f: A -> seq<B>, c: B)
    ensures c in FlatMap(xs, f) <==> exists k :: 0 <= k < |xs| && c in f(xs[k])
    decreases |xs|
  {
    if xs != [] {
      var init := xs[..|xs| - 1];
      FlatMapMembers(init, f, c);
      if c in FlatMap(xs, f) {
        if c in FlatMap(init, f) {
          var k :| 0 <= k < |init| && c in f(init[k]);
          assert xs[k] == init[k];
        } else {
          assert c in f(xs[|xs| - 1]);
        }
      }
      if exists k :: 0 <= k < |xs| && c in f(xs[k]) {
        var k :| 0 <= k < |xs| && c in f(xs[k]);
        if k < |init| {
          assert init[k] == xs[k];
        }
      }
    }
  }
}
