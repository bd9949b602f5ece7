/** The codepoint partitioner: `splitCodepoints`, `splitByUnicodeRange`,
    `splitByUnicodeRangeAsync` and `splitByCharacterCount`. The same three
    splitters appear, almost word for word, in app.js, process-font.js and
    font-worker.js; they are modelled once here. */
module Partition {
  import opened Wrappers
  import opened Sorting

  /** Width of the blocks used by the by-range split. */
  const BlockSize: int := 1024

  /** Number of elements the chunked by-range split scans per slice. */
  const BatchSize: int := 1000

  /** `Math.floor(c / 1024)`: Dafny's division by a positive divisor rounds
      towards negative infinity, exactly like `Math.floor`. */
  function Block(c: int): int
  {
    c / BlockSize
  }

  /** The by-range rule: `cur` joins the group whose last element is `last`
      when it directly follows it or lies in the same 1024-wide block. */
  predicate Joins(last: int, cur: int)
  {
    cur == last + 1 || Block(cur) == Block(last)
  }

  /** The variables the by-range scan carries: the closed groups and the open
      `currentGroup`. */
  datatype ScanState = ScanState(groups: seq<seq<int>>, current: seq<int>)

  /** One iteration of the by-range scan loop. */
  function Step(st: ScanState, x: int): (r: ScanState)
    requires st.current != []
    ensures r.current != []
  {
    if Joins(Last(st.current), x) then ScanState(st.groups, st.current + [x])
    else ScanState(st.groups + [st.current], [x])
  }

  /** The scan loop run over `s`, starting from state `st`. */
  function Scan(st: ScanState, s: seq<int>): (r: ScanState)
    requires st.current != []
    ensures r.current != []
    decreases |s|
  {
    if s == [] then st else Scan(Step(st, s[0]), s[1..])
  }

  /** The final `groups.push(currentGroup)`. */
  function Close(st: ScanState): seq<seq<int>>
  {
    st.groups + [st.current]
  }

  function Start(x: int): ScanState
  {
    ScanState([], [x])
  }

  /** The groups the by-range split produces from an already sorted input. */
  function RangeGroups(sorted: seq<int>): seq<seq<int>>
  {
    if sorted == [] then [] else Close(Scan(Start(sorted[0]), sorted[1..]))
  }

  /** What the by-range rule demands of a grouping: no group is empty, inside
      a group every neighbour joins its predecessor, and across every group
      boundary the rule fails. */
  ghost predicate WellGrouped(gs: seq<seq<int>>)
  {
    && (forall i :: 0 <= i < |gs| ==> gs[i] != [])
    && (forall i, k :: 0 <= i < |gs| && 0 <= k < |gs[i]| - 1 ==> Joins(gs[i][k], gs[i][k + 1]))
    && (forall i :: 0 <= i < |gs| - 1 && gs[i] != [] && gs[i + 1] != [] ==>
          !Joins(Last(gs[i]), gs[i + 1][0]))
  }

  /** Resuming the scan mid-way, from the state reached after a prefix, gives
      the same state as one uninterrupted scan. This is what makes the sliced
      scan of `splitByUnicodeRangeAsync` agree with `splitByUnicodeRange`. */
  lemma {:induction false} ScanResume(st: ScanState, a: seq<int>, b: seq<int>)
    requires st.current != []
    ensures Scan(st, a + b) == Scan(Scan(st, a), b)
    decreases |a|
  {
    if a == [] {
      assert a + b == b;
    } else {
      assert (a + b)[0] == a[0];
      assert (a + b)[1..] == a[1..] + b;
      ScanResume(Step(st, a[0]), a[1..], b);
    }
  }

  lemma ScanOne(st: ScanState, a: seq<int>, x: int)
    requires st.current != []
    ensures Scan(st, a + [x]) == Step(Scan(st, a), x)
  {
    ScanResume(st, a, [x]);
    assert [x][1..] == [];
  }

  lemma StepKeeps(st: ScanState, x: int)
    requires st.current != []
    requires WellGrouped(Close(st))
    ensures WellGrouped(Close(Step(st, x)))
    ensures Flatten(Close(Step(st, x))) == Flatten(Close(st)) + [x]
  {
    var c := st.current;
    FlattenSnoc(st.groups, c);
    if Joins(Last(c), x) {
      FlattenSnoc(st.groups, c + [x]);
      var gs := Close(Step(st, x));
      assert gs == st.groups + [c + [x]];
      forall i | 0 <= i < |gs| ensures gs[i] != [] {
        if i < |gs| - 1 {
          assert gs[i] == Close(st)[i];
        }
      }
      forall i, k | 0 <= i < |gs| && 0 <= k < |gs[i]| - 1 ensures Joins(gs[i][k], gs[i][k + 1]) {
        if i == |gs| - 1 {
          if k < |c| - 1 {
            assert Close(st)[i] == c;
          }
        } else {
          assert gs[i] == Close(st)[i];
        }
      }
      forall i | 0 <= i < |gs| - 1 && gs[i] != [] && gs[i + 1] != []
        ensures !Joins(Last(gs[i]), gs[i + 1][0])
      {
        assert gs[i] == Close(st)[i];
        if i + 1 == |gs| - 1 {
          assert gs[i + 1][0] == c[0] == Close(st)[i + 1][0];
        } else {
          assert gs[i + 1] == Close(st)[i + 1];
        }
      }
    } else {
      var gs := Close(Step(st, x));
      assert gs == Close(st) + [[x]];
      FlattenSnoc(Close(st), [x]);
      forall i | 0 <= i < |gs| ensures gs[i] != [] {
        if i < |gs| - 1 {
          assert gs[i] == Close(st)[i];
        }
      }
      forall i, k | 0 <= i < |gs| && 0 <= k < |gs[i]| - 1 ensures Joins(gs[i][k], gs[i][k + 1]) {
        assert gs[i] == Close(st)[i];
      }
      forall i | 0 <= i < |gs| - 1 && gs[i] != [] && gs[i + 1] != []
        ensures !Joins(Last(gs[i]), gs[i + 1][0])
      {
        assert gs[i] == Close(st)[i];
        if i + 1 < |gs| - 1 {
          assert gs[i + 1] == Close(st)[i + 1];
        }
      }
    }
  }

  lemma {:induction false} ScanKeeps(st: ScanState, s: seq<int>)
    requires st.current != []
    requires WellGrouped(Close(st))
    ensures WellGrouped(Close(Scan(st, s)))
    ensures Flatten(Close(Scan(st, s))) == Flatten(Close(st)) + s
    decreases |s|
  {
    if s != [] {
      StepKeeps(st, s[0]);
      ScanKeeps(Step(st, s[0]), s[1..]);
      assert [s[0]] + s[1..] == s;
    }
  }

  /** Every grouping of the by-range split obeys the rule and loses, adds and
      reorders nothing: concatenated, the groups give back the scanned
      sequence. */
  lemma RangeGroupsSound(s: seq<int>)
    ensures WellGrouped(RangeGroups(s))
    ensures Flatten(RangeGroups(s)) == s
    ensures s == [] <==> RangeGroups(s) == []
  {
    if s != [] {
      var st := Start(s[0]);
      assert Flatten(Close(st)) == [s[0]] by {
        assert Close(st) == [[s[0]]];
        assert Flatten(Close(st)) == [s[0]] + Flatten(Close(st)[1..]);
      }
      ScanKeeps(st, s[1..]);
      assert [s[0]] + s[1..] == s;
    }
  }

  /** Appending one element to the scanned sequence either extends the last
      group or opens a new one, as the rule decides. */
  lemma RangeGroupsSnoc(s: seq<int>, x: int)
    requires s != []
    ensures var gs := RangeGroups(s);
      gs != [] &&
      RangeGroups(s + [x]) ==
        if Joins(Last(s), x) then gs[..|gs| - 1] + [Last(gs) + [x]] else gs + [[x]]
  {
    var st := Scan(Start(s[0]), s[1..]);
    assert (s + [x])[0] == s[0];
    assert (s + [x])[1..] == s[1..] + [x];
    ScanOne(Start(s[0]), s[1..], x);
    RangeGroupsSound(s);
    FlattenSnoc(st.groups, st.current);
    assert Last(s) == Last(st.current);
    var gs := RangeGroups(s);
    assert gs[..|gs| - 1] == st.groups;
  }

  lemma WellGroupedPrefix(gs: seq<seq<int>>)
    requires WellGrouped(gs) && gs != []
    ensures WellGrouped(gs[..|gs| - 1])
  {
    var p := gs[..|gs| - 1];
    forall i, k | 0 <= i < |p| && 0 <= k < |p[i]| - 1 ensures Joins(p[i][k], p[i][k + 1]) {
      assert p[i] == gs[i];
    }
    forall i | 0 <= i < |p| - 1 && p[i] != [] && p[i + 1] != []
      ensures !Joins(Last(p[i]), p[i + 1][0])
    {
      assert p[i] == gs[i] && p[i + 1] == gs[i + 1];
    }
  }

  /** Removing the last element of a last group of two or more keeps the rule,
      and that element joined its predecessor. */
  lemma WellGroupedDropLast(init: seq<seq<int>>, g: seq<int>, x: int)
    requires g != [] && WellGrouped(init + [g + [x]])
    ensures WellGrouped(init + [g]) && Joins(Last(g), x)
  {
    var gs := init + [g + [x]];
    var n := |init|;
    var hs := init + [g];
    assert gs[n] == g + [x];
    assert Joins(gs[n][|g| - 1], gs[n][|g|]);
    forall i | 0 <= i < |hs| ensures hs[i] != [] {
      if i < n {
        assert hs[i] == gs[i];
      }
    }
    forall i, k | 0 <= i < |hs| && 0 <= k < |hs[i]| - 1 ensures Joins(hs[i][k], hs[i][k + 1]) {
      if i < n {
        assert hs[i] == gs[i];
      } else {
        assert hs[i][k] == gs[i][k] && hs[i][k + 1] == gs[i][k + 1];
      }
    }
    forall i | 0 <= i < |hs| - 1 && hs[i] != [] && hs[i + 1] != []
      ensures !Joins(Last(hs[i]), hs[i + 1][0])
    {
      assert hs[i] == gs[i];
      if i + 1 < n {
        assert hs[i + 1] == gs[i + 1];
      } else {
        assert hs[i + 1][0] == gs[i + 1][0];
      }
    }
  }

  /** The rule determines the grouping: any grouping that obeys it and
      concatenates back to `s` is the one the split produces. So the split is
      specified by WellGrouped alone, independently of how the loop is run. */
  lemma {:induction false} RangeGroupsUnique(s: seq<int>, gs: seq<seq<int>>)
    requires WellGrouped(gs) && Flatten(gs) == s
    ensures gs == RangeGroups(s)
    decreases |s|, 2
  {
    if gs == [] {
      assert s == [];
    } else if |Last(gs)| == 1 {
      UniqueNewGroup(s, gs);
    } else {
      UniqueGrownGroup(s, gs);
    }
  }

  lemma FlattenOfNonEmptyGroups(gs: seq<seq<int>>)
    requires forall i :: 0 <= i < |gs| ==> gs[i] != []
    ensures gs != [] ==> Flatten(gs) != []
  {
    if gs != [] {
      assert Flatten(gs) == gs[0] + Flatten(gs[1..]);
    }
  }

  /** Induction step of RangeGroupsUnique when the last group is a singleton. */
  lemma {:induction false} UniqueNewGroup(s: seq<int>, gs: seq<seq<int>>)
    requires WellGrouped(gs) && Flatten(gs) == s
    requires gs != [] && |Last(gs)| == 1
    ensures gs == RangeGroups(s)
    decreases |s|, 1
  {
    var init, x := gs[..|gs| - 1], Last(gs)[0];
    SplitSingleton(gs);
    if init == [] {
      assert s == [x] && [x][1..] == [];
    } else {
      BoundaryBreaks(init, x);
      LastOfFlatten(init);
      NewGroupStep(Flatten(init), init, x);
    }
  }

  /** A grouping whose last group is a singleton `[x]`: the groups before it
      obey the rule, and concatenate to everything before `x`. */
  lemma SplitSingleton(gs: seq<seq<int>>)
    requires WellGrouped(gs) && gs != [] && |Last(gs)| == 1
    ensures var init, x := gs[..|gs| - 1], Last(gs)[0];
      && gs == init + [[x]]
      && Flatten(gs) == Flatten(init) + [x]
      && WellGrouped(init)
      && (init == [] <==> Flatten(init) == [])
  {
    var init, x := gs[..|gs| - 1], Last(gs)[0];
    assert Last(gs) == [x];
    assert gs == init + [[x]];
    FlattenSnoc(init, [x]);
    WellGroupedPrefix(gs);
    FlattenOfNonEmptyGroups(init);
  }

  /** A singleton group after a non-empty grouping of `s` is where the rule
      opened a new group. */
  lemma {:induction false} NewGroupStep(s: seq<int>, init: seq<seq<int>>, x: int)
    requires s != [] && Flatten(init) == s && WellGrouped(init)
    requires !Joins(Last(s), x)
    ensures init + [[x]] == RangeGroups(s + [x])
    decreases |s| + 1, 0
  {
    RangeGroupsUnique(s, init);
    RangeGroupsSnoc(s, x);
  }

  /** The boundary before a final singleton group breaks the rule. */
  lemma BoundaryBreaks(init: seq<seq<int>>, x: int)
    requires init != [] && WellGrouped(init + [[x]])
    ensures Last(init) != [] && !Joins(Last(Last(init)), x)
  {
    var gs := init + [[x]];
    assert gs[|gs| - 2] == Last(init) && gs[|gs| - 1] == [x];
  }

  /** The last element of a concatenation of groups is the last group's. */
  lemma LastOfFlatten(gs: seq<seq<int>>)
    requires gs != [] && Last(gs) != []
    ensures Flatten(gs) != [] && Last(Flatten(gs)) == Last(Last(gs))
  {
    var p := gs[..|gs| - 1];
    assert gs == p + [Last(gs)];
    FlattenSnoc(p, Last(gs));
  }

  /** Induction step of RangeGroupsUnique when the last group has two or more
      elements. */
  lemma {:induction false} UniqueGrownGroup(s: seq<int>, gs: seq<seq<int>>)
    requires WellGrouped(gs) && Flatten(gs) == s
    requires gs != [] && |Last(gs)| >= 2
    ensures gs == RangeGroups(s)
    decreases |s|, 1
  {
    var init := gs[..|gs| - 1];
    var g := Last(gs)[..|Last(gs)| - 1];
    var x := Last(Last(gs));
    assert Last(gs) == g + [x];
    assert gs == init + [g + [x]];
    WellGroupedDropLast(init, g, x);
    GrownStep(s, init, g, x);
  }

  lemma {:induction false} GrownStep(s: seq<int>, init: seq<seq<int>>, g: seq<int>, x: int)
    requires g != [] && WellGrouped(init + [g]) && Joins(Last(g), x)
    requires s == Flatten(init + [g + [x]])
    ensures init + [g + [x]] == RangeGroups(s)
    decreases |s|, 0
  {
    var s' := Flatten(init) + g;
    FlattenSnoc(init, g + [x]);
    FlattenSnoc(init, g);
    assert s == s' + [x];
    RangeGroupsUnique(s', init + [g]);
    ExtendLastGroup(s', x, init, g);
  }

  lemma ExtendLastGroup(s: seq<int>, x: int, init: seq<seq<int>>, g: seq<int>)
    requires g != [] && s != [] && Last(s) == Last(g)
    requires RangeGroups(s) == init + [g]
    requires Joins(Last(g), x)
    ensures RangeGroups(s + [x]) == init + [g + [x]]
  {
    RangeGroupsSnoc(s, x);
    var hs := init + [g];
    assert hs[..|hs| - 1] == init && Last(hs) == g;
  }

  // ---------------------------------------------------------------------
  // splitByUnicodeRange

  /** The synchronous by-range split: sort, then one scan over everything
      after the first element (the scan loop is `ProcessBatch` below, run over
      the whole of that range), then the last group is closed. */
  method SplitByUnicodeRange(codepoints: seq<int>) returns (groups: seq<seq<int>>)
    ensures groups == RangeGroups(SortAsc(codepoints))
  {
    if |codepoints| == 0 {
      return [];
    }
    var sorted := SortAsc(codepoints);
    var st := ProcessBatch(sorted, Start(sorted[0]), 1, |sorted|);
    assert sorted[1..|sorted|] == sorted[1..];
    groups := st.groups;
    if |st.current| > 0 {
      groups := groups + [st.current];
    }
  }

  /** The by-range scan loop over `sorted[start..end]` from a carried state:
      one slice of the chunked split (`processBatch(startIndex)`), or the
      whole loop of the synchronous split. */
  method ProcessBatch(sorted: seq<int>, st: ScanState, start: nat, end: nat) returns (r: ScanState)
    requires start <= end <= |sorted|
    requires st.current != []
    ensures r == Scan(st, sorted[start..end])
  {
    var groups, currentGroup := st.groups, st.current;
    var i := start;
    while i < end
      invariant start <= i <= end
      invariant ScanState(groups, currentGroup) == Scan(st, sorted[start..i])
    {
      var currentCodepoint := sorted[i];
      var lastCodepoint := currentGroup[|currentGroup| - 1];
      if currentCodepoint == lastCodepoint + 1 || Block(currentCodepoint) == Block(lastCodepoint) {
        currentGroup := currentGroup + [currentCodepoint];
      } else {
        groups := groups + [currentGroup];
        currentGroup := [currentCodepoint];
      }
      ScanOne(st, sorted[start..i], sorted[i]);
      assert sorted[start..i + 1] == sorted[start..i] + [sorted[i]];
      i := i + 1;
    }
    r := ScanState(groups, currentGroup);
  }

  /** The chunked by-range split: the scan runs in slices of BatchSize
      elements (each slice is one macrotask in the source), carrying
      `groups`/`currentGroup` across slices. It returns exactly what the
      synchronous split returns. */
  method SplitByUnicodeRangeAsync(codepoints: seq<int>) returns (groups: seq<seq<int>>)
    ensures groups == RangeGroups(SortAsc(codepoints))
  {
    if |codepoints| == 0 {
      return [];
    }
    var sorted := SortAsc(codepoints);
    var st := ScanInBatches(sorted);
    groups := st.groups;
    if |st.current| > 0 {
      groups := groups + [st.current];
    }
  }

  /** The batch loop of the chunked split: slices of BatchSize elements
      scanned one after another, ending with the state one scan of the whole
      sequence reaches. */
  method ScanInBatches(sorted: seq<int>) returns (st: ScanState)
    requires sorted != []
    ensures st == Scan(Start(sorted[0]), sorted[1..])
  {
    var totalCount := |sorted|;
    st := Start(sorted[0]);
    var startIndex := 1;
    var finished := false;
    while !finished
      invariant 1 <= startIndex <= totalCount
      invariant st.current != []
      invariant st == Scan(Start(sorted[0]), sorted[1..startIndex])
      invariant finished ==> startIndex == totalCount
      decreases totalCount - startIndex, if finished then 0 else 1
    {
      var endIndex := if startIndex + BatchSize < totalCount then startIndex + BatchSize else totalCount;
      st := ProcessBatch(sorted, st, startIndex, endIndex);
      ScanResume(Start(sorted[0]), sorted[1..startIndex], sorted[startIndex..endIndex]);
      SlicesJoin(sorted, 1, startIndex, endIndex);
      startIndex := endIndex;
      if endIndex >= totalCount {
        finished := true;
      }
    }
    assert sorted[1..startIndex] == sorted[1..];
  }

  lemma SlicesJoin(s: seq<int>, a: nat, b: nat, c: nat)
    requires a <= b <= c <= |s|
    ensures s[a..b] + s[b..c] == s[a..c]
  {
  }

  /** The by-range split as the source promises it: empty input gives no
      groups; otherwise the groups concatenate to the ascending input, obey the
      joining rule inside, break it across every boundary, and are the only
      grouping that does so. */
  lemma SplitByRangeSpec(codepoints: seq<int>, gs: seq<seq<int>>)
    requires gs == RangeGroups(SortAsc(codepoints))
    ensures codepoints == [] <==> gs == []
    ensures Flatten(gs) == SortAsc(codepoints)
    ensures Sorted(Flatten(gs)) && multiset(Flatten(gs)) == multiset(codepoints)
    ensures WellGrouped(gs)
    ensures forall hs :: WellGrouped(hs) && Flatten(hs) == SortAsc(codepoints) ==> hs == gs
  {
    RangeGroupsSound(SortAsc(codepoints));
    forall hs | WellGrouped(hs) && Flatten(hs) == SortAsc(codepoints) ensures hs == gs {
      RangeGroupsUnique(SortAsc(codepoints), hs);
    }
  }

  // ---------------------------------------------------------------------
  // splitByCharacterCount

  /** `s.slice(from, to)` with JavaScript's clamping at the end. */
  function Slice(s: seq<int>, from: nat, to: nat): (r: seq<int>)
  {
    if from >= |s| then [] else if to >= |s| then s[from..] else if to <= from then [] else s[from..to]
  }

  /** What remains after the first `i` elements. */
  function Rest(s: seq<int>, i: nat): seq<int>
  {
    if i <= |s| then s[i..] else []
  }

  /** Consecutive slices of length `n`, the last one possibly shorter. */
  function Chunks(s: seq<int>, n: int): seq<seq<int>>
    requires n >= 1
    decreases |s|
  {
    if s == [] then [] else if |s| <= n then [s] else [s[..n]] + Chunks(s[n..], n)
  }

  /** The by-count slices concatenate back to the input. */
  lemma {:induction false} ChunksFlatten(s: seq<int>, n: int)
    requires n >= 1
    ensures Flatten(Chunks(s, n)) == s
    decreases |s|
  {
    var c := Chunks(s, n);
    if s == [] {
    } else if |s| <= n {
      assert c == [s];
      assert Flatten(c) == s + Flatten(c[1..]);
    } else {
      ChunksFlatten(s[n..], n);
      assert c[1..] == Chunks(s[n..], n);
      assert s == s[..n] + s[n..];
    }
  }

  /** There are ceil(|s| / n) slices; each but the last holds exactly n
      codepoints and the last holds between 1 and n. */
  lemma {:induction false} ChunksShape(s: seq<int>, n: int)
    requires n >= 1
    ensures |Chunks(s, n)| == (|s| + n - 1) / n
    ensures forall k :: 0 <= k < |Chunks(s, n)| - 1 ==> |Chunks(s, n)[k]| == n
    ensures Chunks(s, n) != [] ==> 1 <= |Last(Chunks(s, n))| <= n
    decreases |s|
  {
    var c := Chunks(s, n);
    if s == [] {
      DivUnique(n - 1, n, 0, n - 1);
    } else if |s| <= n {
      DivUnique(|s| + n - 1, n, 1, |s| - 1);
    } else {
      var c' := Chunks(s[n..], n);
      ChunksShape(s[n..], n);
      assert c == [s[..n]] + c';
      assert (|s| + n - 1) / n == (|s[n..]| + n - 1) / n + 1 by {
        assert |s| + n - 1 == (|s[n..]| + n - 1) + n;
        DivAddDivisor(|s[n..]| + n - 1, n);
      }
      forall k | 0 <= k < |c| - 1 ensures |c[k]| == n {
        if k > 0 {
          assert c[k] == c'[k - 1];
        }
      }
      assert Last(c) == Last(c');
    }
  }

  lemma {:induction false} MulMono(n: int, k: int)
    requires n >= 1 && k >= 1
    ensures n * k >= n
    decreases k
  {
    if k > 1 {
      MulMono(n, k - 1);
      assert n * k == n * (k - 1) + n;
    }
  }

  /** Euclidean division has a unique quotient. */
  lemma DivUnique(a: int, n: int, q: int, r: int)
    requires n >= 1 && 0 <= r < n && a == n * q + r
    ensures a / n == q
  {
    var q0, r0 := a / n, a % n;
    assert a == n * q0 + r0;
    if q0 > q {
      MulMono(n, q0 - q);
    } else if q0 < q {
      MulMono(n, q - q0);
    }
  }

  lemma DivAddDivisor(a: int, n: int)
    requires a >= 0 && n >= 1
    ensures (a + n) / n == a / n + 1
  {
    var q, r := a / n, a % n;
    assert a == n * q + r;
    assert a + n == n * (q + 1) + r;
    DivUnique(a + n, n, q + 1, r);
  }

  /** The by-count split, for a count of at least 1. On non-empty input the
      source's loop never ends for 0 or a negative count, and a `NaN` count
      gives one empty group; on empty input every count gives no groups. */
  method SplitByCharacterCount(codepoints: seq<int>, maxCount: int) returns (groups: seq<seq<int>>)
    requires maxCount >= 1
    ensures groups == Chunks(codepoints, maxCount)
  {
    groups := [];
    var i: nat := 0;
    while i < |codepoints|
      invariant groups + Chunks(Rest(codepoints, i), maxCount) == Chunks(codepoints, maxCount)
      decreases |codepoints| - i
    {
      var rest := codepoints[i..];
      assert Rest(codepoints, i) == rest;
      if |rest| > maxCount {
        assert rest[maxCount..] == Rest(codepoints, i + maxCount);
        assert Slice(codepoints, i, i + maxCount) == rest[..maxCount];
      } else {
        assert Slice(codepoints, i, i + maxCount) == rest;
        assert Rest(codepoints, i + maxCount) == [];
      }
      groups := groups + [Slice(codepoints, i, i + maxCount)];
      i := i + maxCount;
    }
    assert Rest(codepoints, i) == [];
  }

  // ---------------------------------------------------------------------
  // splitCodepoints

  /** The strategy dispatch. `'byRange'` and `'byCount'` select the matching
      splitter (the by-count size is the caller's `splitCount`); `'single'`
      and every other string give the input back as one group, unsorted. */
  function SplitCodepoints(codepoints: seq<int>, strategy: string, splitCount: int): (groups: seq<seq<int>>)
    requires strategy == "byCount" ==> splitCount >= 1
    ensures strategy != "byRange" && strategy != "byCount" ==> groups == [codepoints]
    ensures strategy == "byRange" ==> groups == RangeGroups(SortAsc(codepoints))
    ensures strategy == "byCount" ==> groups == Chunks(codepoints, splitCount)
    ensures multiset(Flatten(groups)) == multiset(codepoints)
    ensures strategy != "byRange" ==> Flatten(groups) == codepoints
  {
    match strategy
    case "single" =>
      assert Flatten([codepoints]) == codepoints + Flatten([codepoints][1..]);
      [codepoints]
    case "byRange" =>
      RangeGroupsSound(SortAsc(codepoints));
      RangeGroups(SortAsc(codepoints))
    case "byCount" =>
      ChunksFlatten(codepoints, splitCount);
      Chunks(codepoints, splitCount)
    case _ =>
      assert Flatten([codepoints]) == codepoints + Flatten([codepoints][1..]);
      [codepoints]
  }
}
