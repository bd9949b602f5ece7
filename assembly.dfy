/** The step of `generateSubset` (app.js) that lines the subset buffers up
    with their codepoint groups once every subset task has settled: the
    results are sorted by the group index each one carries, and the i-th
    font file pairs the i-th sorted buffer with the i-th group. */
module Assembly {
  import opened Sorting

  /** `{ buffer, index }`: a subset task's output and the group it was made
      from. */
  datatype SubsetResult<B> = SubsetResult(buffer: B, index: int)

  /** `{ buffer, codepoints, index }`. */
  datatype FontFile<B> = FontFile(buffer: B, codepoints: seq<int>, index: int)

  function ResultIndex<B>(r: SubsetResult<B>): int
  {
    r.index
  }

  /** `subsetResults.sort((a, b) => a.index - b.index)` followed by the loop
      that builds `fontFiles`. One result arrives per group. */
  function AssembleFontFiles<B>(results: seq<SubsetResult<B>>, groups: seq<seq<int>>): (files: seq<FontFile<B>>)
    requires |results| == |groups|
    ensures |files| == |groups|
    ensures forall i :: 0 <= i < |files| ==> files[i].codepoints == groups[i] && files[i].index == i
  {
    var sorted := SortBy(results, ResultIndex);
    seq(|sorted|, i requires 0 <= i < |sorted| => FontFile(sorted[i].buffer, groups[i], i))
  }

  /** Results that name each group exactly once. */
  ghost predicate OnePerGroup<B>(results: seq<SubsetResult<B>>)
  {
    && (forall i :: 0 <= i < |results| ==> 0 <= results[i].index < |results|)
    && (forall i, j :: 0 <= i < j < |results| ==> results[i].index != results[j].index)
  }

  /** Whatever order the results come in, when they name each group once,
      every buffer lands in the file of the group it was made from. */
  lemma AssembleAligned<B>(results: seq<SubsetResult<B>>, groups: seq<seq<int>>)
    requires |results| == |groups| && OnePerGroup(results)
    ensures forall i :: 0 <= i < |results| ==>
      && AssembleFontFiles(results, groups)[results[i].index].buffer == results[i].buffer
      && AssembleFontFiles(results, groups)[results[i].index].codepoints == groups[results[i].index]
  {
    var sorted := SortBy(results, ResultIndex);
    var files := AssembleFontFiles(results, groups);
    SortedIndicesAreRanks(results, sorted);
    forall i | 0 <= i < |results|
      ensures files[results[i].index].buffer == results[i].buffer
    {
      assert results[i] in multiset(sorted);
      var k :| 0 <= k < |sorted| && sorted[k] == results[i];
      assert sorted[k].index == k;
    }
  }

  /** Sorted by index, a permutation of results naming each group once has
      the result for group `k` at position `k`. */
  lemma SortedIndicesAreRanks<B>(results: seq<SubsetResult<B>>, sorted: seq<SubsetResult<B>>)
    requires OnePerGroup(results) && multiset(sorted) == multiset(results)
    requires SortedBy(sorted, ResultIndex)
    ensures |sorted| == |results|
    ensures forall k :: 0 <= k < |sorted| ==> sorted[k].index == k
  {
    assert |sorted| == |multiset(sorted)| == |results|;
    var ix := seq(|sorted|, k requires 0 <= k < |sorted| => sorted[k].index);
    forall k | 0 <= k < |sorted| ensures 0 <= ix[k] < |sorted| {
      assert sorted[k] in multiset(results);
    }
    forall i, j | 0 <= i < j < |ix| ensures ix[i] < ix[j] {
      assert ResultIndex(sorted[i]) <= ResultIndex(sorted[j]);
      IndicesDistinctAfterSort(results, sorted, i, j);
    }
    forall k | 0 <= k < |sorted| ensures sorted[k].index == k {
      StrictRank(ix, k);
    }
  }

  lemma IndicesDistinctAfterSort<B>(results: seq<SubsetResult<B>>, sorted: seq<SubsetResult<B>>, i: nat, j: nat)
    requires OnePerGroup(results) && multiset(sorted) == multiset(results)
    requires i < j < |sorted|
    ensures sorted[i].index != sorted[j].index
  {
    assert sorted[i] in multiset(results) && sorted[j] in multiset(results);
    var p :| 0 <= p < |results| && results[p] == sorted[i];
    var q :| 0 <= q < |results| && results[q] == sorted[j];
    if p == q {
      MultiplicityOfRepeat(sorted, i, j);
      DistinctMultiplicity(results, sorted[i]);
    }
  }

  /** A strictly increasing sequence of `n` values drawn from `[0, n)` is
      `0, 1, …, n - 1`. */
  lemma StrictRank(ix: seq<int>, k: nat)
    requires k < |ix|
    requires forall i :: 0 <= i < |ix| ==> 0 <= ix[i] < |ix|
    requires forall i, j :: 0 <= i < j < |ix| ==> ix[i] < ix[j]
    ensures ix[k] == k
  {
    StrictGap(ix, 0, k);
    StrictGap(ix, k, |ix| - 1);
  }

  lemma {:induction false} StrictGap(ix: seq<int>, i: nat, j: nat)
    requires i <= j < |ix|
    requires forall a, b :: 0 <= a < b < |ix| ==> ix[a] < ix[b]
    ensures ix[j] - ix[i] >= j - i
    decreases j - i
  {
    if i < j {
      StrictGap(ix, i, j - 1);
    }
  }
}
