/**
 * The bin index a binned fill uses: `np.searchsorted(edges, v) - 1`.
 *
 * With its default `side='left'`, searchsorted on a sorted array returns
 * the position at which `v` would be inserted before any equal element,
 * which is the number of edges strictly below `v`. The bin index is one
 * less: -1 for a value at or below the first edge, `|edges| - 1` for a
 * value above the last one, and `i` for `edges[i] < v <= edges[i + 1]`.
 */
module BinSearch {

  predicate Sorted(edges: seq<real>) {
    forall i, j :: 0 <= i <= j < |edges| ==> edges[i] <= edges[j]
  }

  /** The number of edges strictly less than `v`. */
  function CountBelow(edges: seq<real>, v: real): (n: nat)
    ensures n <= |edges|
  {
    if edges == [] then 0
    else (if edges[0] < v then 1 else 0) + CountBelow(edges[1..], v)
  }

  /** `np.searchsorted(edges, v) - 1`. */
  function BinIndex(edges: seq<real>, v: real): (i: int)
    ensures -1 <= i < |edges|
  {
    CountBelow(edges, v) - 1
  }

  /** On sorted edges, the count splits them into those below `v` and the rest. */
  lemma {:induction false} CountBelowSplits(edges: seq<real>, v: real)
    requires Sorted(edges)
    ensures forall j :: 0 <= j < CountBelow(edges, v) ==> edges[j] < v
    ensures forall j :: CountBelow(edges, v) <= j < |edges| ==> v <= edges[j]
  {
    if edges != [] {
      var rest := edges[1..];
      assert Sorted(rest);
      CountBelowSplits(rest, v);
      if v <= edges[0] {
        assert forall j :: 0 <= j < |rest| ==> edges[0] <= rest[j];
      }
    }
  }

  /**
   * The split point is unique: any position that separates the edges below
   * `v` from the others is the count, so CountBelow is what searchsorted
   * (side='left') returns on a sorted array.
   */
  lemma SearchSortedUnique(edges: seq<real>, v: real, c: nat)
    requires Sorted(edges) && c <= |edges|
    requires forall j :: 0 <= j < c ==> edges[j] < v
    requires forall j :: c <= j < |edges| ==> v <= edges[j]
    ensures c == CountBelow(edges, v)
  {
    CountBelowSplits(edges, v);
    var d := CountBelow(edges, v);
    // Both split points classify every edge the same way, so they agree.
    var m := if c < d then c else d;
    assert m < |edges| ==> (m < c <==> edges[m] < v) && (m < d <==> edges[m] < v);
  }

  lemma {:induction false} CountBelowMonotone(edges: seq<real>, v: real, w: real)
    requires v <= w
    ensures CountBelow(edges, v) <= CountBelow(edges, w)
  {
    if edges != [] {
      CountBelowMonotone(edges[1..], v, w);
    }
  }

  /** A larger value never lands in a lower bin. */
  lemma BinIndexMonotone(edges: seq<real>, v: real, w: real)
    requires v <= w
    ensures BinIndex(edges, v) <= BinIndex(edges, w)
  {
    CountBelowMonotone(edges, v, w);
  }

  /** Above the first edge the index is a real bin; at or below it, -1. */
  lemma BinIndexNonNegative(edges: seq<real>, v: real)
    requires Sorted(edges)
    ensures 0 <= BinIndex(edges, v) <==> |edges| > 0 && edges[0] < v
  {
    CountBelowSplits(edges, v);
  }

  /** The bin an index names: `edges[i] < v <= edges[i + 1]`, open at the ends. */
  lemma BinIndexBrackets(edges: seq<real>, v: real)
    requires Sorted(edges)
    ensures 0 <= BinIndex(edges, v) ==> edges[BinIndex(edges, v)] < v
    ensures BinIndex(edges, v) + 1 < |edges| ==> v <= edges[BinIndex(edges, v) + 1]
  {
    CountBelowSplits(edges, v);
  }
}
