/**
 * `itertools.product(range(n1), ..., range(nk))`: every index tuple with
 * `0 <= t[j] < sizes[j]`, in lexicographic order (the last position varies
 * fastest), each exactly once.
 */
module IndexProduct {

  /** The product of the sizes: how many tuples there are. */
  function Prod(sizes: seq<nat>): nat {
    if sizes == [] then 1 else sizes[0] * Prod(sizes[1..])
  }

  /** `t` is an index tuple within the sizes. */
  predicate InRange(t: seq<int>, sizes: seq<nat>) {
    |t| == |sizes| && forall j :: 0 <= j < |t| ==> 0 <= t[j] < sizes[j]
  }

  predicate Distinct<T(==)>(s: seq<T>) {
    forall i, j :: 0 <= i < j < |s| ==> s[i] != s[j]
  }

  /** Every tuple of `rest`, with `i` put in front. */
  function Prefixed(i: int, rest: seq<seq<int>>): (r: seq<seq<int>>)
    ensures |r| == |rest|
  {
    seq(|rest|, k requires 0 <= k < |rest| => [i] + rest[k])
  }

  /** The tuples `[i] + t` for `lo <= i < hi` and `t` in `rest`, `i` varying slowest. */
  function Layer(lo: nat, hi: nat, rest: seq<seq<int>>): seq<seq<int>>
    decreases hi - lo
  {
    if lo >= hi then [] else Prefixed(lo, rest) + Layer(lo + 1, hi, rest)
  }

  function Product(sizes: seq<nat>): seq<seq<int>>
    decreases |sizes|
  {
    if sizes == [] then [[]] else Layer(0, sizes[0], Product(sizes[1..]))
  }

  lemma {:induction false} LayerLength(lo: nat, hi: nat, rest: seq<seq<int>>)
    requires lo <= hi
    ensures |Layer(lo, hi, rest)| == (hi - lo) * |rest|
    decreases hi - lo
  {
    if lo < hi {
      LayerLength(lo + 1, hi, rest);
      assert (hi - lo) * |rest| == |rest| + (hi - (lo + 1)) * |rest|;
    }
  }

  /** There are as many tuples as the product of the sizes. */
  lemma {:induction false} ProductLength(sizes: seq<nat>)
    ensures |Product(sizes)| == Prod(sizes)
  {
    if sizes != [] {
      ProductLength(sizes[1..]);
      LayerLength(0, sizes[0], Product(sizes[1..]));
    }
  }

  lemma PrefixedMembership(i: int, rest: seq<seq<int>>, t: seq<int>)
    ensures t in Prefixed(i, rest) <==> |t| > 0 && t[0] == i && t[1..] in rest
  {
    var p := Prefixed(i, rest);
    if t in p {
      var k :| 0 <= k < |p| && p[k] == t;
      assert t[1..] == rest[k];
    }
    if |t| > 0 && t[0] == i && t[1..] in rest {
      var k :| 0 <= k < |rest| && rest[k] == t[1..];
      assert p[k] == t;
    }
  }

  lemma {:induction false} LayerMembership(lo: nat, hi: nat, rest: seq<seq<int>>, t: seq<int>)
    ensures t in Layer(lo, hi, rest) <==> |t| > 0 && lo <= t[0] < hi && t[1..] in rest
    decreases hi - lo
  {
    if lo < hi {
      PrefixedMembership(lo, rest, t);
      LayerMembership(lo + 1, hi, rest, t);
    }
  }

  /** A tuple is produced exactly when it is within the sizes. */
  lemma {:induction false} ProductMembership(sizes: seq<nat>, t: seq<int>)
    ensures t in Product(sizes) <==> InRange(t, sizes)
  {
    if sizes == [] {
      assert t in Product(sizes) <==> t == [];
    } else {
      LayerMembership(0, sizes[0], Product(sizes[1..]), t);
      if |t| > 0 {
        ProductMembership(sizes[1..], t[1..]);
        assert InRange(t, sizes) <==> 0 <= t[0] < sizes[0] && InRange(t[1..], sizes[1..]) by {
          if InRange(t[1..], sizes[1..]) && 0 <= t[0] < sizes[0] {
            forall j | 0 <= j < |t| ensures 0 <= t[j] < sizes[j] {
              if j > 0 {
                assert t[j] == t[1..][j - 1];
              }
            }
          }
        }
      }
    }
  }

  lemma DistinctConcat<T>(a: seq<T>, b: seq<T>)
    requires Distinct(a) && Distinct(b)
    requires forall x :: x in a ==> x !in b
    ensures Distinct(a + b)
  {
    var s := a + b;
    forall i, j | 0 <= i < j < |s| ensures s[i] != s[j] {
      if i < |a| && |a| <= j {
        assert s[i] in a && s[j] in b;
      }
    }
  }

  lemma PrefixedDistinct(i: int, rest: seq<seq<int>>)
    requires Distinct(rest)
    ensures Distinct(Prefixed(i, rest))
  {
    var p := Prefixed(i, rest);
    forall a, b | 0 <= a < b < |p| ensures p[a] != p[b] {
      assert p[a][1..] == rest[a] && p[b][1..] == rest[b];
    }
  }

  lemma {:induction false} LayerDistinct(lo: nat, hi: nat, rest: seq<seq<int>>)
    requires Distinct(rest)
    ensures Distinct(Layer(lo, hi, rest))
    decreases hi - lo
  {
    if lo < hi {
      PrefixedDistinct(lo, rest);
      LayerDistinct(lo + 1, hi, rest);
      forall t | t in Prefixed(lo, rest) ensures t !in Layer(lo + 1, hi, rest) {
        PrefixedMembership(lo, rest, t);
        LayerMembership(lo + 1, hi, rest, t);
      }
      DistinctConcat(Prefixed(lo, rest), Layer(lo + 1, hi, rest));
    }
  }

  /** No tuple is produced twice. */
  lemma {:induction false} ProductDistinct(sizes: seq<nat>)
    ensures Distinct(Product(sizes))
  {
    if sizes != [] {
      ProductDistinct(sizes[1..]);
      LayerDistinct(0, sizes[0], Product(sizes[1..]));
    }
  }

  /** A sequence without repeats has as many distinct elements as positions. */
  lemma {:induction false} DistinctCardinality<T>(s: seq<T>)
    requires Distinct(s)
    ensures |set x | x in s| == |s|
  {
    if s != [] {
      var rest := s[1..];
      assert Distinct(rest);
      DistinctCardinality(rest);
      assert (set x | x in s) == {s[0]} + (set x | x in rest);
      assert s[0] !in rest;
    }
  }
}
