/**
 * Names of the histograms of a binned family.
 *
 * A family `f` binned in variables `v1, ..., vn` owns one histogram per
 * tuple of bin indices `(i1, ..., in)`, named
 *   "h__" + f + "__" + v1 + str(i1) + ... + "__" + vn + str(in)
 * where `str` is Python's decimal rendering of an integer. The same
 * encoding is used when the histograms are created and when a fill
 * computes where a value goes, so it must be injective in the index tuple.
 */
module HistNames {

  predicate IsDigit(c: char) {
    '0' <= c <= '9'
  }

  predicate AllDigits(s: string) {
    forall k :: 0 <= k < |s| ==> IsDigit(s[k])
  }

  function DigitChar(d: nat): (c: char)
    requires d < 10
    ensures IsDigit(c)
  {
    (d + '0' as int) as char
  }

  function DigitValue(c: char): nat
    requires IsDigit(c)
  {
    c as int - '0' as int
  }

  /**
   * Python's `str(n)` for a non-negative integer: decimal, no leading zeros
   * (NatToStringNoLeadingZero).
   */
  function NatToString(n: nat): (s: string)
    ensures |s| > 0 && AllDigits(s)
    decreases n
  {
    if n < 10 then [DigitChar(n)] else NatToString(n / 10) + [DigitChar(n % 10)]
  }

  /** Reads a string of decimal digits back as a number (the inverse of NatToString). */
  function ParseNat(s: string): nat
    requires AllDigits(s)
  {
    if s == [] then 0 else ParseNat(s[..|s| - 1]) * 10 + DigitValue(s[|s| - 1])
  }

  lemma {:induction false} ParseNatToString(n: nat)
    ensures ParseNat(NatToString(n)) == n
    decreases n
  {
    var s := NatToString(n);
    if n < 10 {
      assert s[..|s| - 1] == [];
    } else {
      assert s[..|s| - 1] == NatToString(n / 10);
      ParseNatToString(n / 10);
    }
  }

  /** The rendering has no leading zero: only 0 itself starts with '0'. */
  lemma {:induction false} NatToStringNoLeadingZero(n: nat)
    ensures NatToString(n)[0] == '0' <==> n == 0
    decreases n
  {
    if n >= 10 {
      NatToStringNoLeadingZero(n / 10);
      assert NatToString(n)[0] == NatToString(n / 10)[0];
    }
  }

  lemma NatToStringInjective(m: nat, n: nat)
    requires NatToString(m) == NatToString(n)
    ensures m == n
  {
    ParseNatToString(m);
    ParseNatToString(n);
  }

  /** Python's `str(i)` for any integer: a minus sign, then the digits of |i|. */
  function IntToString(i: int): (s: string)
    ensures |s| > 0 && '_' !in s
    ensures s[0] == '-' <==> i < 0
  {
    var digits := NatToString(if i < 0 then -i else i);
    assert '_' !in digits by {
      forall k | 0 <= k < |digits| ensures digits[k] != '_' {
        assert IsDigit(digits[k]);
      }
    }
    if i < 0 then "-" + digits else digits
  }

  lemma IntToStringInjective(i: int, j: int)
    requires IntToString(i) == IntToString(j)
    ensures i == j
  {
    if i < 0 && j < 0 {
      var s, t := NatToString(-i), NatToString(-j);
      assert s == ("-" + s)[1..] && t == ("-" + t)[1..];
      NatToStringInjective(-i, -j);
    } else if 0 <= i && 0 <= j {
      NatToStringInjective(i, j);
    }
  }

  /** One binning variable's part of a name: `f'__{var_name}{var_bin}'`. */
  function Tag(variable: string, index: int): string {
    "__" + variable + IntToString(index)
  }

  /**
   * The tags of `vars` zipped with `indices`, in order; like Python's `zip`,
   * it stops at the shorter of the two.
   */
  function Suffix(vars: seq<string>, indices: seq<int>): (s: string)
    ensures s == [] <==> vars == [] || indices == []
  {
    TagsFrom(vars, indices, 0)
  }

  /** The tags of the pairs at positions `k` and later. */
  function TagsFrom(vars: seq<string>, indices: seq<int>, k: nat): (s: string)
    ensures s == [] || s[0] == '_'
    decreases |vars| - k
  {
    if k >= |vars| || k >= |indices| then ""
    else Tag(vars[k], indices[k]) + TagsFrom(vars, indices, k + 1)
  }

  /** The histogram name `f'h__{name}{bin_tag}'`. */
  function HistName(name: string, tag: string): string {
    "h__" + name + tag
  }

  lemma HistNameAppend(name: string, s: string, t: string)
    ensures HistName(name, s + t) == HistName(name, s) + t
  {
  }

  /** The name of the histogram of family `family` at bin-index tuple `indices`. */
  function BinnedName(family: string, vars: seq<string>, indices: seq<int>): string {
    HistName(family, Suffix(vars, indices))
  }

  /** Appending one more index adds exactly that variable's tag at the end. */
  lemma {:induction false} TagsFromAppend(vars: seq<string>, indices: seq<int>, i: int, k: nat)
    requires k <= |indices| < |vars|
    ensures TagsFrom(vars, indices + [i], k) == TagsFrom(vars, indices, k) + Tag(vars[|indices|], i)
    decreases |indices| - k
  {
    var longer := indices + [i];
    if k < |indices| {
      TagsFromAppend(vars, indices, i, k + 1);
      assert longer[k] == indices[k];
      var head := Tag(vars[k], indices[k]);
      assert head + (TagsFrom(vars, indices, k + 1) + Tag(vars[|indices|], i))
          == (head + TagsFrom(vars, indices, k + 1)) + Tag(vars[|indices|], i);
    } else {
      assert TagsFrom(vars, longer, k + 1) == "";
    }
  }

  lemma SuffixAppend(vars: seq<string>, indices: seq<int>, i: int)
    requires |indices| < |vars|
    ensures Suffix(vars, indices + [i]) == Suffix(vars, indices) + Tag(vars[|indices|], i)
  {
    TagsFromAppend(vars, indices, i, 0);
  }

  /** Index tuples that agree on the variables' positions give the same tags. */
  lemma {:induction false} TagsFromAgree(vars: seq<string>, a: seq<int>, b: seq<int>, k: nat)
    requires |vars| <= |a| && |vars| <= |b|
    requires forall j :: 0 <= j < |vars| ==> a[j] == b[j]
    ensures TagsFrom(vars, a, k) == TagsFrom(vars, b, k)
    decreases |vars| - k
  {
    if k < |vars| {
      TagsFromAgree(vars, a, b, k + 1);
      assert a[k] == b[k];
    }
  }

  /** Indices past the last variable play no part, as in `zip`. */
  lemma SuffixIgnoresExtra(vars: seq<string>, indices: seq<int>)
    requires |vars| <= |indices|
    ensures Suffix(vars, indices[..|vars|]) == Suffix(vars, indices)
  {
    TagsFromAgree(vars, indices[..|vars|], indices, 0);
  }

  /**
   * A string without `_` followed by a rest that is empty or starts with
   * `_` splits in one way only.
   */
  lemma SplitAtSeparator(a: string, r1: string, b: string, r2: string)
    requires '_' !in a && '_' !in b
    requires r1 == [] || r1[0] == '_'
    requires r2 == [] || r2[0] == '_'
    requires a + r1 == b + r2
    ensures a == b && r1 == r2
  {
    var s := a + r1;
    assert |a| < |s| ==> s[|a|] == '_';
    assert |b| < |s| ==> s[|b|] == '_';
    assert forall k :: 0 <= k < |a| ==> s[k] == a[k] && s[k] != '_';
    assert forall k :: 0 <= k < |b| ==> s[k] == b[k] && s[k] != '_';
    assert |a| == |b|;
    assert a == s[..|a|] && b == s[..|b|];
  }

  lemma StripPrefix(p: string, x: string, y: string)
    requires p + x == p + y
    ensures x == y
  {
    assert x == (p + x)[|p|..];
    assert y == (p + y)[|p|..];
  }

  /** Position `k`'s tag is its variable's name, its index, then the later tags. */
  lemma TagsFromUnfold(vars: seq<string>, indices: seq<int>, k: nat)
    requires k < |vars| && k < |indices|
    ensures TagsFrom(vars, indices, k)
      == ("__" + vars[k]) + (IntToString(indices[k]) + TagsFrom(vars, indices, k + 1))
  {
  }

  /** Tuples of the variables' length with equal tags from position `k` on agree from `k` on. */
  lemma {:induction false} TagsFromInjective(vars: seq<string>, i1: seq<int>, i2: seq<int>, k: nat)
    requires |i1| == |vars| && |i2| == |vars| && k <= |vars|
    requires TagsFrom(vars, i1, k) == TagsFrom(vars, i2, k)
    ensures forall j :: k <= j < |vars| ==> i1[j] == i2[j]
    decreases |vars| - k
  {
    if k < |vars| {
      var a, b := IntToString(i1[k]), IntToString(i2[k]);
      var r1, r2 := TagsFrom(vars, i1, k + 1), TagsFrom(vars, i2, k + 1);
      TagsFromUnfold(vars, i1, k);
      TagsFromUnfold(vars, i2, k);
      StripPrefix("__" + vars[k], a + r1, b + r2);
      SplitAtSeparator(a, r1, b, r2);
      IntToStringInjective(i1[k], i2[k]);
      TagsFromInjective(vars, i1, i2, k + 1);
    }
  }

  /** Distinct index tuples of the variables' length give distinct tags. */
  lemma SuffixInjective(vars: seq<string>, i1: seq<int>, i2: seq<int>)
    requires |i1| == |vars| && |i2| == |vars|
    requires Suffix(vars, i1) == Suffix(vars, i2)
    ensures i1 == i2
  {
    TagsFromInjective(vars, i1, i2, 0);
  }

  /** Within one family, distinct index tuples give distinct histogram names. */
  lemma BinnedNameInjective(family: string, vars: seq<string>, i1: seq<int>, i2: seq<int>)
    requires |i1| == |vars| && |i2| == |vars|
    requires BinnedName(family, vars, i1) == BinnedName(family, vars, i2)
    ensures i1 == i2
  {
    StripPrefix("h__" + family, Suffix(vars, i1), Suffix(vars, i2));
    SuffixInjective(vars, i1, i2);
  }

  /** The worked example: family `family`, variables pt and eta, indices (2, 0). */
  lemma NameExample()
    ensures BinnedName("family", ["pt", "eta"], [2, 0]) == "h__family__pt2__eta0"
  {
    var vars, indices := ["pt", "eta"], [2, 0];
    assert IntToString(2) == "2" && IntToString(0) == "0";
    assert Tag("pt", 2) == "__pt2" && Tag("eta", 0) == "__eta0";
    assert TagsFrom(vars, indices, 2) == "";
    assert TagsFrom(vars, indices, 1) == "__eta0";
    assert TagsFrom(vars, indices, 0) == "__pt2__eta0";
  }
}
