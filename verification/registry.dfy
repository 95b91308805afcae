/**
 * The histogram registry `HistManager` of datils/histmanager.py.
 *
 * It keeps the histograms by name, the registered bin edges by variable,
 * the binning variables of each binned family and a global weight.
 * Each histogram of the external plotting library is modelled as an
 * opaque value: how it was booked (its shape) and the log of the fills
 * it received, in order, each with the weight it was given.
 *
 * A Python `KeyError` becomes a `KeyError(key)` result; the state a
 * method leaves behind when it raises is stated as well.
 */
module HistRegistry {
  import opened HistNames
  import opened BinSearch
  import opened IndexProduct

  /** How a histogram was booked: TH1F, TH2F or TProfile, with their axes. */
  datatype Shape =
    | H1(nxbins: int, xmin: real, xmax: real)
    | H2(nxbins: int, xmin: real, xmax: real, nybins: int, ymin: real, ymax: real)
    | Profile(nxbins: int, xmin: real, xmax: real, ymin: real, ymax: real)

  /** One call of `Fill`: `Fill(x, w)` or `Fill(x, y, w)`. */
  datatype Entry =
    | Entry1(x: real, w: real)
    | Entry2(x: real, y: real, w: real)

  datatype Hist = Hist(shape: Shape, fills: seq<Entry>)

  datatype Option<T> = None | Some(value: T)

  /** The result of an operation that may raise `KeyError`. */
  datatype Result<T> = Ok(value: T) | KeyError(key: string)

  /**
   * What `fill_binned_hist` fills: one family with one value, or (when
   * `name` is a list) several families paired with several values.
   */
  datatype FillTarget =
    | Single(name: string, value: real)
    | Several(names: seq<string>, values: seq<real>)

  function Logged(h: Hist, e: Entry): Hist {
    h.(fills := h.fills + [e])
  }

  /** `weight` if it is not None, else the stored global weight. */
  function EffectiveWeight(weight: Option<real>, stored: real): (w: real)
    ensures weight.Some? ==> w == weight.value
    ensures weight.None? ==> w == stored
  {
    match weight
    case Some(w) => w
    case None => stored
  }

  function Min(a: int, b: int): int {
    if a <= b then a else b
  }

  /** The variables zipped with the values all have registered bin edges. */
  predicate Registered(bins: map<string, seq<real>>, vars: seq<string>, values: seq<real>) {
    forall k :: 0 <= k < |vars| && k < |values| ==> vars[k] in bins
  }

  predicate AllRegistered(bins: map<string, seq<real>>, vars: seq<string>) {
    forall k :: 0 <= k < |vars| ==> vars[k] in bins
  }

  /** `vars[j]` is the first of the first `n` variables with no bin edges. */
  predicate FirstUnregistered(bins: map<string, seq<real>>, vars: seq<string>, n: int, key: string) {
    exists j :: 0 <= j < n && j < |vars| && vars[j] == key && key !in bins
      && forall i :: 0 <= i < j ==> vars[i] in bins
  }

  /** `len(self.bins[var])` for each binning variable: the range of its indices. */
  function Sizes(bins: map<string, seq<real>>, vars: seq<string>): (sizes: seq<nat>)
    requires AllRegistered(bins, vars)
    ensures |sizes| == |vars|
  {
    seq(|vars|, k requires 0 <= k < |vars| => |bins[vars[k]]|)
  }

  /** The bin index of each value, zipped with its variable. */
  function BinIndices(bins: map<string, seq<real>>, vars: seq<string>, values: seq<real>): (ix: seq<int>)
    requires Registered(bins, vars, values)
    ensures |ix| == Min(|vars|, |values|)
  {
    seq(Min(|vars|, |values|), k requires 0 <= k < Min(|vars|, |values|) => BinIndex(bins[vars[k]], values[k]))
  }

  /** The names of a family's histograms, one per index tuple, in creation order. */
  function FamilyNames(family: string, vars: seq<string>, sizes: seq<nat>): (names: seq<string>)
    ensures |names| == |Product(sizes)|
  {
    var ts := Product(sizes);
    seq(|ts|, k requires 0 <= k < |ts| => BinnedName(family, vars, ts[k]))
  }

  /** `data` with each of `names` (re)booked as `h`. */
  function Booked(data: map<string, Hist>, names: seq<string>, h: Hist): map<string, Hist> {
    data + map n | n in names :: h
  }

  lemma BookedGrows(data: map<string, Hist>, names: seq<string>, c: nat, h: Hist)
    requires c < |names|
    ensures Booked(data, names[..c + 1], h) == Booked(data, names[..c], h)[names[c] := h]
  {
  }

  lemma NameGrows(family: string, vars: seq<string>, comb: seq<int>, j: nat)
    requires j < |vars| && j < |comb|
    ensures HistName(family, Suffix(vars, comb[..j + 1])) == HistName(family, Suffix(vars, comb[..j])) + Tag(vars[j], comb[j])
  {
    var prefix := comb[..j];
    assert comb[..j + 1] == prefix + [comb[j]];
    SuffixAppend(vars, prefix, comb[j]);
    HistNameAppend(family, Suffix(vars, prefix), Tag(vars[j], comb[j]));
  }

  /**
   * Builds `h__<family>` and appends `__<var><idx>` for each pair of
   * `zip(vars, comb)`, as `add_binned_hist` does for each index tuple.
   */
  method FamilyHistName(family: string, vars: seq<string>, comb: seq<int>) returns (hname: string)
    ensures hname == BinnedName(family, vars, comb)
  {
    hname := "h__" + family;
    var j := 0;
    while j < |vars| && j < |comb|
      invariant 0 <= j <= |vars| && j <= |comb|
      invariant hname == HistName(family, Suffix(vars, comb[..j]))
    {
      NameGrows(family, vars, comb, j);
      hname := hname + Tag(vars[j], comb[j]);
      j := j + 1;
    }
    if j == |comb| {
      assert comb[..j] == comb;
    } else {
      SuffixIgnoresExtra(vars, comb);
    }
  }

  /** The histogram names a binned fill targets, all sharing one bin tag. */
  function TargetNames(target: FillTarget, tag: string): seq<string> {
    match target
    case Single(n, _) => [HistName(n, tag)]
    case Several(ns, _) => seq(|ns|, i requires 0 <= i < |ns| => HistName(ns[i], tag))
  }

  function TargetValues(target: FillTarget): seq<real> {
    match target
    case Single(_, v) => [v]
    case Several(_, vs) => vs
  }

  /** The registry after a sequence of fills, and whether one raised. */
  datatype Applied = Applied(data: map<string, Hist>, outcome: Result<()>)

  /**
   * `fill_hist(names[i], values[i], weight)` for the pairs of `zip(names,
   * values)` in order, stopping at the first name that is not booked.
   */
  function FillEach(data: map<string, Hist>, names: seq<string>, values: seq<real>, w: real): Applied
    decreases |names|
  {
    if |names| == 0 || |values| == 0 then Applied(data, Ok(()))
    else if names[0] !in data then Applied(data, KeyError(names[0]))
    else FillEach(data[names[0] := Logged(data[names[0]], Entry1(values[0], w))], names[1..], values[1..], w)
  }

  /** The entries the pairs of `zip(names, values)` send to histogram `key`, in order. */
  function EntriesFor(key: string, names: seq<string>, values: seq<real>, w: real): seq<Entry>
    decreases |names|
  {
    if |names| == 0 || |values| == 0 then []
    else (if names[0] == key then [Entry1(values[0], w)] else []) + EntriesFor(key, names[1..], values[1..], w)
  }

  // ---------------------------------------------------------------------
  // Binned families: creation and filling agree

  /** A family has exactly one histogram name per index tuple. */
  lemma FamilyNamesDistinct(family: string, vars: seq<string>, sizes: seq<nat>)
    requires |sizes| == |vars|
    ensures Distinct(FamilyNames(family, vars, sizes))
  {
    var ts := Product(sizes);
    var names := FamilyNames(family, vars, sizes);
    ProductDistinct(sizes);
    forall i, j | 0 <= i < j < |names| ensures names[i] != names[j] {
      ProductMembership(sizes, ts[i]);
      ProductMembership(sizes, ts[j]);
      if names[i] == names[j] {
        BinnedNameInjective(family, vars, ts[i], ts[j]);
      }
    }
  }

  /** A family books as many histograms as the product of its edge-list lengths. */
  lemma FamilySize(family: string, vars: seq<string>, sizes: seq<nat>)
    requires |sizes| == |vars|
    ensures |set n | n in FamilyNames(family, vars, sizes)| == Prod(sizes)
  {
    FamilyNamesDistinct(family, vars, sizes);
    DistinctCardinality(FamilyNames(family, vars, sizes));
    ProductLength(sizes);
  }

  /** The names booked for a family are exactly the names of its in-range tuples. */
  lemma FamilyMembership(family: string, vars: seq<string>, sizes: seq<nat>, name: string)
    ensures name in FamilyNames(family, vars, sizes) <==>
      exists t :: InRange(t, sizes) && name == BinnedName(family, vars, t)
  {
    var ts := Product(sizes);
    var names := FamilyNames(family, vars, sizes);
    if name in names {
      var k :| 0 <= k < |names| && names[k] == name;
      ProductMembership(sizes, ts[k]);
    }
    if exists t :: InRange(t, sizes) && name == BinnedName(family, vars, t) {
      var t :| InRange(t, sizes) && name == BinnedName(family, vars, t);
      ProductMembership(sizes, t);
      var k :| 0 <= k < |ts| && ts[k] == t;
      assert names[k] == name;
    }
  }

  /**
   * A fill whose every value lies above its variable's first edge targets a
   * histogram that creating the family booked.
   */
  lemma FillLandsOnCreated(family: string, vars: seq<string>, bins: map<string, seq<real>>, values: seq<real>)
    requires |values| >= |vars|
    requires forall k :: 0 <= k < |vars| ==>
      vars[k] in bins && |bins[vars[k]]| > 0 && bins[vars[k]][0] < values[k]
    ensures BinnedName(family, vars, BinIndices(bins, vars, values)) in FamilyNames(family, vars, Sizes(bins, vars))
  {
    var ix := BinIndices(bins, vars, values);
    var sizes := Sizes(bins, vars);
    forall k | 0 <= k < |ix| ensures 0 <= ix[k] < sizes[k] {
      assert CountBelow(bins[vars[k]], values[k]) >= 1;
    }
    FamilyMembership(family, vars, sizes, BinnedName(family, vars, ix));
  }

  /** A family name is booked only if every index of its tuple is a real bin. */
  lemma CreatedIndicesInRange(family: string, vars: seq<string>, sizes: seq<nat>, ix: seq<int>)
    requires |sizes| == |vars| && |ix| == |vars|
    ensures BinnedName(family, vars, ix) in FamilyNames(family, vars, sizes) ==> InRange(ix, sizes)
  {
    var name := BinnedName(family, vars, ix);
    FamilyMembership(family, vars, sizes, name);
    if name in FamilyNames(family, vars, sizes) {
      var t :| InRange(t, sizes) && name == BinnedName(family, vars, t);
      BinnedNameInjective(family, vars, t, ix);
    }
  }

  /**
   * A value at or below its variable's first edge (index -1) sends the fill
   * to a name that creating the family never booked.
   */
  lemma UnderflowMisses(family: string, vars: seq<string>, bins: map<string, seq<real>>, values: seq<real>, k: nat)
    requires |values| >= |vars| && AllRegistered(bins, vars)
    requires k < |vars| && Sorted(bins[vars[k]])
    requires |bins[vars[k]]| == 0 || values[k] <= bins[vars[k]][0]
    ensures BinnedName(family, vars, BinIndices(bins, vars, values)) !in FamilyNames(family, vars, Sizes(bins, vars))
  {
    var ix := BinIndices(bins, vars, values);
    BinIndexNonNegative(bins[vars[k]], values[k]);
    assert ix[k] == -1;
    CreatedIndicesInRange(family, vars, Sizes(bins, vars), ix);
  }

  // ---------------------------------------------------------------------
  // Fills

  /** Fills never add or remove histograms, and never change how one was booked. */
  lemma {:induction false} FillEachKeys(data: map<string, Hist>, names: seq<string>, values: seq<real>, w: real)
    ensures FillEach(data, names, values, w).data.Keys == data.Keys
    ensures forall key :: key in data ==> FillEach(data, names, values, w).data[key].shape == data[key].shape
    decreases |names|
  {
    if |names| > 0 && |values| > 0 && names[0] in data {
      FillEachKeys(data[names[0] := Logged(data[names[0]], Entry1(values[0], w))], names[1..], values[1..], w);
    }
  }

  /**
   * The fills succeed exactly when every paired name is booked; otherwise
   * the first missing name is the error.
   */
  lemma {:induction false} FillEachOutcome(data: map<string, Hist>, names: seq<string>, values: seq<real>, w: real)
    ensures FillEach(data, names, values, w).outcome.Ok? <==>
      forall j :: 0 <= j < |names| && j < |values| ==> names[j] in data
    ensures FillEach(data, names, values, w).outcome.KeyError? ==>
      exists j :: 0 <= j < |names| && j < |values| && names[j] !in data
        && FillEach(data, names, values, w).outcome.key == names[j]
        && forall i :: 0 <= i < j ==> names[i] in data
    decreases |names|
  {
    if |names| > 0 && |values| > 0 && names[0] in data {
      var data' := data[names[0] := Logged(data[names[0]], Entry1(values[0], w))];
      FillEachOutcome(data', names[1..], values[1..], w);
      assert data'.Keys == data.Keys;
      var r := FillEach(data, names, values, w);
      if r.outcome.KeyError? {
        var j :| 0 <= j < |names[1..]| && j < |values[1..]| && names[1..][j] !in data'
          && r.outcome.key == names[1..][j] && forall i :: 0 <= i < j ==> names[1..][i] in data';
        assert names[j + 1] !in data && r.outcome.key == names[j + 1];
        assert forall i :: 0 <= i < j + 1 ==> names[i] in data by {
          forall i | 0 <= i < j + 1 ensures names[i] in data {
            if i > 0 {
              assert names[i] == names[1..][i - 1];
            }
          }
        }
      }
    }
  }

  /**
   * When the fills succeed, each histogram's log grows by exactly the
   * entries of the pairs that name it, in order; all others are unchanged.
   */
  lemma {:induction false} FillEachLog(data: map<string, Hist>, names: seq<string>, values: seq<real>, w: real, key: string)
    requires key in data
    requires FillEach(data, names, values, w).outcome.Ok?
    ensures key in FillEach(data, names, values, w).data
    ensures FillEach(data, names, values, w).data[key] ==
      Hist(data[key].shape, data[key].fills + EntriesFor(key, names, values, w))
    decreases |names|
  {
    if |names| > 0 && |values| > 0 {
      var data' := data[names[0] := Logged(data[names[0]], Entry1(values[0], w))];
      FillEachLog(data', names[1..], values[1..], w, key);
      var here := if names[0] == key then [Entry1(values[0], w)] else [];
      assert data'[key].fills == data[key].fills + here;
      assert EntriesFor(key, names, values, w) == here + EntriesFor(key, names[1..], values[1..], w);
    }
  }

  // ---------------------------------------------------------------------
  // The registry

  class HistManager {
    /** `self.data`: histogram name to histogram. */
    var data: map<string, Hist>
    /** `self.weight`: the global weight of fills that give none. */
    var weight: real
    /** `self.bins`: variable name to its bin edges. */
    var bins: map<string, seq<real>>
    /** `self.binned_histograms`: family name to its binning variables. */
    var binnedHistograms: map<string, seq<string>>

    /** `HistManager()` with no file to load. */
    constructor ()
      ensures data == map[] && weight == 1.0
      ensures bins == map[] && binnedHistograms == map[]
    {
      data := map[];
      weight := 1.0;
      bins := map[];
      binnedHistograms := map[];
    }

    method SetWeight(w: real)
      modifies this
      ensures weight == w
      ensures data == old(data) && bins == old(bins) && binnedHistograms == old(binnedHistograms)
    {
      weight := w;
    }

    /** `set_bins` keeps the edges already registered for a variable. */
    method SetBins(name: string, edges: seq<real>)
      modifies this
      ensures name in old(bins) ==> bins == old(bins)
      ensures name !in old(bins) ==> bins == old(bins)[name := edges]
      ensures data == old(data) && weight == old(weight) && binnedHistograms == old(binnedHistograms)
    {
      if name !in bins {
        bins := bins[name := edges];
      }
    }

    /** Books (or re-books, discarding its fills) a 1D histogram. */
    method AddHist(name: string, nxbins: int, xmin: real, xmax: real)
      modifies this
      ensures data == old(data)[name := Hist(H1(nxbins, xmin, xmax), [])]
      ensures weight == old(weight) && bins == old(bins) && binnedHistograms == old(binnedHistograms)
    {
      data := data[name := Hist(H1(nxbins, xmin, xmax), [])];
    }

    method AddHist2D(name: string, xbins: int, xmin: real, xmax: real, ybins: int, ymin: real, ymax: real)
      modifies this
      ensures data == old(data)[name := Hist(H2(xbins, xmin, xmax, ybins, ymin, ymax), [])]
      ensures weight == old(weight) && bins == old(bins) && binnedHistograms == old(binnedHistograms)
    {
      data := data[name := Hist(H2(xbins, xmin, xmax, ybins, ymin, ymax), [])];
    }

    method AddHistProfile(name: string, xbins: int, xmin: real, xmax: real, ymin: real, ymax: real)
      modifies this
      ensures data == old(data)[name := Hist(Profile(xbins, xmin, xmax, ymin, ymax), [])]
      ensures weight == old(weight) && bins == old(bins) && binnedHistograms == old(binnedHistograms)
    {
      data := data[name := Hist(Profile(xbins, xmin, xmax, ymin, ymax), [])];
    }

    /**
     * Records the family's binning variables, then books one empty 1D
     * histogram per tuple of bin indices. Every variable's edges are looked
     * up before any histogram is booked.
     */
    method AddBinnedHist(name: string, vars: seq<string>, nxbins: int, xmin: real, xmax: real)
      returns (r: Result<()>)
      modifies this
      ensures binnedHistograms == old(binnedHistograms)[name := vars]
      ensures bins == old(bins) && weight == old(weight)
      ensures r.Ok? <==> AllRegistered(bins, vars)
      ensures r.KeyError? ==> FirstUnregistered(bins, vars, |vars|, r.key) && data == old(data)
      ensures r.Ok? ==>
        data == Booked(old(data), FamilyNames(name, vars, Sizes(bins, vars)), Hist(H1(nxbins, xmin, xmax), []))
    {
      binnedHistograms := binnedHistograms[name := vars];
      var counted := EdgeCounts(vars);
      if counted.KeyError? {
        return KeyError(counted.key);
      }
      var sizes := counted.value;

      var empty := Hist(H1(nxbins, xmin, xmax), []);
      ghost var names := FamilyNames(name, vars, sizes);
      var combos := Product(sizes);
      var c := 0;
      while c < |combos|
        invariant 0 <= c <= |combos|
        invariant data == Booked(old(data), names[..c], empty)
        invariant bins == old(bins) && weight == old(weight)
        invariant binnedHistograms == old(binnedHistograms)[name := vars]
      {
        var hname := FamilyHistName(name, vars, combos[c]);
        AddHist(hname, nxbins, xmin, xmax);
        BookedGrows(old(data), names, c, empty);
        c := c + 1;
      }
      assert names[..c] == names;
      r := Ok(());
    }

    /**
     * `len(self.bins[var])` for each binning variable in order, or the
     * first variable that has no edges.
     */
    method EdgeCounts(vars: seq<string>) returns (r: Result<seq<nat>>)
      ensures r.Ok? <==> AllRegistered(bins, vars)
      ensures r.Ok? ==> r.value == Sizes(bins, vars)
      ensures r.KeyError? ==> FirstUnregistered(bins, vars, |vars|, r.key)
    {
      var sizes: seq<nat> := [];
      var k := 0;
      while k < |vars|
        invariant 0 <= k <= |vars|
        invariant forall i :: 0 <= i < k ==> vars[i] in bins
        invariant |sizes| == k
        invariant forall i :: 0 <= i < k ==> sizes[i] == |bins[vars[i]]|
      {
        if vars[k] !in bins {
          return KeyError(vars[k]);
        }
        sizes := sizes + [|bins[vars[k]]|];
        k := k + 1;
      }
      r := Ok(sizes);
    }

    /**
     * The tag `'__' + var + str(searchsorted(edges, value) - 1)` for each
     * pair of `zip(vars, values)`, or the first variable without edges.
     */
    method BinTag(vars: seq<string>, values: seq<real>) returns (r: Result<string>)
      ensures r.Ok? <==> Registered(bins, vars, values)
      ensures r.Ok? ==> r.value == Suffix(vars, BinIndices(bins, vars, values))
      ensures r.KeyError? ==> FirstUnregistered(bins, vars, |values|, r.key)
    {
      var tag := "";
      ghost var ix: seq<int> := [];
      var k := 0;
      while k < |vars| && k < |values|
        invariant 0 <= k <= |vars| && k <= |values|
        invariant forall i :: 0 <= i < k ==> vars[i] in bins
        invariant |ix| == k
        invariant forall i :: 0 <= i < k ==> ix[i] == BinIndex(bins[vars[i]], values[i])
        invariant tag == Suffix(vars, ix)
      {
        if vars[k] !in bins {
          return KeyError(vars[k]);
        }
        var index := BinIndex(bins[vars[k]], values[k]);
        SuffixAppend(vars, ix, index);
        tag := tag + Tag(vars[k], index);
        ix := ix + [index];
        k := k + 1;
      }
      assert ix == BinIndices(bins, vars, values);
      r := Ok(tag);
    }

    /**
     * Computes the bin tag from `vars` and `values`, then fills
     * `h__<name><tag>` with the value (or, for a list of names, each
     * `h__<n><tag>` with its paired value), with `weight` or the global weight.
     */
    method FillBinnedHist(target: FillTarget, vars: seq<string>, values: seq<real>, weight: Option<real>)
      returns (r: Result<()>)
      modifies this
      ensures bins == old(bins) && this.weight == old(this.weight)
      ensures binnedHistograms == old(binnedHistograms)
      ensures !Registered(bins, vars, values) ==>
        data == old(data) && r.KeyError? && FirstUnregistered(bins, vars, |values|, r.key)
      ensures Registered(bins, vars, values) ==>
        FillEach(old(data), TargetNames(target, Suffix(vars, BinIndices(bins, vars, values))),
                 TargetValues(target), EffectiveWeight(weight, old(this.weight)))
        == Applied(data, r)
    {
      var tagged := BinTag(vars, values);
      if tagged.KeyError? {
        return KeyError(tagged.key);
      }
      var tag := tagged.value;
      ghost var w := EffectiveWeight(weight, this.weight);
      match target {
        case Single(n, v) =>
          r := FillHist(HistName(n, tag), v, weight);
        case Several(ns, vs) =>
          ghost var hnames := TargetNames(target, tag);
          var i := 0;
          while i < |ns| && i < |vs|
            invariant 0 <= i <= |ns| && i <= |vs|
            invariant bins == old(bins) && this.weight == old(this.weight)
            invariant binnedHistograms == old(binnedHistograms)
            invariant FillEach(data, hnames[i..], vs[i..], w) == FillEach(old(data), hnames, vs, w)
          {
            var hname := HistName(ns[i], tag);
            assert hnames[i..][0] == hname;
            assert hnames[i..][1..] == hnames[i + 1..] && vs[i..][1..] == vs[i + 1..];
            var outcome := FillHist(hname, vs[i], weight);
            if outcome.KeyError? {
              return outcome;
            }
            i := i + 1;
          }
          r := Ok(());
      }
    }

    method FillHist(name: string, value: real, weight: Option<real>) returns (r: Result<()>)
      modifies this
      ensures r == if name in old(data) then Ok(()) else KeyError(name)
      ensures data == if name in old(data)
        then old(data)[name := Logged(old(data)[name], Entry1(value, EffectiveWeight(weight, old(this.weight))))]
        else old(data)
      ensures this.weight == old(this.weight) && bins == old(bins) && binnedHistograms == old(binnedHistograms)
    {
      if name !in data {
        return KeyError(name);
      }
      var w := if weight.Some? then weight.value else this.weight;
      data := data[name := Logged(data[name], Entry1(value, w))];
      r := Ok(());
    }

    method FillHist2D(name: string, x: real, y: real, weight: Option<real>) returns (r: Result<()>)
      modifies this
      ensures r == if name in old(data) then Ok(()) else KeyError(name)
      ensures data == if name in old(data)
        then old(data)[name := Logged(old(data)[name], Entry2(x, y, EffectiveWeight(weight, old(this.weight))))]
        else old(data)
      ensures this.weight == old(this.weight) && bins == old(bins) && binnedHistograms == old(binnedHistograms)
    {
      if name !in data {
        return KeyError(name);
      }
      var w := if weight.Some? then weight.value else this.weight;
      data := data[name := Logged(data[name], Entry2(x, y, w))];
      r := Ok(());
    }

    method FillProfile(name: string, x: real, y: real, weight: Option<real>) returns (r: Result<()>)
      modifies this
      ensures r == if name in old(data) then Ok(()) else KeyError(name)
      ensures data == if name in old(data)
        then old(data)[name := Logged(old(data)[name], Entry2(x, y, EffectiveWeight(weight, old(this.weight))))]
        else old(data)
      ensures this.weight == old(this.weight) && bins == old(bins) && binnedHistograms == old(binnedHistograms)
    {
      if name !in data {
        return KeyError(name);
      }
      var w := if weight.Some? then weight.value else this.weight;
      data := data[name := Logged(data[name], Entry2(x, y, w))];
      r := Ok(());
    }

    /** `manager[key]`. */
    method GetItem(key: string) returns (r: Result<Hist>)
      ensures key in data ==> r == Ok(data[key])
      ensures key !in data ==> r == KeyError(key)
    {
      if key in data {
        r := Ok(data[key]);
      } else {
        r := KeyError(key);
      }
    }

    /** `manager[key] = hist`. */
    method SetItem(key: string, hist: Hist)
      modifies this
      ensures data == old(data)[key := hist]
      ensures weight == old(weight) && bins == old(bins) && binnedHistograms == old(binnedHistograms)
    {
      data := data[key := hist];
    }
  }

  /**
   * Creating a family and then filling it from values above every first
   * edge succeeds, and the fill is the only entry of the histogram it lands on.
   */
  method CreateThenFill(m: HistManager, family: string, vars: seq<string>, nxbins: int, xmin: real, xmax: real,
                        values: seq<real>, value: real) returns (r: Result<()>)
    requires |values| >= |vars|
    requires forall k :: 0 <= k < |vars| ==>
      vars[k] in m.bins && |m.bins[vars[k]]| > 0 && m.bins[vars[k]][0] < values[k]
    modifies m
    ensures m.bins == old(m.bins) && m.weight == old(m.weight)
    ensures r == Ok(())
    ensures var hname := BinnedName(family, vars, BinIndices(m.bins, vars, values));
      hname in m.data && m.data[hname] == Hist(H1(nxbins, xmin, xmax), [Entry1(value, m.weight)])
  {
    var created := m.AddBinnedHist(family, vars, nxbins, xmin, xmax);
    ghost var hname := BinnedName(family, vars, BinIndices(m.bins, vars, values));
    FillLandsOnCreated(family, vars, m.bins, values);
    assert hname in m.data && m.data[hname] == Hist(H1(nxbins, xmin, xmax), []);
    r := m.FillBinnedHist(Single(family, value), vars, values, None);
  }

  /**
   * Creating a family and then filling it with a value at or below its
   * variable's first edge raises `KeyError` for the computed name, unless
   * some other booking already used that name.
   */
  method CreateThenUnderflow(m: HistManager, family: string, vars: seq<string>, nxbins: int, xmin: real, xmax: real,
                             values: seq<real>, value: real, k: nat) returns (r: Result<()>)
    requires |values| >= |vars| && AllRegistered(m.bins, vars)
    requires k < |vars| && Sorted(m.bins[vars[k]])
    requires |m.bins[vars[k]]| == 0 || values[k] <= m.bins[vars[k]][0]
    requires BinnedName(family, vars, BinIndices(m.bins, vars, values)) !in m.data
    modifies m
    ensures m.bins == old(m.bins) && m.weight == old(m.weight)
    ensures r == KeyError(BinnedName(family, vars, BinIndices(m.bins, vars, values)))
    ensures m.data == Booked(old(m.data), FamilyNames(family, vars, Sizes(m.bins, vars)), Hist(H1(nxbins, xmin, xmax), []))
  {
    var created := m.AddBinnedHist(family, vars, nxbins, xmin, xmax);
    ghost var hname := BinnedName(family, vars, BinIndices(m.bins, vars, values));
    UnderflowMisses(family, vars, m.bins, values, k);
    assert hname !in m.data;
    r := m.FillBinnedHist(Single(family, value), vars, values, None);
  }
}
