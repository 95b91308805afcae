# HistManager: a verified model of the datils histogram registry

`datils/histmanager.py` defines `HistManager`, a registry of named
histograms used in physics analyses. It holds four pieces of state:

- `data`: histogram name to histogram;
- `bins`: variable name to its sequence of bin edges;
- `binned_histograms`: family name to its binning variables;
- `weight`: the global weight, 1.0 after construction.

On top of plain 1D and 2D histograms and profiles, it supports *binned
families*. Creating family `f` over variables `v1 .. vn` books one 1D
histogram per tuple of indices in `range(len(bins[v1])) x ... x
range(len(bins[vn]))`. Each one is named
`h__f__v1<i1>__v2<i2>...`. A binned fill finds each value's index with
`np.searchsorted(edges, value) - 1` and builds the same kind of name. It
then forwards the fill, with the explicit weight or the stored global one.

The model has four modules, one file each:

- `names.dfy` (`HistNames`): Python's decimal `str` of an integer, the
  `__<var><idx>` tags and the full histogram names. It proves that, within
  a family, distinct index tuples give distinct names.
- `binning.dfy` (`BinSearch`): the bin index, defined as the number of
  edges strictly below the value, minus one. It proves that this is what
  `searchsorted` (side `left`) returns on sorted edges, and it proves the
  index's range, bracket and monotonicity.
- `product.dfy` (`IndexProduct`): `itertools.product` over ranges, in
  lexicographic order. It proves the length, the membership and that no
  tuple repeats.
- `registry.dfy` (`HistRegistry`): the class `HistManager`, whose fields
  are the four pieces of state above and whose methods update them in
  place. It also holds the specification functions the methods are proved
  against (`FamilyNames`, `Booked`, `FillEach`) and the lemmas that relate
  creation to filling.

Each histogram of the external library is opaque. It is a `Hist` value: how
it was booked (`H1`, `H2` or `Profile` with its axis arguments) and the log of
its `Fill` calls, each with the weight it got. A Python `KeyError` becomes a
`KeyError(key)` result. Each method's contract also states the state it
leaves behind when it raises:

- `add_binned_hist` has already recorded the family's variables when the
  edge lookup fails, and it books no histogram.
- A fill over a list of names keeps the fills made before the missing name.

Some behaviour the proofs make explicit:

- `set_bins` itself never replaces edges that are already registered. It
  prints a notice and leaves everything as it was. (The stored list is the
  caller's own object, so the caller can still change it; see "Left out".)
- Bins are open on the left and closed on the right: index `i` means
  `edges[i] < v <= edges[i+1]`. A value above the last edge gets index
  `len(edges) - 1`. That histogram is booked, so it acts as an overflow
  bin. A value at or below the first edge gets index -1. Creating the family
  never books that name (`UnderflowMisses`), so the fill raises `KeyError`
  unless some other booking used the name (`CreateThenUnderflow`).
- Booking a family re-books any histogram of the same name, which empties
  its fill log.

## Model

| member | source | states |
|---|---|---|
| `HistRegistry.HistManager.constructor` | datils/histmanager.py:7-15 | A new manager has no histograms, no bin sets and no families, and its global weight is 1.0 |
| `HistRegistry.HistManager.SetWeight` | datils/histmanager.py:17-18 | The global weight becomes `w`; nothing else changes |
| `HistRegistry.HistManager.SetBins` | datils/histmanager.py:20-24 | A new variable gets exactly the given edges; a variable that is already registered keeps its old edges; histograms, weight and families are untouched either way |
| `HistRegistry.HistManager.AddHist` | datils/histmanager.py:26-28 | The name is booked, or re-booked, as an empty 1D histogram with the given axis; every other entry is unchanged |
| `HistRegistry.HistManager.AddHist2D` | datils/histmanager.py:60-62 | The name is booked, or re-booked, as an empty 2D histogram with the given axes; every other entry is unchanged |
| `HistRegistry.HistManager.AddHistProfile` | datils/histmanager.py:64-66 | The name is booked, or re-booked, as an empty profile with the given axis and y range; every other entry is unchanged |
| `HistRegistry.HistManager.AddBinnedHist` | datils/histmanager.py:30-41 | The family's variables are recorded in every case. It succeeds exactly when every variable has edges, and then adds an empty 1D histogram for each name in `FamilyNames` (one per index tuple). Otherwise it reports the first variable without edges and leaves `data` unchanged |
| `HistRegistry.HistManager.EdgeCounts` | datils/histmanager.py:36 | Gives the number of edges of each variable in order, or the first variable with no edges |
| `HistRegistry.FamilyHistName` | datils/histmanager.py:37-39 | The name built by appending `__<var><idx>` over `zip(vars, comb)` to `h__<family>` is `BinnedName(family, vars, comb)` |
| `HistRegistry.HistManager.BinTag` | datils/histmanager.py:47-50 | Succeeds exactly when every variable paired with a value has edges, and then returns the tag of the values' bin indices. Otherwise it reports the first paired variable with no edges |
| `HistRegistry.HistManager.FillBinnedHist` | datils/histmanager.py:43-58 | An unregistered paired variable raises before anything is filled. Otherwise the names `h__<n><tag>` share one tag and get their paired values in order. The weight is the explicit one or the stored one. The result is exactly `FillEach`, so it stops at the first name that is not booked |
| `HistRegistry.HistManager.FillHist` | datils/histmanager.py:68-72 | Missing name: `KeyError` and no change. Otherwise only that histogram's log grows by `(value, w)`, where `w` is the explicit weight if given, else the current global weight |
| `HistRegistry.HistManager.FillHist2D` | datils/histmanager.py:74-78 | Same as `FillHist`, with a `(x, y, w)` entry |
| `HistRegistry.HistManager.FillProfile` | datils/histmanager.py:80-84 | Same as `FillHist`, with a `(x, y, w)` entry |
| `HistRegistry.HistManager.GetItem` | datils/histmanager.py:98-99 | Reads `data` as a partial map: the stored histogram, or `KeyError` for an absent key |
| `HistRegistry.HistManager.SetItem` | datils/histmanager.py:101-102 | Overwrites one entry of `data`; nothing else changes |
| `HistRegistry.CreateThenFill` | datils/histmanager.py:30-58 | If every value lies above its variable's first edge, creating a family and then filling it succeeds, and the histogram it lands on holds just that fill, with the global weight |
| `HistRegistry.CreateThenUnderflow` | datils/histmanager.py:30-58 | If a value lies at or below its variable's first edge (or the variable has no edges), and the computed name was not already booked, creating the family and then filling it raises `KeyError` for exactly that name. The family's histograms are booked as usual |
| `HistRegistry.EffectiveWeight` | datils/histmanager.py:68-72 | The weight a fill uses: the explicit weight when one is given, otherwise the stored global weight |
| `HistRegistry.FamilyNames` | datils/histmanager.py:36-39 | The names creation books: `BinnedName` of each tuple of `Product(sizes)`, in creation order, one name per tuple. Membership, distinctness and count are proved in `FamilyMembership`, `FamilyNamesDistinct` and `FamilySize` |
| `HistRegistry.FillEach` | datils/histmanager.py:53-55 | The `zip(name, value)` loop as a function: fill each pair in order, stopping at the first name that is not booked. It has no contract of its own. Its effect is proved in `FillEachKeys`, `FillEachOutcome` and `FillEachLog`, and `FillBinnedHist` is proved to do exactly this |
| `HistRegistry.FillLandsOnCreated` | datils/histmanager.py:36-57 | Suppose every value lies above its variable's first edge. Then the name a fill computes is among the names creation booked (sortedness is not needed) |
| `HistRegistry.UnderflowMisses` | datils/histmanager.py:36-57 | On sorted edges, a value at or below its variable's first edge (or a variable with no edges) sends the fill to a name that creation never booked |
| `HistRegistry.CreatedIndicesInRange` | datils/histmanager.py:36-41 | A name of the family's form is booked only if each index of its tuple is in `range(len(edges))` |
| `HistRegistry.FamilyMembership` | datils/histmanager.py:36-41 | The booked names are exactly the names of the in-range index tuples |
| `HistRegistry.FamilyNamesDistinct` | datils/histmanager.py:36-41 | Creation produces each name once: one histogram per index tuple |
| `HistRegistry.FamilySize` | datils/histmanager.py:36-41 | The number of distinct names booked is the product of the edge-list lengths |
| `HistRegistry.FillEachKeys` | datils/histmanager.py:52-55 | A sequence of fills never adds or removes a histogram and never changes how one was booked |
| `HistRegistry.FillEachOutcome` | datils/histmanager.py:52-55 | A sequence of fills succeeds exactly when every paired name is booked. Otherwise the error names the first name that is not booked |
| `HistRegistry.FillEachLog` | datils/histmanager.py:52-55 | After a successful sequence of fills, each histogram's log is its old log plus the entries of the pairs that name it, in order |
| `HistNames.NatToString` | datils/histmanager.py:39 | The decimal rendering of a non-negative index is non-empty and all digits |
| `HistNames.NatToStringNoLeadingZero` | datils/histmanager.py:39 | Only 0 renders with a leading `0`, as with Python's `str` |
| `HistNames.ParseNatToString` | datils/histmanager.py:39 | Reading the rendering back gives the number (round trip) |
| `HistNames.NatToStringInjective` | datils/histmanager.py:39 | Distinct numbers render differently |
| `HistNames.IntToString` | datils/histmanager.py:50 | The rendering of any index (including -1) is non-empty, has no `_`, and starts with `-` exactly for negatives |
| `HistNames.IntToStringInjective` | datils/histmanager.py:50 | Distinct integers render differently |
| `HistNames.Tag` | datils/histmanager.py:39 | One variable's part of a name, `__<var><idx>`, with the index rendered by `IntToString`. It has no contract of its own. Its index part has no `_` (`IntToString`), which `TagsFromInjective` uses to split a name at each separator |
| `HistNames.TagsFrom` | datils/histmanager.py:38-39 | The tags of the zipped pairs from one position on. The result is empty or starts with `_`, which lets the injectivity proof split a name at each separator |
| `HistNames.Suffix` | datils/histmanager.py:38-39 | The tag of a whole index tuple: the tags of `zip(vars, indices)` in order. It is empty exactly when there are no pairs |
| `HistNames.HistName` | datils/histmanager.py:57 | `h__<name><tag>`. It has no contract of its own. `HistNameAppend` shows that appending to the tag appends to the name, and `BinnedNameInjective` reads the tag back off a name of a known family |
| `HistNames.BinnedName` | datils/histmanager.py:37-39 | The name of a family's histogram at one index tuple, `HistName` of the tuple's `Suffix`. It has no contract of its own. It is injective in the tuple (`BinnedNameInjective`), and `FamilyHistName` builds exactly this name |
| `HistNames.SuffixAppend` | datils/histmanager.py:38-39 | Appending one index to a tuple appends exactly that variable's `__<var><idx>` to the tag |
| `HistNames.SuffixIgnoresExtra` | datils/histmanager.py:38 | Like `zip`, the tag ignores indices beyond the last variable |
| `HistNames.SuffixInjective` | datils/histmanager.py:37-39 | For fixed variables, equal tags come from equal index tuples |
| `HistNames.BinnedNameInjective` | datils/histmanager.py:37-39 | Within a family, distinct index tuples give distinct histogram names |
| `HistNames.NameExample` | datils/histmanager.py:37-39 | Family `family`, variables `pt`, `eta` and indices (2, 0) give `h__family__pt2__eta0` |
| `BinSearch.CountBelow` | datils/histmanager.py:49 | The number of edges strictly below the value, at most the number of edges. `SearchSortedUnique` shows it is `np.searchsorted`'s left insertion point on sorted edges |
| `BinSearch.BinIndex` | datils/histmanager.py:49 | The bin index lies between -1 and `len(edges) - 1` |
| `BinSearch.CountBelowSplits` | datils/histmanager.py:49 | On sorted edges, every edge before the count is below the value and every edge from the count on is at or above it |
| `BinSearch.SearchSortedUnique` | datils/histmanager.py:49 | Any split point of sorted edges equals the count, so the count is searchsorted's (side `left`) insertion point |
| `BinSearch.BinIndexMonotone` | datils/histmanager.py:49 | A larger value never gets a lower bin index |
| `BinSearch.BinIndexNonNegative` | datils/histmanager.py:49 | On sorted edges, the index is a real bin (at least 0) exactly when the value lies above the first edge |
| `BinSearch.BinIndexBrackets` | datils/histmanager.py:49 | On sorted edges, index `i` means `edges[i] < v` and, when `i + 1` is an edge, `v <= edges[i+1]` |
| `IndexProduct.Product` | datils/histmanager.py:36 | `itertools.product` over `range(n)` for each size, in lexicographic order. It has no contract of its own. Its tuples are exactly the in-range ones (`ProductMembership`), each once (`ProductDistinct`), and there are as many as the product of the sizes (`ProductLength`) |
| `IndexProduct.ProductLength` | datils/histmanager.py:36 | The product of ranges has the product of their lengths many tuples |
| `IndexProduct.ProductMembership` | datils/histmanager.py:36 | A tuple is produced exactly when each position is within its range |
| `IndexProduct.ProductDistinct` | datils/histmanager.py:36 | No tuple is produced twice |

## Left out

- `load` and the constructor's `path` argument (datils/histmanager.py:9-10, 92-96), `save` (86-90) and `__iter__` (104-105): these read and write ROOT files. `save` and `__iter__` also rely on the Python 2 `iteritems`.
- The notice `set_bins` prints for an already-registered variable. It shows the new edges, not the stored ones. Only the state is modelled.
- ROOT internals: `Sumw2`, histogram titles, and what `Fill` does with an entry (binning, statistics, under- and overflow). A histogram is its booking arguments plus its fill log. A 1D-style fill sent to a 2D histogram is logged as is.
- Aliasing: the model stores values, but the source stores references, and it does not capture what follows from that.
  - `data` maps to ROOT objects held by reference. If `manager[k2] = manager[k1]` stores one object under two keys, a fill through one key shows up under both.
  - `set_bins` stores the caller's own list of edges (datils/histmanager.py:24), and `add_binned_hist` stores the caller's own `binning_vars` list (32-34). A caller that later changes either list changes the manager's state without calling it. For example, appending an edge after a family was created moves the highest values into a bin no histogram was booked for. `SetBins` keeping the first edges therefore holds only for changes made through `set_bins`.
- The `bins` argument of `add_hist` and the `xbins` argument of `add_binned_hist` are not parameters of the model. The source passes them on but never uses them.
- Values, edges and weights are `real`, not floating point. NaN and rounding are not modelled.
- `np.searchsorted` is specified by its result on sorted edges (the count of edges below the value). On unsorted edges numpy's answer is unspecified, and the model still counts edges below the value.
- `add_binned_hist` stores `{'binning_vars': binning_vars}` for each family. The model stores the list itself, because nothing else is ever put in that dictionary.
- Python's dynamic typing: `fill_binned_hist`'s `name` is either a string with a scalar value, or a list with a list of values (`FillTarget`). Item assignment stores only `Hist` values. Errors other than `KeyError` are not modelled. For example, a list of names with a scalar value raises `TypeError` in Python.
- The insertion order of the `data` dictionary is not modelled. Only iteration (left out above) can observe it. `FamilyNames` keeps the creation order.
- All of `datils/style.py`. It is plotting configuration and helpers around matplotlib, with no state or logic of its own to verify.
