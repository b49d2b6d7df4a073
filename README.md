# pyxsim spectral models in Dafny

This project models the spectral-model core of pyxsim (`pyxsim/spectral_models.py`)
and proves properties of that model. It covers three models.

- **The 1-D thermal model (`TableApecModel`).** `prepare_spectrum` cuts a window of
  temperature nodes out of the APEC table around `[kT_min, kT_max]`. The window is padded
  by one node on each side, and its upper bound is clamped to `nT - 1`. It then builds
  linear interpolants over the window for the cosmic continuum, the metals and, when they
  are tracked, the variable elements. `get_spectrum` evaluates those interpolants at the
  queried temperatures. The interpolants are scipy's `interp1d`, built with a numeric
  `fill_value` and no `bounds_error`, so a query outside the window raises.
- **The IGM model (`IGMSpectralModel`).** The constructor keeps the table's axes: log
  temperature in K and log hydrogen density in cm^-3. It also converts the first and
  last nodes of each axis into bounds in keV and cm^-3. `prepare_spectrum` loads the
  energy grid, loads the table scaled by `1.0e-14`, and builds and prepares a fresh
  thermal model over the same energy range. `get_spectrum` splits the points with the
  mask `use_igm`, which holds when a point's temperature and density both lie inside the
  table's bounds:
  - Points in the table are interpolated bilinearly in their grid cell by
    `_get_spectrum_2d`. The continuum and metal rows are divided by each point's own
    density. The variable-element planes are divided as numpy broadcasts line 215, which
    pairs the densities with the element axis (see Findings).
  - Every other point gets the thermal model's spectrum.
  - Both groups are written back into zero-filled arrays in their original positions.
- **Foreground absorption (`AbsorptionModel`).** A tabulated cross-section is
  interpolated in energy with `np.interp`, which gives zero outside the table. It is
  turned into a survival probability `exp(-sigma * N_H)`. A photon survives when its
  uniform draw is below that probability.

Classes are used where the source updates objects in place:
- `Apec.TableApecModel` and `Igm.IgmSpectralModel` are classes whose methods assign
  their fields.
- The result arrays of `get_spectrum` are Dafny arrays written through boolean masks.

Everything else is a value. That covers the interpolants, the absorption model, the
cell lookup and the accumulation of `_get_spectrum_2d`.

The numpy and scipy primitives the core relies on are modelled as functions:
- `searchsorted` on both sides, `diff` and Python slicing (`Search`);
- `interp1d` (`Interp`);
- boolean-mask selection and assignment (`Masks`);
- `ravel_multi_index` and `np.interp`.

Each of them carries the error cases numpy or scipy raises. Errors are values of
`Common.Error` inside a `Result`. An interpolant that has not been built is an
`Option` that is `None`.

Three things the source takes from outside are parameters of the model:
- the APEC and IGM table loaders, as function-valued fields of `Apec.ApecGenerator` and
  `Igm.IgmGenerator`, together with what the model assumes of them;
- the numeric helpers `np.log10`, `10**x` and `K_per_keV` (`Igm.Conversions`);
- the exponential (`Absorption.Exponential`).

Three behaviours of the code are modelled as written:
- **The thermal window.** Its upper bound is `min(searchsorted(kT_max) + 1, nT - 1)`,
  used as a half-open slice, so the last table node is never in the window. A
  temperature above the second-to-last node can therefore never be queried
  (`Apec.WindowTopGap`).
- **The IGM cell lookup.** It is `searchsorted(axis, x) - 1` without clamping, so a point
  exactly on the lowest node of either axis has no cell and the lookup raises
  (`Igm.Locate`). Among the points inside the table's bounds, these are exactly the ones
  on the lowest temperature or the lowest density (`Igm.IgmSpectralModel.InTableCell`).
- **The division of the variable-element planes.** `v1 / nHi[:, np.newaxis, np.newaxis]`
  divides plane `e` by the density of in-table point `e`, and raises unless one point is
  in the table or there are as many points as variable elements
  (`Igm.DivStackAsWritten`). The per-point division that lines 212-213 apply to the
  continuum and metals is `Igm.DivStack`.

## Model

| member | source | states |
|---|---|---|
| `Search.SearchLeft` | pyxsim/spectral_models.py:101-102 | the left-sided search returns the first node at or above the query (or the length): every earlier node is below it |
| `Search.SearchRight` | pyxsim/spectral_models.py:269 | the right-sided search `np.interp` uses returns the first node strictly above the query: every earlier node is at or below it |
| `Search.SearchLeftAtNode` | pyxsim/spectral_models.py:227-228 | on a strictly increasing axis, searching for a node finds that node's own index |
| `Search.SearchLeftMonotone` | pyxsim/spectral_models.py:101-102 | a larger query never gives a smaller search index, so `idx_min <= idx_max` before clamping |
| `Search.Diff` | pyxsim/spectral_models.py:107 | `np.diff` has one entry fewer than its input, and none for an empty or one-node input |
| `Search.DiffPositive` | pyxsim/spectral_models.py:107 | an axis is strictly increasing exactly when all its `np.diff` widths are positive (both directions) |
| `Search.PySlice` | pyxsim/spectral_models.py:105 | Python's `a[lo:hi]` is the contiguous subsequence for in-range bounds, and empty when `hi <= lo` |
| `Search.SubrangeIncreasing` | pyxsim/spectral_models.py:105 | a slice of a strictly increasing axis is strictly increasing |
| `Interp.BracketEncloses` | pyxsim/spectral_models.py:111-112 | the interval scipy picks for a covered query encloses the query |
| `Interp.Bracket` | pyxsim/spectral_models.py:111-112 | scipy's interval choice `clip(searchsorted(x), 1, n - 1) - 1` always names an interval of the table (its upper node exists), even for queries outside it |
| `Interp.MakeInterp1d` | pyxsim/spectral_models.py:111-114 | building an interpolant succeeds exactly when there are at least two nodes and one row per node of equal width; the result keeps the nodes and rows |
| `Interp.Interp1d.At` | pyxsim/spectral_models.py:127-128 | the interpolated row at `x` has the width of the tabulated rows; its entries are characterised by `Interp.AtNode` and `Interp.AtIsConvexCombination` |
| `Interp.Interp1d.Call` | pyxsim/spectral_models.py:127-128 | a vector call succeeds exactly when every query lies within the nodes (otherwise it raises), and then row `i` is the interpolation at query `i` |
| `Interp.AtNode` | pyxsim/spectral_models.py:111-114 | the interpolant reproduces the tabulated row at every node |
| `Interp.AtIsConvexCombination` | pyxsim/spectral_models.py:111-114 | between nodes, the interpolated row is the convex combination of the two bracketing rows, with a weight in `[0, 1]` |
| `Interp.AtFromBlend` | pyxsim/spectral_models.py:111-114 | any row that blends the bracketing rows with the interpolation weight is the interpolated row (the converse of the convex-combination law) |
| `Interp.MakeInterp1dStack` | pyxsim/spectral_models.py:115-117 | the variable-element interpolant along axis 1 is built exactly when there are at least two nodes and every element has one row per node |
| `Interp.Interp1dStack.Call` | pyxsim/spectral_models.py:129-130 | the stacked call succeeds exactly when every query is within the shared nodes, and then plane `e`, row `i` is element `e`'s interpolation at query `i` |
| `Apec.WindowMin` | pyxsim/spectral_models.py:101 | the window's first index is inside the table, and when it is above 0 its node lies strictly below `kT_min` |
| `Apec.WindowMax` | pyxsim/spectral_models.py:102 | the window's end is at most `nT - 1`; when it is below that clamp, the node just before it is at or above `kT_max` |
| `Apec.IndexRange` | pyxsim/spectral_models.py:104 | `list(range(lo, hi))`; that these are the window's nodes is `Apec.WindowIndexed` |
| `Apec.WindowIndices` | pyxsim/spectral_models.py:104 | the fetched indices are consecutive from `idx_min` and each is a node of the table |
| `Apec.Window` | pyxsim/spectral_models.py:105 | the window has one node per fetched index (node by node in `Apec.WindowIndexed`) |
| `Apec.WindowIndexed` | pyxsim/spectral_models.py:103-105 | window node `i` is the table node at the `i`-th fetched index (so the fetched table rows line up with the window), and the window increases strictly |
| `Apec.WindowContainment` | pyxsim/spectral_models.py:101-105 | the padding rules: the window starts at the node just below `kT_min` (or at 0), ends at the first node at or above `kT_max` unless clamped, takes no further node, and never contains the last table node |
| `Apec.WindowCovers` | pyxsim/spectral_models.py:101-105 | a range inside the table and below its second-to-last node gets a strictly increasing window of at least two nodes that spans the whole range |
| `Apec.CoveringBounds` | pyxsim/spectral_models.py:101-102 | for such a range the window bounds are at least two apart and their nodes enclose the range |
| `Apec.WindowTopGap` | pyxsim/spectral_models.py:101-105 | a temperature above the second-to-last table node is never covered by any window |
| `Apec.ApecGenerator.TableAt` | pyxsim/spectral_models.py:103-104 | the table loader returns one row per requested index in every component |
| `Apec.TableApecModel.constructor` | pyxsim/spectral_models.py:81-95 | the model keeps the generator and its energy bins, with `de` their widths; no interpolant exists yet |
| `Apec.TableApecModel.PrepareSpectrum` | pyxsim/spectral_models.py:97-119 | the new window, node count, widths and tables are those of the window; each interpolant is rebuilt in source order (continuum, metals, variable elements), the call fails exactly when one cannot be built, and the ones not reached keep their old values |
| `Apec.TableApecModel.SetWindow` | pyxsim/spectral_models.py:101-110 | the window fields are the slice of the axis, its length and widths, and the table rows fetched for the window's indices |
| `Apec.TableApecModel.PreparedFor` | pyxsim/spectral_models.py:97-119 | the state `prepare_spectrum` leaves on a fresh model: the window, its widths, the table rows fetched for it, and each interpolant the call reached built over exactly that window and those rows |
| `Apec.PreparedWidth` | pyxsim/spectral_models.py:111-119 | the interpolants a preparation builds are as wide as the table rows fetched for the window |
| `Apec.TableApecModel.GetSpectrum` | pyxsim/spectral_models.py:121-131 | the query succeeds exactly when all interpolants exist and every temperature is within the window; each result row is the interpolation at its temperature, with variable elements exactly when the table has them |
| `Apec.NodeQueries` | pyxsim/spectral_models.py:121-131 | a query at a window node returns that node's table row |
| `Apec.WindowTableShaped` | pyxsim/spectral_models.py:103-105 | the tables fetched for a window have one row per window node |
| `Apec.PreparedInterpolants` | pyxsim/spectral_models.py:111-119 | on a window of at least two nodes with tables of matching shape, every interpolant is built over the window's own tables |
| `Apec.WindowAnswers` | pyxsim/spectral_models.py:121-131 | once the interpolants are built over a window that spans `[kT_min, kT_max]`, every query from that range is answered |
| `Apec.WindowBounds` | pyxsim/spectral_models.py:101-105 | the prepared window reaches from at or below `kT_min` to at or above `kT_max` |
| `Apec.PrepareThenQuery` | pyxsim/spectral_models.py:97-131 | preparing a range inside the table (below its second-to-last node) and querying temperatures from that range succeeds, and a query on a window node returns that node's table row unchanged |
| `Masks.Count` | pyxsim/spectral_models.py:207-208 | `mask.sum()` is at most the mask's length |
| `Masks.Rank` | pyxsim/spectral_models.py:210-213 | a selected entry's rank is a valid position in the selection |
| `Masks.Not` | pyxsim/spectral_models.py:200 | `~mask`; that the two masks split the points is `Masks.CountComplement` and `Masks.CompressPartition` |
| `Masks.Compress` | pyxsim/spectral_models.py:210-211 | `xs[mask]` has exactly `mask.sum()` entries |
| `Masks.CompressAt` | pyxsim/spectral_models.py:210-213 | selection keeps order: selected entry `i` sits in `xs[mask]` at its rank |
| `Masks.Unrank` | pyxsim/spectral_models.py:210-211 | every position of `xs[mask]` comes from a selected entry with that rank |
| `Masks.CountComplement` | pyxsim/spectral_models.py:207-208 | `n_igm + n_apec` is the number of points |
| `Masks.CompressPartition` | pyxsim/spectral_models.py:198-217 | `xs[use_igm]` and `xs[use_apec]` together are a permutation of `xs`: no point is lost or duplicated |
| `Masks.NoneSelected` | pyxsim/spectral_models.py:209 | a mask whose sum is zero selects no entry |
| `Masks.MaskedAssign` | pyxsim/spectral_models.py:212-213 | `dest[mask] = vals` gives the `k`-th selected row `vals[k]` and leaves unselected rows unchanged |
| `Masks.MaskedAssignPlanes` | pyxsim/spectral_models.py:215 | `dest[:, mask] = vals` does the same in every plane |
| `Masks.MaskedAssignPlane` | pyxsim/spectral_models.py:221 | one plane of that assignment, leaving the other planes unchanged |
| `Masks.Zeros` | pyxsim/spectral_models.py:201-202 | a row of `ne` entries, every one zero |
| `Masks.ZeroRows` | pyxsim/spectral_models.py:201-202 | `np.zeros((n, ne))`: a fresh array of `n` rows of `ne` zeros |
| `Masks.ZeroPlanes` | pyxsim/spectral_models.py:203-206 | `np.zeros((nvar_elem, n, ne))`: a fresh stack of zero rows |
| `Masks.Planes` | pyxsim/spectral_models.py:222 | reading the stack back gives plane `e`, row `i` equal to the array's entry |
| `Igm.IgmGenerator.TableLoads` | pyxsim/spectral_models.py:187 | the IGM table loader returns one row per grid point, `n` entries per row for `n` energy bins, and `nvar_elem` variable elements |
| `Igm.IgmGenerator.ApecAxesIncrease` | pyxsim/spectral_models.py:184-186 | the thermal table built for the IGM's energy range has an increasing temperature axis |
| `Igm.IgmGenerator.ApecTableWidth` | pyxsim/spectral_models.py:184-186 | the thermal table for `ne` energy bins has `ne` entries per row |
| `Igm.RavelIndex` | pyxsim/spectral_models.py:231-234 | `ravel_multi_index` raises exactly for a coordinate outside the grid, and otherwise gives a flat index below `n_D * n_T` |
| `Igm.UnravelRavel` | pyxsim/spectral_models.py:231-234 | the flat index unravels to its coordinate, so distinct grid points never share a table row |
| `Igm.Corners` | pyxsim/spectral_models.py:231-234 | the four corner lookups `idx1 .. idx4` all succeed exactly when the lower corner `(d, t)` has a grid node above it on both axes |
| `Igm.Locate` | pyxsim/spectral_models.py:225-234 | a point has a cell exactly when it lies strictly above the first node and at or below the last node of both axes; its cell's nodes enclose it |
| `Igm.CellOffsets` | pyxsim/spectral_models.py:229-230 | `dT` and `dn` are the fractional positions inside the cell, each in `(0, 1]` |
| `Igm.CellWeights` | pyxsim/spectral_models.py:235-238 | the four weights sum to one and are the products of the 1-D corner weights; on a density edge only that edge's corners weigh |
| `Igm.WeightsInUnitInterval` | pyxsim/spectral_models.py:235-238 | inside a cell every weight lies in `[0, 1]`, so each row is a convex combination of the corner rows |
| `Igm.BlendIsBilinear` | pyxsim/spectral_models.py:239-242 | the four-term weighted sum is textbook bilinear interpolation |
| `Igm.CornerIndex` | pyxsim/spectral_models.py:231-234 | every corner of an in-grid cell is a row of the table |
| `Igm.CellRow` | pyxsim/spectral_models.py:239-246 | the reference bilinear interpolation of one point has the width of the table rows |
| `Igm.Term` | pyxsim/spectral_models.py:239 | `dx_j[:, np.newaxis] * S[idx_j, :]` has one row per point, each as wide as the table rows |
| `Igm.AddRows` | pyxsim/spectral_models.py:240-242 | `+=` keeps the shape of its operands |
| `Igm.Accumulate` | pyxsim/spectral_models.py:239-242 | the accumulation has one row per point; `Igm.AccumulateRows` states each row |
| `Igm.AccumulateRows` | pyxsim/spectral_models.py:239-246 | every row of the accumulated `cspec`/`mspec` is the bilinear interpolation of the table in its point's cell |
| `Igm.AccumulateIsBilinear` | pyxsim/spectral_models.py:239-242 | the same, for one point |
| `Igm.AccumulateStack` | pyxsim/spectral_models.py:247-251 | plane `e`, row `i` of the variable-element accumulation is the bilinear interpolation of element `e`'s table in point `i`'s cell |
| `Igm.GridNodeReduction` | pyxsim/spectral_models.py:224-254 | on a density node above the lowest, the 2-D interpolation equals the 1-D temperature interpolation along that density's slice of the table |
| `Igm.NodeCell` | pyxsim/spectral_models.py:227-230 | on such a node the lookup picks the cell below it, with `dn == 1` and scipy's temperature bracket |
| `Igm.UpperEdgeRow` | pyxsim/spectral_models.py:239-242 | with `dn == 1` the bilinear row blends only the two upper corners |
| `Igm.DivRows` | pyxsim/spectral_models.py:212-213 | `c1 / nHi[:, np.newaxis]`; that each point is divided by its own density is stated per point by `Igm.IgmSpectralModel.Divided` |
| `Igm.DivStack` | pyxsim/spectral_models.py:212-215 | the intended division of the variable-element planes: in every plane, each point's row divided by that point's own density, as lines 212-213 divide `c1` and `m1` |
| `Igm.DivStackAsWritten` | pyxsim/spectral_models.py:215 | line 215 and its write-back as numpy evaluates them: they succeed exactly when one point is in the table or the number of variable elements equals the number of in-table points, and fail with `ShapeMismatch` otherwise; on success every row of plane `e` is divided by `nHi[e]`, or by the only density when one point is in the table |
| `Igm.DivStackLocal` | pyxsim/spectral_models.py:212-215 | under the intended division a point's row depends only on its own interpolated row and its own density, whichever other points share the query |
| `Igm.DivStackOnePoint` | pyxsim/spectral_models.py:215 | with a single in-table point the code as written gives the intended division |
| `Igm.DivStackMisdivides` | pyxsim/spectral_models.py:215 | two elements and two in-table points of densities 1 and 2: as written, the first point's row of the second element is halved, where the intended division leaves it unchanged |
| `Igm.DivStackRaises` | pyxsim/spectral_models.py:215 | three elements and two in-table points: as written the call fails with `ShapeMismatch` |
| `Igm.ScaleStack` | pyxsim/spectral_models.py:190-191 | `var_spec *= 1.0e-14` on every plane; shapes kept by `Igm.ScaledShape` and `Igm.ScaledWidth` |
| `Igm.ScaledShape` | pyxsim/spectral_models.py:188-192 | scaling by `1.0e-14` keeps one row per grid point and rectangular tables |
| `Igm.ScaledWidth` | pyxsim/spectral_models.py:188-192 | scaling by `1.0e-14` keeps every row `ne` wide |
| `Igm.IgmSpectralModel.constructor` | pyxsim/spectral_models.py:161-177 | the axes and sizes are the generator's; the bounds are `10**` of the first and last nodes, in keV for temperature and cm^-3 for density |
| `Igm.IgmSpectralModel.PrepareSpectrum` | pyxsim/spectral_models.py:179-193 | the energy grid and the `1.0e-14`-scaled table are stored; the fresh thermal model uses the generator for `(ebins[0], ebins[-1], ne)` and holds exactly the window, the table rows fetched for it and the interpolants built over them (`Apec.TableApecModel.PreparedFor`); the call fails exactly when one of those interpolants cannot be built |
| `Igm.IgmSpectralModel.PrepareApec` | pyxsim/spectral_models.py:184-186 | the fresh thermal model uses the generator for `(ebins[0], ebins[-1], ne)` and is prepared for the window (line 193): window, fetched table rows and the interpolants built over them, each row `ne` wide; it fails exactly when an interpolant cannot be built |
| `Igm.IgmSpectralModel.LoadTable` | pyxsim/spectral_models.py:187-192 | the stored tables are the loaded ones scaled by `1.0e-14`, one row per grid point |
| `Igm.IgmSpectralModel.PointCell` | pyxsim/spectral_models.py:225-234 | a point has a cell exactly when `log10(kT * K_per_keV)` and `log10(nH)` lie in the half-open range from the first (excluded) to the last (included) node of their axes; the cell is inside the grid |
| `Igm.IgmSpectralModel.InTableCell` | pyxsim/spectral_models.py:198-228 | a point inside the table's bounds (lines 198-199) has a cell (lines 225-228) exactly when it is not on the lowest temperature and not on the lowest density |
| `Igm.IgmSpectralModel.TemperatureCell` | pyxsim/spectral_models.py:168-169 | a temperature between `min_table_kT` and `max_table_kT` has `log10(kT * K_per_keV)` above the first node and at most the last, unless it equals `min_table_kT` |
| `Igm.IgmSpectralModel.DensityCell` | pyxsim/spectral_models.py:170-171 | a density between `min_table_nH` and `max_table_nH` has `log10(nH)` above the first node and at most the last, unless it equals `min_table_nH` |
| `Igm.IgmSpectralModel.KelvinBounds` | pyxsim/spectral_models.py:168-169 | converting a temperature between the keV bounds to Kelvin puts it between their Kelvin values, and on the lower one only from `min_table_kT` |
| `Igm.IgmSpectralModel.AxisLog` | pyxsim/spectral_models.py:168-171 | a value between `10**a` and `10**b` has a `log10` in `(a, b]` unless it is `10**a` |
| `Igm.IgmSpectralModel.CellsAnswer` | pyxsim/spectral_models.py:209-211 | no in-table point sits on the lowest temperature or density exactly when every in-table point has a cell |
| `Igm.IgmSpectralModel.Cells` | pyxsim/spectral_models.py:225-234 | the cells of all points exist exactly when each point has one, and then point `i` gets its own in-grid cell |
| `Igm.IgmSpectralModel.GetSpectrum2d` | pyxsim/spectral_models.py:224-254 | succeeds exactly when every point has a cell (otherwise the index lookup raises); row `i` of every component is the bilinear interpolation in point `i`'s cell |
| `Igm.IgmSpectralModel.UseIgm` | pyxsim/spectral_models.py:198-199 | `use_igm[i]` holds exactly when point `i` is within the table's temperature and density bounds, ends included |
| `Igm.IgmSpectralModel.InTable` | pyxsim/spectral_models.py:198-199 | the bounds test of one point, ends included, on both temperature and density |
| `Igm.IgmSpectralModel.TableRowAt` | pyxsim/spectral_models.py:211-213 | the row the 2-D branch owes an in-table point: the bilinear interpolation in its cell divided by its density |
| `Igm.IgmSpectralModel.FallbackRowsAt` | pyxsim/spectral_models.py:217-219 | the rows the fallback branch owes a point: the thermal model's continuum and metal interpolants at its temperature |
| `Igm.IgmSpectralModel.FallbackVarRowAt` | pyxsim/spectral_models.py:220-221 | the same for variable element `e` |
| `Igm.IgmSpectralModel.Divided` | pyxsim/spectral_models.py:212-215 | dividing the interpolation by the densities gives each point's continuum and metal rows divided by its own density, and the variable rows of plane `e` divided by `nHi[e]` (by the only density when one point is in the table) |
| `Igm.IgmSpectralModel.CompressedTableRows` | pyxsim/spectral_models.py:210-215 | the row at rank `Rank(use_igm, i)` of the result computed on `kT[use_igm]` is the table row of in-table point `i` |
| `Igm.IgmSpectralModel.PointRows` | pyxsim/spectral_models.py:211-213 | continuum and metal rows interpolated in a point's own cell and divided by its density are that point's table rows |
| `Igm.IgmSpectralModel.PointPlaneRow` | pyxsim/spectral_models.py:211-215 | a variable row interpolated in a point's own cell and divided by the density line 215 pairs with its plane is that point's row of that plane |
| `Igm.IgmSpectralModel.PlaneDensity` | pyxsim/spectral_models.py:210-215 | the density line 215 divides plane `e` by is the density of the `e`-th in-table point (of the only one when one point is in the table), and at least the table's lowest |
| `Igm.IgmSpectralModel.OnePointPlanes` | pyxsim/spectral_models.py:212-215 | with one point in the table its variable rows are its own interpolated rows divided by its own density, as for the continuum and metals |
| `Igm.IgmSpectralModel.SelectedCells` | pyxsim/spectral_models.py:209-211 | when every selected point has a cell, no in-table point sits on the lowest temperature or density |
| `Igm.IgmSpectralModel.SelectedDensities` | pyxsim/spectral_models.py:210 | every selected density is at least the table's lowest, so the division by `nHi` is defined |
| `Igm.IgmSpectralModel.SelectedMissingCell` | pyxsim/spectral_models.py:210-211 | a selected point without a cell is an in-table point of the original query that sits on the lowest temperature or density |
| `Igm.IgmSpectralModel.TableRows` | pyxsim/spectral_models.py:209-215 | the `n_igm > 0` branch succeeds exactly when no in-table point sits on the lowest temperature or density and the variable planes broadcast; the cell lookup fails first (`InvalidCellIndex`), then the broadcast (`ShapeMismatch`); on success the rows at each in-table point's rank are its rows as line 212-215 compute them |
| `Igm.IgmSpectralModel.FillFromTable` | pyxsim/spectral_models.py:209-215 | the same branch on the arrays, with the same success condition and errors: every in-table point's rows are written, and every other point's rows are unchanged |
| `Igm.IgmSpectralModel.WriteTableRows` | pyxsim/spectral_models.py:212-215 | the masked writes put each in-table point's rows in place and leave the rest unchanged |
| `Igm.IgmSpectralModel.WriteTableSpectra` | pyxsim/spectral_models.py:212-213 | the same, for `cspec` and `mspec` |
| `Igm.IgmSpectralModel.WriteTablePlanes` | pyxsim/spectral_models.py:214-215 | the same, for `vspec` |
| `Igm.IgmSpectralModel.ApecRows` | pyxsim/spectral_models.py:216-221 | the `n_apec > 0` branch fails exactly when the thermal model cannot answer the out-of-table temperatures (or returns a different number of variable elements); otherwise the rows at each such point's rank are the thermal interpolation at its temperature |
| `Igm.IgmSpectralModel.FillFromApec` | pyxsim/spectral_models.py:216-221 | the same branch on the arrays: every out-of-table point's rows are written, and every in-table point's rows are unchanged |
| `Igm.IgmSpectralModel.WriteApecRows` | pyxsim/spectral_models.py:218-221 | the masked writes put each out-of-table point's thermal rows in place and leave the rest unchanged |
| `Igm.IgmSpectralModel.WriteApecSpectra` | pyxsim/spectral_models.py:218-219 | the same, for `cspec` and `mspec` |
| `Igm.IgmSpectralModel.WriteApecPlanes` | pyxsim/spectral_models.py:220-221 | the same, for `vspec` |
| `Igm.IgmSpectralModel.Fill` | pyxsim/spectral_models.py:201-221 | after zero-filling and both branches, the call succeeds exactly when no in-table point is on the lowest temperature or density, the variable planes broadcast and the thermal model answers; the 2-D branch's errors come first; on success every in-table point holds its rows from lines 212-215 and every other point its thermal rows |
| `Igm.IgmSpectralModel.GetSpectrum` | pyxsim/spectral_models.py:195-222 | before `prepare_spectrum` the call raises; afterwards it succeeds exactly when no in-table point is on the lowest temperature or density, the variable planes broadcast and the thermal model answers, failing with `InvalidCellIndex` then `ShapeMismatch` in that order; on success the arrays have shape `(N, ne)` (and `(nvar_elem, N, ne)`), each point's rows being its rows from lines 212-215 when it is in the table and the thermal model's rows otherwise |
| `Igm.IgmSpectralModel.FilledIsMerged` | pyxsim/spectral_models.py:201-222 | the arrays returned, read as sequences, are that merged answer, rows and widths |
| `Igm.IgmSpectralModel.Merged` | pyxsim/spectral_models.py:201-222 | the answer of `get_spectrum`: `MergedRows`, where variable rows of in-table points are divided as line 215 divides them, with every row `ne` wide |
| `Igm.IgmSpectralModel.MergedRows` | pyxsim/spectral_models.py:209-221 | per point, in the original order: when in the table, the continuum and metal rows divided by its density and, for plane `e`, its interpolated row divided by the density line 215 pairs with `e`; the thermal rows otherwise |
| `Igm.IgmSpectralModel.FilledRows` | pyxsim/spectral_models.py:201-221 | the arrays `Fill` leaves hold the merged rows |
| `Igm.IgmSpectralModel.MergedWidths` | pyxsim/spectral_models.py:201-206 | whichever branch gave them, the merged rows have `ne` entries, the width of the zero arrays they replace |
| `Igm.IgmSpectralModel.PlaneRowWidth` | pyxsim/spectral_models.py:214-215 | a variable row of the 2-D branch has `ne` entries |
| `Igm.IgmSpectralModel.TableRowWidth` | pyxsim/spectral_models.py:212-213 | a row of the 2-D branch has `ne` entries |
| `Igm.IgmSpectralModel.FallbackRowWidth` | pyxsim/spectral_models.py:218-219 | the fallback rows have `ne` entries |
| `Igm.IgmSpectralModel.FallbackVarRowWidth` | pyxsim/spectral_models.py:220-221 | the fallback rows of every variable element have `ne` entries |
| `Absorption.MakeAbsorptionModel` | pyxsim/spectral_models.py:260-263 | the column density is stored in cm^-2 (times `1.0e22`) with its sign kept; energies and cross-sections are kept |
| `Absorption.ZeroFillInterp` | pyxsim/spectral_models.py:269 | `np.interp(..., left=0.0, right=0.0)`: zero for every energy below the first or above the last tabulated energy (values inside the table in `Absorption.InterpAtNode` and `Absorption.InterpBounded`) |
| `Absorption.Enclosing` | pyxsim/spectral_models.py:269 | inside the table, `np.interp`'s interval encloses the energy |
| `Absorption.InterpAtNode` | pyxsim/spectral_models.py:269 | at a tabulated energy the cross-section is the tabulated one |
| `Absorption.InterpOutside` | pyxsim/spectral_models.py:269 | outside the tabulated energies the cross-section is zero (`left=0`, `right=0`) |
| `Absorption.InterpBounded` | pyxsim/spectral_models.py:269 | the interpolated cross-section stays within any bounds that hold all tabulated values and zero (instantiated with the table's largest value, `TableMax`, to bound the cross-section from above) |
| `Absorption.OpticalDepth` | pyxsim/spectral_models.py:270 | the optical depth `sigma * nH` is non-negative for a non-negative cross-section and column, and zero when either is zero |
| `Absorption.DepthMonotone` | pyxsim/spectral_models.py:270 | for a non-negative cross-section the optical depth grows with the column density and is non-negative for a non-negative column |
| `Absorption.Survival` | pyxsim/spectral_models.py:270 | the survival probability `exp(-sigma * nH)` of one photon is positive (bounded by one in `Absorption.SurvivalIsProbability`) |
| `Absorption.GetAbsorb` | pyxsim/spectral_models.py:265-270 | `np.interp` raises for an empty table and then for columns of different lengths; otherwise entry `i` is `exp(-sigma(e_i) * nH)` |
| `Absorption.SurvivalIsProbability` | pyxsim/spectral_models.py:265-270 | with non-negative column and cross-sections every survival probability is in `(0, 1]` |
| `Absorption.SurvivalOutsideTable` | pyxsim/spectral_models.py:265-270 | energies outside the table are not absorbed: survival is exactly 1 |
| `Absorption.SurvivalAtNode` | pyxsim/spectral_models.py:265-270 | at a tabulated energy the survival is `exp(-sigma_k * nH)` with that energy's own cross-section |
| `Absorption.ThickerColumnAbsorbsMore` | pyxsim/spectral_models.py:265-270 | a thicker column of the same absorber lets no more of any energy through |
| `Absorption.AbsorbPhotons` | pyxsim/spectral_models.py:272-292 | no photons give an empty answer without consulting the table; otherwise the call fails exactly as `get_absorb` does, and photon `i` survives exactly when its draw is below its survival probability |
| `Absorption.OutsideTableSurvives` | pyxsim/spectral_models.py:288-292 | a photon outside the tabulated energies survives any draw in `[0, 1)` |
| `Absorption.SurvivorsOfThickerColumn` | pyxsim/spectral_models.py:288-292 | with the same draws, every photon that survives a thicker column also survives a thinner one |

## Left out

- Physical units (`YTQuantity`, `YTArray`) are dropped. Quantities are plain reals in the units the code converts them to: keV, K, cm^-3, cm^-2 and cm^2.
- Floating point is modelled as exact real arithmetic. Rounding, overflow, `nan` and `inf` are not modelled.
- `np.atleast_1d` and numpy broadcasting of scalars are not modelled. Every query is a sequence, with one temperature and one density per point.
- The table loaders of soxs's `ApecGenerator` and `IGMGenerator` (atomic data, redshifting, file reading) are not part of this model. They are function-valued fields, and the model assumes what the generators' `Valid` predicates list: one row per grid point or fetched temperature, `n` entries per row for `n` energy bins, at least one energy bin edge, strictly increasing IGM temperature and density axes whose `dTvals` and `dDvals` are the differences of consecutive nodes, and a strictly increasing temperature axis for the APEC tables.
- The arguments `binscale`, `var_elem`, `model_root`, `model_vers`, `thermal_broad`, `nolines`, `abund_table`, `nei`, `resonant_scattering` and `cxb_factor` are not modelled. They only configure those loaders, and the loaders are parameters here.
- The constructor of the thermal model does not keep `nchan`, `emid`, `var_elem_names`, `var_ion_names` or `atable`. No core operation reads them.
- `np.log10`, `10**x` and `K_per_keV` are parameters (`Igm.Conversions`). The model assumes that `10**x` and `K_per_keV` are positive, that `log10` undoes `10**x`, and that `log10` is strictly increasing on positive numbers.
- `np.exp` is a parameter (`Absorption.Exponential`). It is assumed to be one at zero, positive and increasing.
- `parse_prng` and `prng.uniform` are replaced by the input `randvec`: the uniform draws the random state would make, one per photon.
- `TableApecModel.return_spectrum`, `TBabsModel`, `WabsModel` and `absorb_models` are not part of this model. They are outside the modelled core.
- `Igm.IgmSpectralModel.PrepareSpectrum` builds and prepares the fresh thermal model before it stores the energy grid and the table. The source prepares it last. The two orders touch disjoint state, so the final state is the same. An error raised while preparing the thermal model is returned, not raised.
- `Igm.IgmSpectralModel.ApecRows` reports `ShapeMismatch` when the table tracks variable elements and the thermal model returns none, or returns a different number of them. numpy would broadcast or fill with `nan` in some of these cases, and that is not modelled.
- `Absorption.GetAbsorb` does not check that the energies increase, as `np.interp` does not. The properties about tabulated energies assume it.
- Interpolation queries outside the thermal window raise, as scipy does for `interp1d` with a numeric `fill_value` and no `bounds_error`. They do not return the fill value.
- Merged: models line 215 as written, so the variable rows of in-table points are divided by the density of the in-table point with the plane's index; the intended per-point division is `Igm.DivStack` (see Findings).
- MergedRows: the same as-written division of the variable rows as `Merged`.
- TableRows: fails with `ShapeMismatch` where line 215 raises, and otherwise returns the as-written variable rows; the intended division is `Igm.DivStack`.
- FillFromTable: the same as-written success condition and variable rows as `TableRows`.
- Fill: the same as-written success condition and variable rows as `TableRows`.
- GetSpectrum: the same as-written success condition and variable rows as `TableRows`.

## Findings

| source | as written | input that shows it | evidently intended | confidence | as-written member | corrected member |
|---|---|---|---|---|---|---|
| pyxsim/spectral_models.py:215 | `v1 / nHi[:, np.newaxis, np.newaxis]` gives the divisor shape `(n_igm, 1, 1)`, which lines up with the element axis of `v1` (shape `(nvar_elem, n_igm, ne)`), not with its point axis | two variable elements and two in-table points of densities 1 and 2, with every interpolated entry 1: the first point's entry in the second plane becomes 0.5 instead of 1 (`Igm.DivStackMisdivides`); with three elements and two in-table points the call raises (`Igm.DivStackRaises`) | every plane divided by each point's own density, `v1 / nHi[np.newaxis, :, np.newaxis]`, as lines 212-213 do for `c1` and `m1` | high, not executed | `Igm.DivStackAsWritten` | `Igm.DivStack` (with `Igm.DivStackLocal` and `Igm.DivStackOnePoint`) |
