# Greedy turbine packing, modelled in Dafny

This project models the greedy wind-turbine packer of `revision/pack_turbs.py`.
A `PackTurbines` object is built with three settings:

- a minimum turbine spacing;
- the "safe" region, as a multipolygon, where turbines may stand;
- a weight `weight_x`.

`pack_turbines_poly` then repeats one pass until the free region has no component left:

1. Take the component of least area. On ties the first one wins.
2. Split that component's exterior ring into parallel x/y arrays (`get_xy`).
3. Score every vertex as `weight_x * x + y`.
4. Append the first vertex of least score to the `turbine_x`/`turbine_y` arrays.
5. Cut a disk of radius `min_spacing` around that vertex out of the free region. A lone-polygon result is rewrapped by the multipolygon constructor. A polygon with an exterior becomes a one-component region. The model assumes that the constructor drops an empty polygon, so that `MultiPolygon([p])` with an empty `p` gives the empty region.

`clear` empties the two coordinate arrays.

Modules:

- `Geometry` (`geometry.dfy`): the data model.
  - Points have `real` coordinates.
  - A polygon is its exterior ring (with the closing vertex repeated) plus its holes.
  - A region is a `seq` of polygons.
  - The result of a set difference is a lone polygon or a collection.
  - The three geometry-library operations (area, circular buffer, difference) are not implemented. They are passed in as function values in a `GeometryOps` record, so every result holds for any geometry engine.
- `PackTurbs` (`pack_turbs.dfy`): the packer.
  - The selection rules (`IsFirstMin`, `ArgMin`, `IsChoice`).
  - `GetXY`, and the method that performs one selection (`SelectVertex`).
  - A reference definition of the whole run (`Packing`), and the relational description of a greedy run (`IsGreedyStep`, `IsGreedyTrace`, `Halted`).
  - The class `PackTurbines`. Its coordinate arrays are `seq<real>` fields that `PackTurbinesPoly` and `Clear` reassign.
- `PackingProperties` (`packing_properties.dfy`): lemmas about the run.
- `Results` (`results.dfy`): `Option` and `Result`.

The `while can_add_more` loop has no termination argument that does not depend on the geometry. `PackTurbinesPoly` therefore takes an explicit pass budget `maxIterations` and reports `OutOfFuel` when the budget runs out. The budget counts loop passes, including the last pass that finds the region empty. A run that places n turbines and then empties the region therefore needs `maxIterations >= n + 1` to report `Finished` (`FinishedIffEmptied`).

Two behaviours of the code are kept as they are written:

- On the very first pass with an empty region, line 82 uses `new_turbine` before anything has assigned it. The model reports this as the outcome `Failed(UnboundDisk)`.
- `np.argmin` of an empty metric, which happens when the chosen component has an empty exterior, raises an error. The model reports this as `Failed(EmptyExterior)`.

The spacing is not validated, as in the code.

Each call of `pack_turbines_poly` starts again from `safe_polygons` (line 62), not from the region a previous call left. A second call without `clear` therefore appends the same layout a second time. The contract of `PackTurbinesPoly` states exactly this: the new arrays are the old arrays plus the run from `safePolygons`.

With `weight_x = 0` on the 10 by 10 square, three ring entries score 0: (0,0), (10,0) and the closing (0,0). (0,0) is chosen only because it is the first of them (`SquareFirstTurbine`).

## Model

| member | source | states |
|---|---|---|
| PackTurbs.GetXY | revision/pack_turbs.py:23-28 | both arrays have the ring's length, and at every index x is the vertex's first coordinate and y its second; as sequences they are XCoords and YCoords of the ring, which SplitZipRoundTrip shows pair back into the ring |
| PackTurbs.ArgMin | revision/pack_turbs.py:69 | the index returned holds the minimum of the array and is the first index that does (numpy's tie rule) |
| PackTurbs.FirstMinUnique | revision/pack_turbs.py:69 | the first-minimum index is unique, so "smallest component" and "best vertex" are well defined |
| PackTurbs.Metric | revision/pack_turbs.py:72 | the vectorised score has one entry per vertex of the parallel coordinate arrays |
| PackTurbs.MetricOfRing | revision/pack_turbs.py:71-72 | the vectorised score over a ring's split x/y arrays is `weight_x * x + y` of each vertex of the ring, in ring order |
| PackTurbs.ComponentAreas | revision/pack_turbs.py:66-68 | the areas array has one entry per component of the free region, each equal to that component's area |
| PackTurbs.ChoiceUnique | revision/pack_turbs.py:66-77 | two selections that both follow the rules (first smallest component, first vertex of least score, the point at that vertex) are equal |
| PackTurbs.ChoiceOrNoVertex | revision/pack_turbs.py:69-72 | a valid selection and "the smallest component has an empty exterior" exclude each other |
| PackTurbs.Select | revision/pack_turbs.py:66-77 | on a non-empty region it either returns a selection that follows the rules, or fails with the empty-exterior error exactly when the smallest component has no vertex |
| PackTurbs.SelectIsChoice | revision/pack_turbs.py:66-77 | any selection that follows the rules is what Select returns |
| PackTurbs.SelectFails | revision/pack_turbs.py:70-72 | when the smallest component has no vertex, Select fails with the empty-exterior error |
| PackTurbs.SelectVertex | revision/pack_turbs.py:64-77 | the areas/argmin/get_xy/metric/argmin computation returns a selection following the rules (smallest component, first on ties; least `weight_x*x + y` vertex, first on ties; x and y from the same index), or the empty-exterior error exactly when that component has no vertex |
| PackTurbs.Packing | revision/pack_turbs.py:61-84 | the reference definition of the whole loop from a region; its contract bounds the passes that place a turbine by the budget, and GreedyTraceIsPacking/PackingIsGreedy characterise it as exactly the greedy run |
| PackTurbs.GreedyTraceIsPacking | revision/pack_turbs.py:61-84 | any sequence of greedy passes from the safe region, chained region to region, that halts for one of the loop's reasons within the budget is exactly the run Packing defines |
| PackTurbs.TraceExtend | revision/pack_turbs.py:73-84 | a greedy pass from the region a greedy trace ends in extends the trace to the region the pass leaves |
| PackTurbs.PackTurbines.constructor | revision/pack_turbs.py:47-53 | stores spacing, safe region and weight unchanged, with empty coordinate arrays |
| PackTurbs.PackTurbines.PackTurbinesPoly | revision/pack_turbs.py:55-84 | the outcome is that of the greedy run from the safe region; each array becomes its old contents followed by the placed turbines' x (resp. y) coordinates in placement order; when the arrays had equal lengths before, they still do, and the layout grows by exactly the placed points |
| PackTurbs.PackTurbines.Clear | revision/pack_turbs.py:86-90 | both arrays become empty (the settings are constants and stay as they were) |
| PackingProperties.PackingIsGreedy | revision/pack_turbs.py:61-84 | the run Packing computes is a greedy trace from its start region, uses at most the budget, and halts for one of the loop's reasons (converse of GreedyTraceIsPacking) |
| PackingProperties.GreedyStepPlacesVertex | revision/pack_turbs.py:66-77 | a greedy pass places an exterior vertex of a component of least area, of least score on that exterior |
| PackingProperties.PlacedAreGreedyVertices | revision/pack_turbs.py:66-77 | every turbine of the run is an exterior vertex of a least-area component of the free region at its pass, with the least score on that component's exterior |
| PackingProperties.FirstPlacementInSafeRegion | revision/pack_turbs.py:62-77 | the first turbine is an exterior vertex of a component of the safe region |
| PackingProperties.EmptyRegionStops | revision/pack_turbs.py:64-82 | from a region with no component nothing is placed and the loop stops: finished if an earlier pass built a disk, the unbound-disk error otherwise |
| PackingProperties.OutOfFuelIffBudgetUsed | revision/pack_turbs.py:61-84 | a run reports running out of budget exactly when every pass of the budget placed a turbine |
| PackingProperties.FinishedIffEmptied | revision/pack_turbs.py:63-82 | a run finishes normally exactly when it placed at least one turbine and emptied the region within the budget |
| PackingProperties.SquarePlacesFirst | revision/pack_turbs.py:69-77 | on the one-square region the first turbine goes to the first least-score vertex, for every geometry engine and spacing |
| PackingProperties.SquareFirstTurbine | revision/pack_turbs.py:72-77 | with weight 0 the square's first turbine is at (0,0), by the first-index tie rule |
| PackingProperties.SquareWeightedFirstTurbine | revision/pack_turbs.py:72-77 | with weight -1 the square's first turbine is at (10,0) |
| Geometry.Normalise | revision/pack_turbs.py:82-84 | rewrapping a difference result gives the empty region exactly when the result left nothing (an empty collection, or a lone empty polygon under the constructor assumption above) |
| PackingProperties.DifferenceEndsRun | revision/pack_turbs.py:79-84 | after a greedy pass, the next pass (given budget) ends the run normally without placing anything exactly when the difference left nothing (an empty collection or an empty lone polygon); a lone polygon with an exterior keeps the loop going |
| PackingProperties.SplitZipRoundTrip | revision/pack_turbs.py:23-28 | splitting points into x/y arrays and pairing them again gives the points back, and the other way round |

## Left out

- The geometry library's area, buffer and difference (lines 68, 77-78, 82) are abstract function values. The model proves the selection, append and rewrapping logic around them, not polygon clipping or circle approximation.
- Termination of the `while` loop is not modelled. It depends on what buffer and difference remove. `PackTurbinesPoly` takes a pass budget `maxIterations`, and when the budget runs out it stops with `OutOfFuel`, which the code has no counterpart for.
- The spacing guarantee (placed turbines at least `min_spacing` apart) is not modelled, and neither is the guarantee that turbines lie inside the safe region. Both depend on the real geometry.
- Floating-point rounding in `weight_x * x + y` is not modelled. Coordinates and scores are `real`.
- `turbine_x` and `turbine_y` are `seq<real>` fields rather than arrays, and `np.append` is sequence concatenation. The preallocated arrays of `get_xy` and of the areas loop are Dafny arrays.
- The constructor accepts a lone `Polygon` as the safe region in the code. The model only takes an already-built multipolygon, whose components `safePolygons` lists. For such an argument the model assumes that the constructor call `MultiPolygon(safe_polygons)` at line 62 returns its argument unchanged. A plain list of polygons is not modelled. The model would have to assume that the constructor drops its empty polygons, as it assumes for line 84.
- Exceptions the geometry library itself may raise (for example on invalid polygons) are not modelled.
- The plotting script `revision/make_figures/plot_turbine_def.py` is not part of this model. It only draws figures and reads files.
