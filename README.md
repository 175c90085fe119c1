# Density mapping and tracker bookkeeping of CMacIonize, in Dafny

This project models two parts of the CMacIonize photoionization code and
proves properties of them.

**Density mapping** (`src/DensityMapping.hpp`). This part maps an SPH particle
onto a Voronoi cell.
- `gridding` fills a 251 x 301 x 301 table of wedge integrals. The axes are
  radial distance r0, polar cosine mu0 and azimuthal cosine cos(phi), each in
  units of the smoothing length. Each axis has a dense segment below a
  breakpoint and a coarse one above it. An extra radial sentinel slice
  repeats the last real slice.
- `gridded_integral` normalises its arguments and clamps them. It then maps
  each coordinate to a bin and a fraction and blends the 8 surrounding table
  entries.
- `mass_contribution` walks every face of a cell and every edge of each face.
  It fits the face's plane, computes the edge's geometry, and adds a signed
  sum or difference of two interpolated wedge integrals per edge.
- `get_gridded_density_value` reads one table entry.

**Tracker bookkeeping** (`src/TrackerManager.hpp`).
- `add_trackers` attaches each tracker to the grid cell at its position. On a
  grid split into subgrids, it also gives every copy of the subgrid a
  duplicate of the tracker, and records two things: `_originals`, the
  original of each duplicate, and `_copies`, the first duplicate of each
  tracker, with `0xffffffff` as the "none" sentinel.
- `output_trackers` merges each tracker's duplicates back into it and outputs
  it.
- `get_number_of_photons` returns the photon count given at construction.

Files:
- `numerics.dfy` (module `Numerics`): partial values, the C++ `int()`
  conversion, and the C maths functions, which are passed in as a `Maths`
  value. `SqrtPositive` and `Sound` are the facts about them that the proofs
  assume.
- `axis_mapping.dfy` (module `AxisMapping`): the three two-segment axes, node
  coordinates and the coordinate-to-bin map.
- `density_mapping.dfy` (module `Density`): class `DensityMapping`, which
  holds the table as an `array3<real>`. Its methods are the loops of
  `gridding` and `mass_contribution`; its functions are the lookup and the
  specification of the cell mass.
- `geometry.dfy` (module `Geometry`): face planes and per-edge geometry.
- `density_lemmas.dfy` (module `DensityLemmas`): properties of the table, the
  lookup and the mass sum.
- `tracker_manager.dfy` (module `Trackers`): the grids, specification
  functions for both `add_trackers` overloads and `output_trackers`, their
  lemmas, and class `TrackerManager`.

Trackers are values. `Made(i)` is the tracker built for block i of the
tracker file, and `Duplicate(t)` is a duplicate of t. A grid cell holds the
index of its tracker in `_trackers`. The grid geometry is given by functions
fixed with the grid: `Box::inside`, `get_cell`, `get_subgrid` and
`get_copies`. `merge` and `output_tracker` are recorded as `Event`s.

## Model

| member | source | states |
|---|---|---|
| Density.DensityMapping.Gridding | src/DensityMapping.hpp:47-141 | allocates a fresh 251 x 301 x 301 zero table and leaves `Valid`: every entry holds `Expected`, the node value of its coordinates (the sentinel slice 250 repeats slice 249), or 0 in radial slice 0 and at angular index 300; each position of slices 1..250 with angular indices below 300 is written exactly once, and no other position is written |
| Density.DensityMapping.FilledIsFinal | src/DensityMapping.hpp:60-141 | once both radial loops and the sentinel copy are done, the progress predicate `Filled` gives the final table and the final write counts |
| Density.DensityMapping.FillRadialSegments | src/DensityMapping.hpp:68-134 | slices 1..50 are filled at r0 = s 0.1/50 and slices 51..249 at r0 = 0.1 + i 1.9/199; afterwards slices 1..249 hold their node values and were written once |
| Density.DensityMapping.FillNextSlice | src/DensityMapping.hpp:68-134 | filling slice s at its radial node extends the filled part of the table from slices 1..s-1 to 1..s |
| Density.DensityMapping.FillSlice | src/DensityMapping.hpp:70-97 | in slice s, polar rows 0..299 get the node values at mu0 = j 0.98/149 (j < 150) and 0.98 + j 0.02/150; nothing outside the slice and no angular index 300 changes; each written entry is written once |
| Density.DensityMapping.FillRow | src/DensityMapping.hpp:73-81 | in row (s, j), azimuthal indices 0..299 get the node values at cphi = k 0.98/149 (k < 150) and 0.98 + k 0.02/150, and every other entry keeps its value |
| Density.DensityMapping.CopySentinelSlice | src/DensityMapping.hpp:136-141 | the sentinel slice 250 receives slice 249 at all polar and azimuthal indices below 300 |
| Density.DensityMapping.CopyToSentinel | src/DensityMapping.hpp:137-140 | one polar row of the sentinel copy: the row's entries below 300 copy slice 249, and each is written once |
| DensityLemmas.BuiltTableLayout | src/DensityMapping.hpp:60-141 | after `gridding`, the sentinel slice equals slice 249 below angular index 300; radial slice 0 and angular index 300 on either axis hold 0 |
| Density.DensityMapping.GetGriddedDensityValue | src/DensityMapping.hpp:673-675 | once built, the entry at (i, j, k) is the node value `gridding` stored there |
| AxisMapping.MapAxis | src/DensityMapping.hpp:211-277 | the index and fraction of a coordinate: below the breakpoint x / width1 = index + fraction, above it (x - breakpoint) / width2 = index - offset + fraction, and the fraction lies in [0, 1) for x >= 0 |
| AxisMapping.SegmentBin | src/DensityMapping.hpp:211-238 | on one segment of bin width w, the truncated index and the fraction satisfy x / w = index + fraction, with the fraction in [0, 1) for x >= 0 |
| Numerics.Trunc | src/DensityMapping.hpp:212 | C++ `int()` truncates toward zero: for x >= 0 the result n satisfies n <= x < n + 1, for x < 0 it satisfies n - 1 < x <= n |
| AxisMapping.MapAxisAtNode | src/DensityMapping.hpp:211-237 | round trip: every node coordinate `gridding` uses (radial, polar or azimuthal) maps back to that node's index with fraction 0 |
| AxisMapping.RadialAtNode | src/DensityMapping.hpp:211-238 | radial round trip for r0 = s 0.1/50 (s < 50) and 0.1 + k 1.9/199 |
| AxisMapping.AngularAtNode | src/DensityMapping.hpp:256-276 | angular round trip for c = t 0.98/149 (t < 149) and 0.98 + k 0.02/150 |
| AxisMapping.MapAxisBounds | src/DensityMapping.hpp:211-237 | for a coordinate between 0 and the axis end, the bin index lies in [0, Top] and the fraction in [0, 1); the top index is reached exactly at the axis end |
| AxisMapping.RadialBounds | src/DensityMapping.hpp:211-215 | for the radial axis: for r0 in [0, 2], i in [0, 249], fraction in [0, 1), and i = 249 exactly at r0 = 2 |
| AxisMapping.AngularBounds | src/DensityMapping.hpp:217-227 | for the angular axes: for a cosine in [0, 1], index in [0, 299], fraction in [0, 1), and index 299 exactly at cosine 1 |
| Density.DensityMapping.GriddedIntegral | src/DensityMapping.hpp:185-204 | the result is 0 whenever phi is 0 or a normalised distance, after clamping negative values to 0, is 0 |
| Density.DensityMapping.Interpolate | src/DensityMapping.hpp:211-281 | defined exactly when the 8 reads around the bin fall inside the table; 0 in the last polar or azimuthal bin; otherwise, at a node (all fractions 0), the stored entry |
| Density.PolarCosine | src/DensityMapping.hpp:206 | mu0 is undefined exactly when the root sqrt(r0^2 + R_0^2) is 0; otherwise mu0 times the root is r0 |
| Numerics.Blend | src/DensityMapping.hpp:239-270 | the blend f x + (1 - f) y of two table values or partial blends gives y at weight 0 and x at weight 1 |
| DensityLemmas.TrilinearBetween | src/DensityMapping.hpp:239-270 | the nested blend of 8 values in [lo, hi], with weights in [0, 1], lies in [lo, hi] |
| DensityLemmas.AngularTopExactly | src/DensityMapping.hpp:217-227 | for cosines in [0, 1], the polar (azimuthal) index is the last one, 299, exactly when the cosine is 1 |
| DensityLemmas.InterpolateAtNode | src/DensityMapping.hpp:239-281 | on a built table, the lookup at node (s, j, k) returns that node's stored value, and 0 at polar or azimuthal index 299 |
| DensityLemmas.InterpolateDefined | src/DensityMapping.hpp:206-247 | for r in [0, 2] and cosines in [0, 1], all 8 reads fall inside the table (the source only prints when they do not) |
| DensityLemmas.InterpolateBetweenCorners | src/DensityMapping.hpp:233-281 | with the 8 surrounding entries in [lo, hi], the interpolated value lies in [lo, hi], and is 0 at the last polar or azimuthal node |
| DensityLemmas.PolarCosineInside | src/DensityMapping.hpp:206 | for positive r0 and R_0, mu0 = r0 / sqrt(r0^2 + R_0^2) is defined and lies in (0, 1) |
| DensityLemmas.GriddedIntegralDefined | src/DensityMapping.hpp:185-283 | when cos(phi) lies in [0, 1], `gridded_integral` never reads outside the table; mu0 is taken from the unclamped r0 |
| Geometry.FacePlane | src/DensityMapping.hpp:510-551 | the plane fit keeps the first vertex, ar0 = abs(r0) >= 0, and r0 = 0 exactly when the particle lies in the plane of the first three vertices |
| Geometry.EdgeGeometryOf | src/DensityMapping.hpp:554-614 | the distances and R_0 are never negative; R_0 is 0 when cosa is undefined or abs(cosa) >= 1 (error branch included); phi1 is 0 unless R_0 < r12, and phi2 is 0 unless R_0 < r13 |
| Geometry.Offset | src/DensityMapping.hpp:575-587 | R_0 is never negative, and is 0 when cosa is undefined or abs(cosa) >= 1 |
| DensityLemmas.OffsetWithinDistance | src/DensityMapping.hpp:579-580 | R_0 = r12 sqrt(1 - cosa^2) is at most r12 |
| DensityLemmas.WedgeCosines | src/DensityMapping.hpp:597-614 | when phi1 (phi2) is not 0, cos(phi1) = R_0/r12 (cos(phi2) = R_0/r13), which lies in [0, 1) |
| DensityLemmas.EdgeTermDefined | src/DensityMapping.hpp:629-657 | each edge contribution is defined: both wedge integrals are read inside the table |
| DensityLemmas.EdgesMassDefined | src/DensityMapping.hpp:508-659 | the sum over the edges of a face is defined |
| DensityLemmas.CellMassDefined | src/DensityMapping.hpp:488-662 | `mass_contribution` never reads outside a built table: the mass of every cell is defined |
| DensityLemmas.EdgeTermZero | src/DensityMapping.hpp:199-204 | an edge whose face plane contains the particle, or whose R_0 is 0, contributes exactly 0 |
| DensityLemmas.EdgesMassInPlane | src/DensityMapping.hpp:508-659 | when r0 = 0, the edges of a face sum to 0 |
| DensityLemmas.FaceInPlaneMass | src/DensityMapping.hpp:536-658 | a face whose plane contains the particle contributes exactly 0 |
| DensityLemmas.CellMassAppend | src/DensityMapping.hpp:493-499 | the mass of a cell equals the mass of its first faces plus the mass of the rest, for any split of the faces |
| DensityLemmas.SumDefined | src/DensityMapping.hpp:658 | a sum of defined contributions is defined |
| DensityLemmas.SumOfZeros | src/DensityMapping.hpp:658 | a sum of zero contributions is 0 |
| Density.DensityMapping.MassContribution | src/DensityMapping.hpp:488-662 | the result is `CellMass`: the faces' masses summed in face order |
| Density.DensityMapping.FaceContribution | src/DensityMapping.hpp:501-552 | the result for face i is that face's mass, the sum of its edge contributions over the plane through its first three vertices |
| Density.DensityMapping.EdgesContribution | src/DensityMapping.hpp:508-659 | the vertex loop returns the sum of the face's edge contributions, in vertex order |
| Density.DensityMapping.EdgeTerm | src/DensityMapping.hpp:615-656 | the edge term is defined exactly when both wedge integrals are; its magnitude is that of their difference when the foot of the perpendicular lies outside the edge, of their sum otherwise, and only its sign comes from s1 s2 r0 |
| Density.DensityMapping.EdgeContribution | src/DensityMapping.hpp:554-658 | the edge from vertex j to the next, with the last vertex pairing with the first, contributes `EdgeTerm`: +-1 by the sign of s1 s2 r0, times the difference (larger phi minus smaller) when the foot lies outside the edge, else the sum, of the two gridded integrals |
| Density.DensityMapping.EdgesMassIsSum | src/DensityMapping.hpp:508-659 | `EdgesMass` equals the left-to-right sum of the edge contributions listed in vertex order |
| Density.DensityMapping.CellMassIsSum | src/DensityMapping.hpp:499-659 | `CellMass` equals the left-to-right sum of the face masses listed in face order |
| Density.DensityMapping.FaceMassIsSum | src/DensityMapping.hpp:501-659 | the mass of face i equals the sum of its listed edge contributions |
| Trackers.AttachSucceedsIff | src/TrackerManager.hpp:139-151 | `add_trackers` on a plain grid succeeds iff every tracker lies inside the box and lands in a cell without a tracker, and no two trackers land in the same cell |
| Trackers.AttachFailureIsFirst | src/TrackerManager.hpp:140-148 | a failure names the first tracker that cannot be attached: every earlier tracker lies inside the box, in a cell without a tracker, and in a cell of its own; the failure is "not inside" iff the named tracker lies outside the box, and "cell taken" means its cell had a tracker before the call or is the cell of an earlier tracker |
| Trackers.AttachPlacesTrackers | src/TrackerManager.hpp:139-151 | on success tracker k is held by the cell at its position, earlier holders are kept, no other cell gains a tracker, and exactly one cell per tracker is added |
| Trackers.TrackedCellsOnEmptyGrid | src/TrackerManager.hpp:139-151 | on an empty grid, trackers inside the box in pairwise different cells are all attached, giving as many tracked cells as trackers (the unit test expects 3) |
| Trackers.TrackerManager.AddTrackers | src/TrackerManager.hpp:139-151 | the returned status and the cells' new holders are those of `AttachFrom`, the specification of the plain-grid loop |
| Trackers.TrackerManager.AddTrackersToSubgrids | src/TrackerManager.hpp:159-194 | the status, the cells' holders and the three lists are those of `SubAttachFrom`; afterwards the front of `_trackers` is still the factory's trackers, and after a success the bookkeeping is valid |
| Trackers.TrackerManager.AttachTracker | src/TrackerManager.hpp:161-192 | one iteration: the outcome is `SubAttachStep`: not inside, home cell taken, or the copy loop; on success the bookkeeping holds for the trackers up to i |
| Trackers.TrackerManager.AttachCopies | src/TrackerManager.hpp:174-192 | the copy loop's outcome is `CopiesFrom`: a taken copy cell is an error; otherwise each copy appends a duplicate and i, `_copies[i]` becomes the first duplicate's index, and the copy's cell holds the duplicate; the bookkeeping then holds up to i |
| Trackers.TrackerManager.AppendCopyOf | src/TrackerManager.hpp:184-190 | one copy: `_trackers` gains a duplicate of tracker i, `_originals` gains i, and for the first copy `_copies[i]` is the new duplicate's index |
| Trackers.AppendCopyValid | src/TrackerManager.hpp:184-190 | appending a copy of tracker i, first or later, keeps `BooksValid`: `_trackers[N + k]` duplicates `_trackers[_originals[k]]`, `_originals` is non-decreasing, and `_copies[j]` is the sentinel or the first copy of j |
| Trackers.AppendFirstCopyValid | src/TrackerManager.hpp:187-190 | the first copy of tracker i sets `_copies[i]` to a valid first-copy index and keeps the bookkeeping |
| Trackers.AppendLaterCopyValid | src/TrackerManager.hpp:184-186 | a later copy of tracker i keeps the bookkeeping and leaves `_copies` unchanged |
| Trackers.CopiesKeepBooks | src/TrackerManager.hpp:176-192 | a successful copy loop for tracker i extends the bookkeeping from the trackers below i to those up to i |
| Trackers.SubAttachStepKeepsBooks | src/TrackerManager.hpp:160-193 | one successful iteration of the outer loop keeps the bookkeeping, one tracker further on |
| Trackers.SubAttachKeepsBooks | src/TrackerManager.hpp:160-194 | a successful subgrid `add_trackers` leaves `BooksValid` for all trackers |
| Trackers.CopiesContiguous | src/TrackerManager.hpp:160-192 | the copies of each tracker j form one contiguous block of `_originals`, starting at `_copies[j] - N` |
| Trackers.BooksValidUp | src/TrackerManager.hpp:160 | the bookkeeping for the trackers below i holds for any later bound too |
| Trackers.TrackerManager.constructor | src/TrackerManager.hpp:70-105 | one tracker per position at the front of `_trackers`, every `_copies` entry the sentinel, no copies, and the photon count stored |
| Trackers.TrackerManager.GetNumberOfPhotons | src/TrackerManager.hpp:217-219 | returns the value given to the constructor (99 in the unit test) |
| Trackers.TrackerManager.OutputTrackers | src/TrackerManager.hpp:199-210 | with fewer than 2^32 trackers, the events are `OutputEvents`: for each tracker in turn, the merges of all its copies, then its output |
| Trackers.TrackerManager.MergeCopies | src/TrackerManager.hpp:201-207 | the cursor loop from `_copies[i] - N` yields the merges of exactly the copies whose original is i, in index order; none for the sentinel |
| Trackers.OutputMergesEachCopyOnce | src/TrackerManager.hpp:199-210 | the merges `output_trackers` performs are the copies in index order, each merged once, into its original |
| Trackers.MergesBelowAll | src/TrackerManager.hpp:199-210 | when every original is below i, the merges of the copies with an original below i are Merge(_originals[k], N + k) for every copy k, in index order |
| Trackers.SentinelMeansNoMerge | src/TrackerManager.hpp:201 | a tracker whose `_copies` entry is the sentinel has no copy to merge |
| Trackers.MergesAfterBlock | src/TrackerManager.hpp:203-206 | once the block of i's copies has ended, no later copy belongs to i, so the cursor loop may stop |
| Trackers.MergesBelowStep | src/TrackerManager.hpp:200-206 | with non-decreasing originals, the merges for the trackers below i + 1 are those below i followed by those of i |

## Left out

- `full_integral` (src/DensityMapping.hpp:299-476) is not part of this model. `gridding` stores `nodeIntegral(r0, mu0, cphi)`, a function of the node's coordinates passed as a parameter. This also sidesteps the mu0 = 0 division on line 72.
- Real numbers stand for doubles: rounding, NaN and infinities are not modelled. A division the source leaves undefined, such as cosa with r12 = 0 or r23 = 0, or a zero root in mu0, is an `Option` value. An undefined cosa takes the error branch, so R_0 = 0.
- The maths functions `sqrt`, `cos`, `acos` and `sin` are parameters: only nonnegativity of `sqrt` is built in. The proofs that need more assume `SqrtPositive` or `Sound`: a positive root of a positive number, the square of a root, and cos inverting acos.
- Reads outside the table are undefined behaviour in the source, which only prints the indices. The model returns `None` for them, and `InterpolateDefined`, `GriddedIntegralDefined` and `CellMassDefined` show that they do not happen.
- `printf` diagnostics are left out.
- `Cell`, `Face` and `CoordinateVector` are replaced by sequences of faces and faces as sequences of points. A face must have at least three vertices whose first three are not collinear, the case where the plane fit divides by a nonzero norm.
- `Density.DensityMapping.FaceContribution`: the plane is fitted just before the vertex loop rather than inside its first iteration. It is computed from the same vertices and used by every edge.
- The full-integral path of `mass_contribution` (`is_pre_computed` is constant true) is left out.
- The constructor's file reading, YAML parsing, `TrackerFactory` and the `.used-values` output (src/TrackerManager.hpp:74-104) are left out. The constructor takes the positions and output names, and the factory's tracker for block i is `Made(i)`. The `ParameterFile` constructor (119-123) only forwards to it.
- The destructor (128-132) and ordinary memory management are left out.
- `Tracker::duplicate`, `merge` and `output_tracker` are unseen. A duplicate is the value `Duplicate(t)`, and a merge or output is an event in the result of `OutputTrackers`.
- `cmac_error` ends the program. The model returns a `Failed` status naming the tracker and the reason, and says nothing about the state after a failure beyond the returned status and the trackers at the front of the list.
- `Trackers.TrackerManager.AddTrackersToSubgrids`: modelled for a single call on a fresh manager, so it requires that no copy exists yet. A second call would reuse `_copies` entries already set, and that case is not modelled.
- `Trackers.TrackerManager.OutputTrackers` and `Trackers.TrackerManager.MergeCopies`: say nothing once there are 2^32 or more trackers. At that point a real copy index can equal the sentinel `0xffffffff`.
- The `uint_fast32_t` loop counters and counts are unbounded integers. More than 2^32 trackers is outside the model, and `_number_of_photons` is a natural number below 2^64.
- src/VoronoiDensityGrid.cpp, src/EmissivityCalculator.cpp and the tests other than test/testTrackerManager.cpp are not part of this model.
