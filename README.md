# Colour-tagged brain-hemisphere regions

The script loads two hemisphere surface meshes. It tags every point of the
left one red `(255,0,0)` and every point of the right one blue `(0,0,255)`,
appends the meshes and groups the points into regions by their exact colour
tuple. For each region it then reports:

- point and cell counts;
- a volume and a surface area;
- principal axes;
- a text label anchored at the region's first point.

Everything else in the script passes data between VTK filters.

This project models the region bookkeeping and proves its properties. A mesh
is reduced to three parts:

- its point list (`Regions.Point`, carried but never inspected);
- its cell count;
- its optional "Colors" point-data array, a sequence of `Colors.Rgb` triples of bytes.

Modules:

- `Wrappers`: `Option` and `Result`.
- `Colors`: the byte type, the colour tuple, the four named colours and the hemisphere colour.
- `Regions`: the pure specification.
  - `Indices` gives the matching indices of a colour.
  - `Select` is the per-region point filter.
  - `RegionStatistics` gives the statistics map.
  - `Anchor` gives the label anchor. `OffsetFor` gives the offset lookup, with its default of 20.
  - The lemmas cover counting, the partition of the indices, the sum of the counts and the anchor.
- `Mesh`: `PolyData` is a class whose colouring method attaches the "Colors" array in place. Beside it are the script's routines as methods:
  - computing the statistics;
  - the shared colour filter loop;
  - volumes, surface areas and principal axes;
  - labels.

  Each routine is proved equal to a function of the mesh's values. All of them model the missing-array error as `Err(ValueError(...))`, with the script's own message.
- `Pipeline`: the main block.
  - Tagging, appending and classifying the two hemispheres.
  - The offset table and the region-name table with its "Unknown" fallback.
  - The end-to-end statements. An n-point left mesh and an m-point right mesh give red → n and blue → m, red indices `0..n-1` and blue indices `n..n+m-1`. The red label sits at point 0 with offset 60, the blue one at point n with offset 70.

The numeric results of the libraries are parameters of the routines:

- `vtkMassProperties` volume and area;
- the number of boundary cells after `vtkDelaunay3D` and `vtkGeometryFilter`;
- numpy's mean, covariance and eigen-decomposition.

A library call that raises inside the script's `try` is modelled as `None`, which the script turns into 0.0.

The model follows the code on these points:

- The unique colours come from a Python set, so the regions have no defined order. The model uses a map.
- The unique colours are taken over every tuple of the colour array, but a colour is counted only over the first `GetNumberOfPoints()` indices. A colour array longer than the point list therefore gives regions whose count is 0 (`Regions.StatisticsCountMayBeZero`). "At least one point per region" and "the counts sum to the point count" are proved for a colour array with one entry per point.
- The surface-area routine has no empty-selection branch. It returns 0.0 when the tessellated boundary has no cells, whatever the number of points.
- Colouring a mesh with no points attaches an empty array. It does not fail.

## Model

| member | source | states |
|---|---|---|
| Mesh.PolyData.AssignHemisphereColors | sourcecode.py:172-182 | the "Colors" array has one entry per point, all `(255,0,0)` when `isLeft`, else all `(0,0,255)`; points and cell count are unchanged |
| Mesh.CombinePolyData | sourcecode.py:188-195 | assumed append: the first mesh's points then the second's, cell counts added, colours concatenated when both meshes carry them |
| Mesh.ComputeRegionStatistics | sourcecode.py:201-225 | fails with "No Colors array found!" when the array is missing, otherwise returns exactly `RegionStatistics` of the mesh |
| Regions.StatisticsKeys | sourcecode.py:208-211 | a colour is a key exactly when some tuple of the colour array equals it |
| Regions.StatisticsCountsMatches | sourcecode.py:213-223 | a region's "Points" is the number of indices below the point count whose colour equals the key exactly, and the length of the filtered point list; "Cells" is the mesh-wide cell count |
| Regions.StatisticsCountsPositive | sourcecode.py:208-221 | with one colour per point every region counts at least one point |
| Regions.StatisticsCountMayBeZero | sourcecode.py:208-218 | with a colour array longer than the point list, a colour seen only past the last point is a key with count 0 |
| Regions.StatisticsTotal | sourcecode.py:213-223 | with one colour per point the counts over all keys sum to the point count |
| Regions.RegionsPartitionIndices | sourcecode.py:213-218 | every point index is in the region of its own colour and in no other region |
| Regions.Indices | sourcecode.py:214-218 | the matching indices are in range, carry the key's colour and are strictly ascending |
| Regions.IndicesComplete | sourcecode.py:214-218 | no index of the key's colour is missed |
| Regions.IndicesCount | sourcecode.py:214-221 | the number of matching indices equals the number of occurrences of the colour |
| Regions.SelectByIndices | sourcecode.py:276-279 | the filtered points are the points at the matching indices, in original index order |
| Regions.SelectSize | sourcecode.py:276-279 | the filtered list is as long as the colour's occurrence count among the first point-count entries |
| Mesh.FilterRegion | sourcecode.py:552-556 | the loop shared by the three region routines returns exactly `Select` of the mesh's points for the key |
| Mesh.RegionVolumes | sourcecode.py:275-297 | one volume per statistics key; an empty selection gives 0.0 |
| Mesh.CalculateRegionVolumes | sourcecode.py:268-298 | fails with "No Colors array found!" when the array is missing, otherwise returns `RegionVolumes` of the filtered points |
| Mesh.EmptyRegionVolume | sourcecode.py:284-287 | a region whose count is 0 gets volume 0.0 |
| Mesh.RegionAreas | sourcecode.py:505-537 | one area per statistics key; a tessellated boundary without cells gives 0.0 |
| Mesh.CalculateRegionSurfaceAreas | sourcecode.py:499-538 | fails with "No Colors array found in PointData." when the array is missing, otherwise returns `RegionAreas` of the filtered points |
| Mesh.RegionAxes | sourcecode.py:551-572 | a key gets principal axes exactly when its selection is not empty, computed from that selection |
| Mesh.CalculatePrincipalAxes | sourcecode.py:544-574 | fails with "No Colors array found in PointData." when the array is missing, otherwise returns `RegionAxes` of the filtered points |
| Mesh.AxesOfCountedRegions | sourcecode.py:558-560 | with statistics of the same mesh, a region gets axes exactly when its count is positive |
| Mesh.AxesCoverAllRegions | sourcecode.py:551-560 | with one colour per point no region is skipped by the principal axes |
| Regions.AnchorIsFirstMatch | sourcecode.py:317-326 | the anchor is an index of the region's colour with no earlier index of that colour; a region without a point has no anchor |
| Mesh.Labels | sourcecode.py:316-329 | a volume entry gets a label only when its region has an anchor; the label carries the anchor, the table's offset or 20, and the volume |
| Mesh.AddCustomLabels | sourcecode.py:304-338 | fails with "No Colors array found!" when the array is missing, otherwise returns `Labels` of the mesh |
| Pipeline.RegionName | sourcecode.py:657-662 | the four listed colours map to their names and every other colour to "Unknown" |
| Pipeline.HemisphereOccurrences | sourcecode.py:597-602 | the appended hemisphere colours hold red n times, blue m times and nothing else |
| Pipeline.CombinedHemisphereStatistics | sourcecode.py:597-608 | appending n red and m blue points gives the statistics red → n, blue → m (each only when non-zero), both with the combined cell count |
| Pipeline.HemisphereRegionIndices | sourcecode.py:597-608 | the red region is indices `0..n-1` and the blue region is `n..n+m-1` |
| Pipeline.SplitAnchors | sourcecode.py:317-326 | in an array that is red up to n and blue after, red is anchored at 0, blue at n and no other colour at all |
| Pipeline.HemisphereLabels | sourcecode.py:626-633 | with the main block's offset table, the red label sits at point 0 with offset 60 and the blue at point n with offset 70, and no other label exists |
| Pipeline.HemisphereRegionStatistics | sourcecode.py:593-608 | tagging, appending and classifying a loaded left and right mesh yields exactly the red/blue statistics above |

## Left out

- File I/O with VTK readers and writers, and the try/except around the PLY export. These are foreign calls on hard-coded paths.
- Marching cubes, smoothing, the identity transform and the internals of `vtkAppendPolyData`. These are native library algorithms. `CombinePolyData` assumes that append concatenates.
- The volume and area values of `vtkMassProperties` and the Delaunay/geometry-filter tessellation. These are foreign floating-point computations and are passed in as functions. Only the script's own 0.0 branches are modelled.
- Mean, covariance and `eigh` in the principal-axes routine. This is numpy floating-point linear algebra, passed in as a function.
- Mesh.AddCustomLabels: does not compute the label position (`base + offset * normal`), the label text or the text actor. These are float vector arithmetic and VTK rendering. It returns the anchor index, the offset distance and the volume of each label. The mesh passed in stands for the output of `vtkPolyDataNormals`, which is assumed to keep the points and the "Colors" array. Its edge splitting is not modelled.
- Rendering, slicing and isoline code. This is interactive UI and library filters.
- `inspect_colors` (called in the main block) is not part of this model. The script never defines it; as written, the main block stops there with a NameError; the model treats the call as absent.
- The progress and warning prints of the routines and the main block, which are console output only, and the default `is_left=True` of the colouring routine, which every call site passes explicitly.
- Point coordinates are `real` values that are only carried, never computed on. The colour components are integers 0..255, the range of an unsigned char array.
- A colour array shorter than the point list is outside the model. The script would read past the end of the array, so every routine requires the array to be at least as long as the point list.
