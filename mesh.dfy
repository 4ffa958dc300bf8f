/**
 * The mesh and the routines of the script that read or tag its points.
 *
 * A mesh is reduced to what the region code touches: its point list, its
 * cell count and its optional "Colors" point-data array. The numeric results
 * of the geometry and linear-algebra libraries are passed in as functions.
 */
module Mesh {
  import opened Wrappers
  import opened Colors
  import opened Regions

  /** The error the script raises. */
  datatype Error = ValueError(message: string)

  const NoColorsMessage: string := "No Colors array found!"
  const NoColorsInPointDataMessage: string := "No Colors array found in PointData."

  /** The principal-axes record of one region, as numpy returns it. */
  datatype Axes = Axes(eigenvalues: seq<real>, eigenvectors: seq<seq<real>>, meanPosition: seq<real>)

  /** A text label of one region: the anchor point index, its offset distance and the volume shown. */
  datatype Label = Label(anchor: nat, offset: int, volume: real)

  /** A surface mesh: points, a cell count and, once tagged, a "Colors" array. */
  class PolyData {
    var points: seq<Point>
    var cellCount: nat
    var colors: Option<seq<Rgb>>

    constructor (points: seq<Point>, cellCount: nat, colors: Option<seq<Rgb>>)
      ensures this.points == points && this.cellCount == cellCount && this.colors == colors
    {
      this.points := points;
      this.cellCount := cellCount;
      this.colors := colors;
    }

    /** The colour of point i is at index i of the "Colors" array, which is never shorter than the point list. */
    predicate ColorsCoverPoints()
      reads this
    {
      colors.Some? ==> |points| <= |colors.value|
    }

    /**
     * assign_hemisphere_colors: attach a "Colors" array with one entry per
     * point, all red for the left hemisphere, all blue for the right one.
     */
    method AssignHemisphereColors(isLeft: bool)
      modifies this`colors
      ensures points == old(points) && cellCount == old(cellCount)
      ensures colors == Some(Uniform(|points|, HemisphereColor(isLeft)))
      ensures ColorsCoverPoints()
    {
      var colorArray: seq<Rgb> := [];
      var i := 0;
      while i < |points|
        invariant 0 <= i <= |points|
        invariant |colorArray| == i
        invariant forall k :: 0 <= k < i ==> colorArray[k] == HemisphereColor(isLeft)
      {
        var color := HemisphereColor(isLeft);
        colorArray := colorArray + [color];
        i := i + 1;
      }
      assert colorArray == Uniform(|points|, HemisphereColor(isLeft));
      colors := Some(colorArray);
    }
  }

  /**
   * combine_polydata, under the assumption that vtkAppendPolyData
   * concatenates: the first mesh's points and cells, then the second's; the
   * "Colors" array survives only when both inputs carry one.
   */
  method CombinePolyData(first: PolyData, second: PolyData) returns (combined: PolyData)
    ensures fresh(combined)
    ensures combined.points == first.points + second.points
    ensures combined.cellCount == first.cellCount + second.cellCount
    ensures combined.colors ==
              if first.colors.Some? && second.colors.Some?
              then Some(first.colors.value + second.colors.value)
              else None
  {
    var colors := if first.colors.Some? && second.colors.Some?
                  then Some(first.colors.value + second.colors.value)
                  else None;
    combined := new PolyData(first.points + second.points, first.cellCount + second.cellCount, colors);
  }

  /**
   * compute_region_statistics: fails without a "Colors" array; otherwise one
   * entry per distinct colour, counting the points of exactly that colour,
   * with the mesh-wide cell count.
   */
  method ComputeRegionStatistics(mesh: PolyData) returns (r: Result<map<Rgb, RegionStats>, Error>)
    requires mesh.ColorsCoverPoints()
    ensures mesh.colors.None? ==> r == Err(ValueError(NoColorsMessage))
    ensures mesh.colors.Some? ==> r == Ok(RegionStatistics(mesh.points, mesh.colors.value, mesh.cellCount))
  {
    if mesh.colors.None? {
      return Err(ValueError(NoColorsMessage));
    }
    var scalars := mesh.colors.value;
    var uniqueColors := set i | 0 <= i < |scalars| :: scalars[i];
    var stats: map<Rgb, RegionStats> := map[];
    var remaining := uniqueColors;
    while remaining != {}
      invariant remaining <= uniqueColors
      invariant stats.Keys == uniqueColors - remaining
      invariant forall c :: c in stats ==>
                  stats[c] == RegionStats(multiset(scalars[..|mesh.points|])[c], mesh.cellCount)
      decreases remaining
    {
      var color :| color in remaining;
      var points := Select(mesh.points, scalars, color);
      SelectSize(mesh.points, scalars, color);
      stats := stats[color := RegionStats(|points|, mesh.cellCount)];
      remaining := remaining - {color};
    }
    assert stats == RegionStatistics(mesh.points, scalars, mesh.cellCount);
    r := Ok(stats);
  }

  /**
   * The loop shared by the volume, area and principal-axes routines: the
   * points whose colour equals the region key, in index order.
   */
  method FilterRegion(mesh: PolyData, scalars: seq<Rgb>, color: Rgb) returns (selected: seq<Point>)
    requires |mesh.points| <= |scalars|
    ensures selected == Select(mesh.points, scalars, color)
  {
    selected := [];
    var i := 0;
    while i < |mesh.points|
      invariant 0 <= i <= |mesh.points|
      invariant selected == Select(mesh.points[..i], scalars, color)
    {
      assert mesh.points[..i + 1][..i] == mesh.points[..i];
      if scalars[i] == color {
        selected := selected + [mesh.points[i]];
      }
      i := i + 1;
    }
    assert mesh.points[..i] == mesh.points;
  }

  /**
   * The volume of one region: 0.0 for an empty selection, otherwise what
   * vtkMassProperties reports, or 0.0 when it raises (None).
   */
  function RegionVolume(selected: seq<Point>, massVolume: seq<Point> -> Option<real>): real
  {
    if |selected| == 0 then 0.0
    else match massVolume(selected)
      case Some(v) => v
      case None => 0.0
  }

  /** The volumes of the routine: one per key of the statistics passed in. */
  function RegionVolumes(points: seq<Point>, colors: seq<Rgb>, keys: set<Rgb>,
                         massVolume: seq<Point> -> Option<real>): (v: map<Rgb, real>)
    requires |points| <= |colors|
    ensures v.Keys == keys
    ensures forall c :: c in keys && Select(points, colors, c) == [] ==> v[c] == 0.0
  {
    map c | c in keys :: RegionVolume(Select(points, colors, c), massVolume)
  }

  /** calculate_region_volumes_explicit_filtering. */
  method CalculateRegionVolumes(mesh: PolyData, regionStats: map<Rgb, RegionStats>,
                                massVolume: seq<Point> -> Option<real>)
    returns (r: Result<map<Rgb, real>, Error>)
    requires mesh.ColorsCoverPoints()
    ensures mesh.colors.None? ==> r == Err(ValueError(NoColorsMessage))
    ensures mesh.colors.Some? ==>
              r == Ok(RegionVolumes(mesh.points, mesh.colors.value, regionStats.Keys, massVolume))
  {
    if mesh.colors.None? {
      return Err(ValueError(NoColorsMessage));
    }
    var scalars := mesh.colors.value;
    var volumes: map<Rgb, real> := map[];
    var remaining := regionStats.Keys;
    while remaining != {}
      invariant remaining <= regionStats.Keys
      invariant volumes.Keys == regionStats.Keys - remaining
      invariant forall c :: c in volumes ==>
                  volumes[c] == RegionVolume(Select(mesh.points, scalars, c), massVolume)
      decreases remaining
    {
      var color :| color in remaining;
      remaining := remaining - {color};
      var points := FilterRegion(mesh, scalars, color);
      if |points| == 0 {
        volumes := volumes[color := 0.0];
        continue;
      }
      var volume := massVolume(points);
      match volume
      case Some(v) => volumes := volumes[color := v];
      case None => volumes := volumes[color := 0.0];
    }
    assert volumes == RegionVolumes(mesh.points, scalars, regionStats.Keys, massVolume);
    r := Ok(volumes);
  }

  /**
   * The surface area of one region: 0.0 when the tessellated boundary has no
   * cells, otherwise what vtkMassProperties reports, or 0.0 when it raises.
   */
  function RegionArea(selected: seq<Point>, boundaryCells: seq<Point> -> nat,
                      massArea: seq<Point> -> Option<real>): real
  {
    if boundaryCells(selected) == 0 then 0.0
    else match massArea(selected)
      case Some(a) => a
      case None => 0.0
  }

  /** The areas of the routine: one per key of the statistics passed in. */
  function RegionAreas(points: seq<Point>, colors: seq<Rgb>, keys: set<Rgb>,
                       boundaryCells: seq<Point> -> nat, massArea: seq<Point> -> Option<real>): (a: map<Rgb, real>)
    requires |points| <= |colors|
    ensures a.Keys == keys
    ensures forall c :: c in keys && boundaryCells(Select(points, colors, c)) == 0 ==> a[c] == 0.0
  {
    map c | c in keys :: RegionArea(Select(points, colors, c), boundaryCells, massArea)
  }

  /** calculate_region_surface_areas. */
  method CalculateRegionSurfaceAreas(mesh: PolyData, regionStats: map<Rgb, RegionStats>,
                                     boundaryCells: seq<Point> -> nat, massArea: seq<Point> -> Option<real>)
    returns (r: Result<map<Rgb, real>, Error>)
    requires mesh.ColorsCoverPoints()
    ensures mesh.colors.None? ==> r == Err(ValueError(NoColorsInPointDataMessage))
    ensures mesh.colors.Some? ==>
              r == Ok(RegionAreas(mesh.points, mesh.colors.value, regionStats.Keys, boundaryCells, massArea))
  {
    if mesh.colors.None? {
      return Err(ValueError(NoColorsInPointDataMessage));
    }
    var scalars := mesh.colors.value;
    var areas: map<Rgb, real> := map[];
    var remaining := regionStats.Keys;
    while remaining != {}
      invariant remaining <= regionStats.Keys
      invariant areas.Keys == regionStats.Keys - remaining
      invariant forall c :: c in areas ==>
                  areas[c] == RegionArea(Select(mesh.points, scalars, c), boundaryCells, massArea)
      decreases remaining
    {
      var color :| color in remaining;
      remaining := remaining - {color};
      var points := FilterRegion(mesh, scalars, color);
      if boundaryCells(points) == 0 {
        areas := areas[color := 0.0];
        continue;
      }
      var area := massArea(points);
      match area
      case Some(a) => areas := areas[color := a];
      case None => areas := areas[color := 0.0];
    }
    assert areas == RegionAreas(mesh.points, scalars, regionStats.Keys, boundaryCells, massArea);
    r := Ok(areas);
  }

  /** The principal axes of the routine: one per key whose selection is not empty. */
  function RegionAxes(points: seq<Point>, colors: seq<Rgb>, keys: set<Rgb>,
                      eigen: seq<Point> -> Axes): (m: map<Rgb, Axes>)
    requires |points| <= |colors|
    ensures forall c :: c in m <==> c in keys && Select(points, colors, c) != []
    ensures forall c :: c in m ==> m[c] == eigen(Select(points, colors, c))
  {
    map c | c in keys && Select(points, colors, c) != [] :: eigen(Select(points, colors, c))
  }

  /** calculate_principal_axes: regions with no points get no entry. */
  method CalculatePrincipalAxes(mesh: PolyData, regionStats: map<Rgb, RegionStats>,
                                eigen: seq<Point> -> Axes)
    returns (r: Result<map<Rgb, Axes>, Error>)
    requires mesh.ColorsCoverPoints()
    ensures mesh.colors.None? ==> r == Err(ValueError(NoColorsInPointDataMessage))
    ensures mesh.colors.Some? ==>
              r == Ok(RegionAxes(mesh.points, mesh.colors.value, regionStats.Keys, eigen))
  {
    if mesh.colors.None? {
      return Err(ValueError(NoColorsInPointDataMessage));
    }
    var scalars := mesh.colors.value;
    var axes: map<Rgb, Axes> := map[];
    var remaining := regionStats.Keys;
    while remaining != {}
      invariant remaining <= regionStats.Keys
      invariant forall c :: c in axes <==>
                  c in regionStats.Keys - remaining && Select(mesh.points, scalars, c) != []
      invariant forall c :: c in axes ==> axes[c] == eigen(Select(mesh.points, scalars, c))
      decreases remaining
    {
      var color :| color in remaining;
      remaining := remaining - {color};
      var points := FilterRegion(mesh, scalars, color);
      if |points| == 0 {
        continue;
      }
      axes := axes[color := eigen(points)];
    }
    assert axes == RegionAxes(mesh.points, scalars, regionStats.Keys, eigen);
    r := Ok(axes);
  }

  /** The labels of the routine: one per volume entry whose region has a point. */
  function Labels(colors: seq<Rgb>, n: nat, volumes: map<Rgb, real>, offsets: map<Rgb, int>): (m: map<Rgb, Label>)
    requires n <= |colors|
    ensures forall c :: c in m ==> c in volumes && Anchor(colors, n, c).Some?
    ensures forall c :: c in m ==>
              m[c] == Label(Anchor(colors, n, c).value, OffsetFor(offsets, c), volumes[c])
    ensures forall c :: c in volumes && c !in m ==> Anchor(colors, n, c) == None
  {
    map c | c in volumes && Anchor(colors, n, c).Some? ::
      Label(Anchor(colors, n, c).value, OffsetFor(offsets, c), volumes[c])
  }

  /**
   * add_custom_labels, taking as mesh the output of the normals filter: the
   * text actors it would add, one per region of the volume map that has a
   * point, anchored at its first point.
   */
  method AddCustomLabels(mesh: PolyData, regionVolumes: map<Rgb, real>, regionOffsets: map<Rgb, int>)
    returns (r: Result<map<Rgb, Label>, Error>)
    requires mesh.ColorsCoverPoints()
    ensures mesh.colors.None? ==> r == Err(ValueError(NoColorsMessage))
    ensures mesh.colors.Some? ==>
              r == Ok(Labels(mesh.colors.value, |mesh.points|, regionVolumes, regionOffsets))
  {
    if mesh.colors.None? {
      return Err(ValueError(NoColorsMessage));
    }
    var scalars := mesh.colors.value;
    var n := |mesh.points|;
    var labels: map<Rgb, Label> := map[];
    var remaining := regionVolumes.Keys;
    while remaining != {}
      invariant remaining <= regionVolumes.Keys
      invariant forall c :: c in labels <==>
                  c in regionVolumes.Keys - remaining && Anchor(scalars, n, c).Some?
      invariant forall c :: c in labels ==>
                  labels[c] == Label(Anchor(scalars, n, c).value, OffsetFor(regionOffsets, c), regionVolumes[c])
      decreases remaining
    {
      var color :| color in remaining;
      remaining := remaining - {color};
      var anchor := Anchor(scalars, n, color);
      if anchor.None? {
        continue;
      }
      var baseIndex := anchor.value;
      var offsetDistance := OffsetFor(regionOffsets, color);
      labels := labels[color := Label(baseIndex, offsetDistance, regionVolumes[color])];
    }
    assert labels == Labels(scalars, n, regionVolumes, regionOffsets);
    r := Ok(labels);
  }

  /** A region whose count is 0 has volume 0.0. */
  lemma EmptyRegionVolume(points: seq<Point>, colors: seq<Rgb>, cells: nat, c: Rgb,
                          massVolume: seq<Point> -> Option<real>)
    requires |points| <= |colors|
    requires c in RegionStatistics(points, colors, cells)
    requires RegionStatistics(points, colors, cells)[c].points == 0
    ensures RegionVolumes(points, colors, RegionStatistics(points, colors, cells).Keys, massVolume)[c] == 0.0
  {
    SelectSize(points, colors, c);
  }

  /** Principal axes are computed exactly for the regions whose count is positive. */
  lemma AxesOfCountedRegions(points: seq<Point>, colors: seq<Rgb>, cells: nat, eigen: seq<Point> -> Axes, c: Rgb)
    requires |points| <= |colors|
    ensures var stats := RegionStatistics(points, colors, cells);
            c in RegionAxes(points, colors, stats.Keys, eigen) <==> c in stats && stats[c].points > 0
  {
    SelectSize(points, colors, c);
  }

  /** With one colour per point, no region is skipped by the principal axes. */
  lemma AxesCoverAllRegions(points: seq<Point>, colors: seq<Rgb>, cells: nat, eigen: seq<Point> -> Axes)
    requires |points| == |colors|
    ensures var stats := RegionStatistics(points, colors, cells);
            RegionAxes(points, colors, stats.Keys, eigen).Keys == stats.Keys
  {
    var stats := RegionStatistics(points, colors, cells);
    forall c | c in stats
      ensures c in RegionAxes(points, colors, stats.Keys, eigen)
    {
      StatisticsCountsPositive(points, colors, cells, c);
      AxesOfCountedRegions(points, colors, cells, eigen, c);
    }
  }
}
