/**
 * Colour-tagged regions over a point array, as values.
 *
 * A region is the set of point indices whose colour tuple equals a key exactly.
 * The functions here specify what the imperative routines of module Mesh
 * compute, and the lemmas state what the script relies on: counting, the
 * partition of the indices, the per-region selection and the label anchor.
 */
module Regions {
  import opened Wrappers
  import opened Colors

  /** A mesh point. Its coordinates are only carried, never inspected. */
  datatype Point = Point(x: real, y: real, z: real)

  /** One entry of the region statistics: "Points" and "Cells". */
  datatype RegionStats = RegionStats(points: nat, cells: nat)

  /** The indices i < |s| with s[i] == c, in ascending order. */
  function Indices(s: seq<Rgb>, c: Rgb): (r: seq<nat>)
    ensures forall k :: 0 <= k < |r| ==> r[k] < |s| && s[r[k]] == c
    ensures forall k, l :: 0 <= k < l < |r| ==> r[k] < r[l]
    decreases |s|
  {
    if |s| == 0 then []
    else
      var n := |s| - 1;
      var init := s[..n];
      assert forall i :: 0 <= i < n ==> init[i] == s[i];
      Indices(init, c) + (if s[n] == c then [n] else [])
  }

  /** Indices drops no index of colour c. */
  lemma {:induction false} IndicesComplete(s: seq<Rgb>, c: Rgb)
    ensures forall i :: 0 <= i < |s| && s[i] == c ==> i in Indices(s, c)
    decreases |s|
  {
    if |s| > 0 {
      var n := |s| - 1;
      var init := s[..n];
      IndicesComplete(init, c);
      assert forall i :: 0 <= i < n ==> init[i] == s[i];
      assert Indices(s, c) == Indices(init, c) + (if s[n] == c then [n] else []);
    }
  }

  /** Indices lists as many indices as there are occurrences of c. */
  lemma {:induction false} IndicesCount(s: seq<Rgb>, c: Rgb)
    ensures |Indices(s, c)| == multiset(s)[c]
    decreases |s|
  {
    if |s| > 0 {
      var n := |s| - 1;
      var init := s[..n];
      IndicesCount(init, c);
      assert s == init + [s[n]];
      assert multiset(s) == multiset(init) + multiset{s[n]};
    }
  }

  /**
   * The points, in their original order, whose colour equals c. Colour i
   * belongs to point i; only the first |points| colours are looked at.
   */
  function Select(points: seq<Point>, colors: seq<Rgb>, c: Rgb): (r: seq<Point>)
    requires |points| <= |colors|
    decreases |points|
  {
    if |points| == 0 then []
    else
      var n := |points| - 1;
      Select(points[..n], colors, c) + (if colors[n] == c then [points[n]] else [])
  }

  /** The matching indices below n + 1: those below n, then n itself when it matches. */
  lemma IndicesSnoc(colors: seq<Rgb>, n: nat, c: Rgb)
    requires n < |colors|
    ensures Indices(colors[..n + 1], c) == Indices(colors[..n], c) + (if colors[n] == c then [n] else [])
  {
    assert colors[..n + 1][..n] == colors[..n];
  }

  /** The selection has one point per matching index. */
  lemma {:induction false} SelectLength(points: seq<Point>, colors: seq<Rgb>, c: Rgb)
    requires |points| <= |colors|
    ensures |Select(points, colors, c)| == |Indices(colors[..|points|], c)|
    decreases |points|
  {
    if |points| > 0 {
      var n := |points| - 1;
      SelectLength(points[..n], colors, c);
      IndicesSnoc(colors, n, c);
    }
  }

  /** The k-th selected point is the point at the k-th matching index. */
  lemma {:induction false} SelectAt(points: seq<Point>, colors: seq<Rgb>, c: Rgb, k: nat)
    requires |points| <= |colors|
    requires k < |Select(points, colors, c)|
    ensures k < |Indices(colors[..|points|], c)|
    ensures Select(points, colors, c)[k] == points[Indices(colors[..|points|], c)[k]]
    decreases |points|
  {
    SelectLength(points, colors, c);
    var n := |points| - 1;
    var init := points[..n];
    SelectLength(init, colors, c);
    IndicesSnoc(colors, n, c);
    if k < |Select(init, colors, c)| {
      SelectAt(init, colors, c, k);
    }
  }

  /** The selection is the points at the matching indices, in index order. */
  lemma SelectByIndices(points: seq<Point>, colors: seq<Rgb>, c: Rgb)
    requires |points| <= |colors|
    ensures |Select(points, colors, c)| == |Indices(colors[..|points|], c)|
    ensures forall k :: 0 <= k < |Select(points, colors, c)| ==>
              Select(points, colors, c)[k] == points[Indices(colors[..|points|], c)[k]]
  {
    SelectLength(points, colors, c);
    forall k | 0 <= k < |Select(points, colors, c)|
      ensures Select(points, colors, c)[k] == points[Indices(colors[..|points|], c)[k]]
    {
      SelectAt(points, colors, c, k);
    }
  }

  /** The selection holds as many points as the first |points| colours hold c. */
  lemma SelectSize(points: seq<Point>, colors: seq<Rgb>, c: Rgb)
    requires |points| <= |colors|
    ensures |Select(points, colors, c)| == multiset(colors[..|points|])[c]
  {
    SelectLength(points, colors, c);
    IndicesCount(colors[..|points|], c);
  }

  /**
   * compute_region_statistics: one entry per distinct colour of the whole
   * colour array; "Points" counts the matching indices below the point count,
   * "Cells" is the mesh-wide cell count.
   */
  function RegionStatistics(points: seq<Point>, colors: seq<Rgb>, cells: nat): map<Rgb, RegionStats>
    requires |points| <= |colors|
  {
    map c | c in colors :: RegionStats(multiset(colors[..|points|])[c], cells)
  }

  /** The keys are exactly the colour tuples that occur in the array. */
  lemma StatisticsKeys(points: seq<Point>, colors: seq<Rgb>, cells: nat, c: Rgb)
    requires |points| <= |colors|
    ensures c in RegionStatistics(points, colors, cells) <==> exists i :: 0 <= i < |colors| && colors[i] == c
  {
  }

  /** "Points" of a region is the number of indices with exactly that colour. */
  lemma StatisticsCountsMatches(points: seq<Point>, colors: seq<Rgb>, cells: nat, c: Rgb)
    requires |points| <= |colors|
    requires c in RegionStatistics(points, colors, cells)
    ensures RegionStatistics(points, colors, cells)[c].points == |Indices(colors[..|points|], c)|
    ensures RegionStatistics(points, colors, cells)[c].points == |Select(points, colors, c)|
    ensures RegionStatistics(points, colors, cells)[c].cells == cells
  {
    SelectSize(points, colors, c);
    IndicesCount(colors[..|points|], c);
  }

  /** With one colour per point, every region holds at least one point. */
  lemma StatisticsCountsPositive(points: seq<Point>, colors: seq<Rgb>, cells: nat, c: Rgb)
    requires |points| == |colors|
    requires c in RegionStatistics(points, colors, cells)
    ensures RegionStatistics(points, colors, cells)[c].points >= 1
  {
    assert colors[..|points|] == colors;
  }

  /**
   * With a colour array longer than the point list, a colour that only occurs
   * past the last point is still a key, with a count of 0.
   */
  lemma StatisticsCountMayBeZero(points: seq<Point>, colors: seq<Rgb>, cells: nat, c: Rgb)
    requires |points| <= |colors|
    requires c in colors && c !in colors[..|points|]
    ensures c in RegionStatistics(points, colors, cells)
    ensures RegionStatistics(points, colors, cells)[c].points == 0
  {
  }

  /** Such a colour exists: one point, colours red then blue, and blue has count 0. */
  lemma StatisticsCountZeroWitness()
    ensures var stats := RegionStatistics([Point(0.0, 0.0, 0.0)], [Red, Blue], 0);
            Blue in stats && stats[Blue].points == 0
  {
    var colors := [Red, Blue];
    assert colors[1] == Blue;
    assert colors[..1] == [Red];
    StatisticsCountMayBeZero([Point(0.0, 0.0, 0.0)], colors, 0, Blue);
  }

  /** Every index below the point count lies in the region of its own colour and in no other. */
  lemma RegionsPartitionIndices(points: seq<Point>, colors: seq<Rgb>, i: nat)
    requires |points| <= |colors|
    requires i < |points|
    ensures colors[i] in RegionStatistics(points, colors, 0)
    ensures i in Indices(colors[..|points|], colors[i])
    ensures forall c :: c != colors[i] ==> i !in Indices(colors[..|points|], c)
  {
    assert colors[..|points|][i] == colors[i];
    IndicesComplete(colors[..|points|], colors[i]);
  }

  /** An arbitrary key of a non-empty map. */
  ghost function PickKey(m: map<Rgb, RegionStats>): (c: Rgb)
    requires m != map[]
    ensures c in m
  {
    assert exists c :: c in m.Keys by {
      var k :| k in m.Keys;
    }
    var c :| c in m.Keys; c
  }

  /** The sum of "Points" over all keys. */
  ghost function TotalPoints(stats: map<Rgb, RegionStats>): nat
    decreases |stats|
  {
    if stats == map[] then 0
    else
      var c := PickKey(stats);
      assert |stats - {c}| < |stats| by {
        assert (stats - {c}).Keys == stats.Keys - {c};
      }
      stats[c].points + TotalPoints(stats - {c})
  }

  /** The sum does not depend on which key is taken first. */
  lemma {:induction false} TotalPointsRemove(stats: map<Rgb, RegionStats>, y: Rgb)
    requires y in stats
    ensures TotalPoints(stats) == stats[y].points + TotalPoints(stats - {y})
    decreases |stats|
  {
    var c := PickKey(stats);
    assert (stats - {c}).Keys == stats.Keys - {c};
    if c != y {
      TotalPointsRemove(stats - {c}, y);
      assert (stats - {y}).Keys == stats.Keys - {y};
      TotalPointsRemove(stats - {y}, c);
      assert stats - {c} - {y} == stats - {y} - {c};
    }
  }

  /**
   * RegionStatistics in the case of one colour per point, where the counted
   * prefix is the whole array and the point list drops out (StatisticsTotal
   * shows the two agree); it lets the sum be proved by induction on colours.
   */
  function Histogram(colors: seq<Rgb>, cells: nat): map<Rgb, RegionStats>
  {
    map c | c in colors :: RegionStats(multiset(colors)[c], cells)
  }

  /** Appending a colour x adds one to the count of x and changes no other entry. */
  lemma HistogramSnoc(pre: seq<Rgb>, x: Rgb, cells: nat)
    ensures x in Histogram(pre + [x], cells)
    ensures Histogram(pre + [x], cells)[x].points == (if x in pre then Histogram(pre, cells)[x].points else 0) + 1
    ensures Histogram(pre + [x], cells) - {x} == Histogram(pre, cells) - {x}
  {
    var h, h' := Histogram(pre + [x], cells), Histogram(pre, cells);
    assert multiset(pre + [x]) == multiset(pre) + multiset{x};
    assert (h - {x}).Keys == (h' - {x}).Keys;
  }

  /** The counts of a histogram sum to the length of its colour array. */
  lemma {:induction false} HistogramTotal(colors: seq<Rgb>, cells: nat)
    ensures TotalPoints(Histogram(colors, cells)) == |colors|
    decreases |colors|
  {
    var h := Histogram(colors, cells);
    if |colors| == 0 {
      assert h == map[];
    } else {
      var n := |colors| - 1;
      var pre, x := colors[..n], colors[n];
      assert colors == pre + [x];
      var h' := Histogram(pre, cells);
      HistogramTotal(pre, cells);
      HistogramSnoc(pre, x, cells);
      TotalPointsRemove(h, x);
      if x in pre {
        TotalPointsRemove(h', x);
      } else {
        assert h' - {x} == h';
      }
    }
  }

  /** With one colour per point, the region counts sum to the point count. */
  lemma StatisticsTotal(points: seq<Point>, colors: seq<Rgb>, cells: nat)
    requires |points| == |colors|
    ensures TotalPoints(RegionStatistics(points, colors, cells)) == |points|
  {
    assert colors[..|points|] == colors;
    assert RegionStatistics(points, colors, cells) == Histogram(colors, cells);
    HistogramTotal(colors, cells);
  }

  /** The first matching index is smaller than every other index of that colour. */
  lemma IndicesFirstIsLeast(s: seq<Rgb>, c: Rgb, j: nat)
    requires |Indices(s, c)| > 0
    requires j < Indices(s, c)[0]
    ensures s[j] != c
  {
    IndicesComplete(s, c);
  }

  /**
   * The label anchor of a region: the first of the indices below n whose
   * colour is c, or nothing when there is none.
   */
  function Anchor(colors: seq<Rgb>, n: nat, c: Rgb): Option<nat>
    requires n <= |colors|
  {
    var matching := Indices(colors[..n], c);
    if |matching| == 0 then None else Some(matching[0])
  }

  /** The anchor is the smallest index of the region; a region without a point has none. */
  lemma AnchorIsFirstMatch(colors: seq<Rgb>, n: nat, c: Rgb)
    requires n <= |colors|
    ensures Anchor(colors, n, c).None? ==> forall i :: 0 <= i < n ==> colors[i] != c
    ensures Anchor(colors, n, c).Some? ==> Anchor(colors, n, c).value < n && colors[Anchor(colors, n, c).value] == c
    ensures Anchor(colors, n, c).Some? ==> forall j :: 0 <= j < Anchor(colors, n, c).value ==> colors[j] != c
  {
    var s := colors[..n];
    assert forall i :: 0 <= i < n ==> s[i] == colors[i];
    var matching := Indices(s, c);
    IndicesComplete(s, c);
    if |matching| > 0 {
      forall j | 0 <= j < matching[0]
        ensures colors[j] != c
      {
        IndicesFirstIsLeast(s, c, j);
      }
    }
  }

  /** The label offset of a region: its entry in the table, 20 when it has none. */
  function OffsetFor(offsets: map<Rgb, int>, c: Rgb): int
  {
    if c in offsets then offsets[c] else 20
  }
}
