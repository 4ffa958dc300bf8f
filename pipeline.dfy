/**
 * The main block of the script: a left mesh tagged red and a right mesh
 * tagged blue are appended and classified, labels get their offsets from a
 * fixed table, and principal-axes reports name the region by its colour.
 */
module Pipeline {
  import opened Wrappers
  import opened Colors
  import opened Regions
  import opened Mesh

  /** The region names of the principal-axes report. */
  const RegionNames: map<Rgb, string> :=
    map[Red := "Left-Front", Green := "Left-Back", Blue := "Right-Front", Yellow := "Right-Back"]

  /** The label offset table of the main block. */
  const RegionOffsets: map<Rgb, int> := map[Red := 60, Green := 10, Blue := 70, Yellow := 20]

  /** The name printed for a region: its table entry, "Unknown" for any other colour. */
  function RegionName(c: Rgb): (name: string)
    ensures c == Red ==> name == "Left-Front"
    ensures c == Green ==> name == "Left-Back"
    ensures c == Blue ==> name == "Right-Front"
    ensures c == Yellow ==> name == "Right-Back"
    ensures name == "Unknown" <==> c != Red && c != Green && c != Blue && c != Yellow
  {
    if c in RegionNames then RegionNames[c] else "Unknown"
  }

  /** The statistics expected of an n-point red mesh appended with an m-point blue one. */
  function HemisphereStatistics(n: nat, m: nat, cells: nat): map<Rgb, RegionStats>
  {
    (if n > 0 then map[Red := RegionStats(n, cells)] else map[]) +
    (if m > 0 then map[Blue := RegionStats(m, cells)] else map[])
  }

  /** The colour array of the appended hemispheres. */
  function HemisphereColors(n: nat, m: nat): (s: seq<Rgb>)
    ensures |s| == n + m
  {
    Uniform(n, HemisphereColor(true)) + Uniform(m, HemisphereColor(false))
  }

  /** A uniform array holds its colour n times and no other colour. */
  lemma {:induction false} UniformOccurrences(n: nat, c: Rgb, d: Rgb)
    ensures multiset(Uniform(n, c))[d] == if d == c then n else 0
  {
    if n > 0 {
      UniformOccurrences(n - 1, c, d);
      assert Uniform(n, c) == Uniform(n - 1, c) + [c];
    }
  }

  /** The appended hemispheres hold red n times, blue m times and no other colour. */
  lemma HemisphereOccurrences(n: nat, m: nat, d: Rgb)
    ensures multiset(HemisphereColors(n, m))[d] == (if d == Red then n else 0) + (if d == Blue then m else 0)
  {
    UniformOccurrences(n, Red, d);
    UniformOccurrences(m, Blue, d);
  }

  /** Appending red to blue yields the regions red with n points and blue with m. */
  lemma CombinedHemisphereStatistics(points: seq<Point>, n: nat, m: nat, cells: nat)
    requires |points| == n + m
    ensures RegionStatistics(points, HemisphereColors(n, m), cells) == HemisphereStatistics(n, m, cells)
  {
    var colors := HemisphereColors(n, m);
    var stats, expected := RegionStatistics(points, colors, cells), HemisphereStatistics(n, m, cells);
    assert colors[..|points|] == colors;
    forall d
      ensures d in stats <==> d in expected
      ensures d in stats ==> stats[d] == expected[d]
    {
      HemisphereOccurrences(n, m, d);
      assert d in colors <==> d in multiset(colors);
    }
    assert stats.Keys == expected.Keys;
  }

  /** In a strictly increasing sequence, entries l - k apart differ by at least l - k. */
  lemma {:induction false} IncreasingGap(r: seq<nat>, k: nat, l: nat)
    requires forall i, j :: 0 <= i < j < |r| ==> r[i] < r[j]
    requires k <= l < |r|
    ensures r[l] - r[k] >= l - k
    decreases l - k
  {
    if k < l {
      IncreasingGap(r, k + 1, l);
    }
  }

  /** A strictly increasing sequence within [lo, lo + |r|) is lo, lo + 1, ... */
  lemma IncreasingFillsRange(r: seq<nat>, lo: nat)
    requires forall i, j :: 0 <= i < j < |r| ==> r[i] < r[j]
    requires forall i :: 0 <= i < |r| ==> lo <= r[i] < lo + |r|
    ensures forall i :: 0 <= i < |r| ==> r[i] == lo + i
  {
    forall i | 0 <= i < |r|
      ensures r[i] == lo + i
    {
      IncreasingGap(r, 0, i);
      IncreasingGap(r, i, |r| - 1);
    }
  }

  /** Point i of the appended hemispheres is red below n and blue from n on; red occurs n times, blue m times. */
  lemma HemisphereColorAt(n: nat, m: nat)
    ensures forall i :: 0 <= i < n ==> HemisphereColors(n, m)[i] == Red
    ensures forall i :: n <= i < n + m ==> HemisphereColors(n, m)[i] == Blue
    ensures multiset(HemisphereColors(n, m))[Red] == n
    ensures multiset(HemisphereColors(n, m))[Blue] == m
  {
    UniformOccurrences(n, Red, Red);
    UniformOccurrences(m, Blue, Red);
    UniformOccurrences(n, Red, Blue);
    UniformOccurrences(m, Blue, Blue);
  }

  /** In an array that is red up to n and blue after, the red region is 0 .. n - 1. */
  lemma {:induction false} RedPrefixIndices(colors: seq<Rgb>, n: nat)
    requires n <= |colors|
    requires forall i :: n <= i < |colors| ==> colors[i] == Blue
    requires multiset(colors)[Red] == n
    ensures Indices(colors, Red) == seq(n, i => i)
  {
    var red := Indices(colors, Red);
    IndicesCount(colors, Red);
    forall i | 0 <= i < |red|
      ensures red[i] < n
    {
      assert colors[red[i]] == Red;
    }
    IncreasingFillsRange(red, 0);
  }

  /** In an array that is red up to n and blue after, the blue region is n .. |colors| - 1. */
  lemma {:induction false} BlueSuffixIndices(colors: seq<Rgb>, n: nat)
    requires n <= |colors|
    requires forall i :: 0 <= i < n ==> colors[i] == Red
    requires multiset(colors)[Blue] == |colors| - n
    ensures Indices(colors, Blue) == seq(|colors| - n, i => n + i)
  {
    var blue := Indices(colors, Blue);
    IndicesCount(colors, Blue);
    forall i | 0 <= i < |blue|
      ensures n <= blue[i]
    {
      assert colors[blue[i]] == Blue;
    }
    IncreasingFillsRange(blue, n);
  }

  /** The red region is the indices 0 .. n - 1, the blue one n .. n + m - 1. */
  lemma HemisphereRegionIndices(n: nat, m: nat)
    ensures Indices(HemisphereColors(n, m), Red) == seq(n, i => i)
    ensures Indices(HemisphereColors(n, m), Blue) == seq(m, i => n + i)
  {
    HemisphereColorAt(n, m);
    RedPrefixIndices(HemisphereColors(n, m), n);
    BlueSuffixIndices(HemisphereColors(n, m), n);
  }

  /** In an array that is red up to n and blue after, red is anchored at 0, blue at n, nothing else at all. */
  lemma {:induction false} SplitAnchors(colors: seq<Rgb>, n: nat, c: Rgb)
    requires n <= |colors|
    requires forall i :: 0 <= i < n ==> colors[i] == Red
    requires forall i :: n <= i < |colors| ==> colors[i] == Blue
    ensures c == Red && n > 0 ==> Anchor(colors, |colors|, c) == Some(0)
    ensures c == Blue && n < |colors| ==> Anchor(colors, |colors|, c) == Some(n)
    ensures c != Red && c != Blue ==> Anchor(colors, |colors|, c) == None
  {
    var a := Anchor(colors, |colors|, c);
    AnchorIsFirstMatch(colors, |colors|, c);
    if c == Red && n > 0 {
      assert colors[0] == Red;
    } else if c == Blue && n < |colors| {
      assert colors[n] == Blue;
      assert a.value >= n;
    }
  }

  /** The offset table gives red 60 and blue 70. */
  lemma HemisphereOffsets()
    ensures OffsetFor(RegionOffsets, Red) == 60 && OffsetFor(RegionOffsets, Blue) == 70
  {
  }

  /** In an array that is red up to n and blue after, the labels sit at 0 and n with the table's offsets. */
  lemma SplitLabels(colors: seq<Rgb>, n: nat, volumes: map<Rgb, real>)
    requires n <= |colors|
    requires forall i :: 0 <= i < n ==> colors[i] == Red
    requires forall i :: n <= i < |colors| ==> colors[i] == Blue
    ensures var labels := Labels(colors, |colors|, volumes, RegionOffsets);
            && (Red in volumes && n > 0 ==> Red in labels && labels[Red] == Label(0, 60, volumes[Red]))
            && (Blue in volumes && n < |colors| ==> Blue in labels && labels[Blue] == Label(n, 70, volumes[Blue]))
            && (forall c :: c in labels ==> c == Red || c == Blue)
  {
    var labels := Labels(colors, |colors|, volumes, RegionOffsets);
    HemisphereOffsets();
    SplitAnchors(colors, n, Red);
    SplitAnchors(colors, n, Blue);
    if Red in volumes && n > 0 {
      assert Red in labels;
    }
    if Blue in volumes && n < |colors| {
      assert Blue in labels;
    }
    forall c | c in labels
      ensures c == Red || c == Blue
    {
      SplitAnchors(colors, n, c);
    }
  }

  /** With the offset table of the main block, the red label sits on point 0 with offset 60, the blue one on point n with offset 70. */
  lemma HemisphereLabels(n: nat, m: nat, volumes: map<Rgb, real>)
    ensures var labels := Labels(HemisphereColors(n, m), n + m, volumes, RegionOffsets);
            && (Red in volumes && n > 0 ==> Red in labels && labels[Red] == Label(0, 60, volumes[Red]))
            && (Blue in volumes && m > 0 ==> Blue in labels && labels[Blue] == Label(n, 70, volumes[Blue]))
            && (forall c :: c in labels ==> c == Red || c == Blue)
  {
    HemisphereColorAt(n, m);
    SplitLabels(HemisphereColors(n, m), n, volumes);
  }

  /**
   * Steps 5, 6, 7 and 9 of the main block, with step 8's undefined call
   * omitted, on an already loaded pair of meshes: tag the left one red and
   * the right one blue, append them and classify.
   */
  method HemisphereRegionStatistics(lhPoints: seq<Point>, lhCells: nat, rhPoints: seq<Point>, rhCells: nat)
    returns (stats: map<Rgb, RegionStats>)
    ensures stats == HemisphereStatistics(|lhPoints|, |rhPoints|, lhCells + rhCells)
  {
    var lh := new PolyData(lhPoints, lhCells, None);
    var rh := new PolyData(rhPoints, rhCells, None);
    lh.AssignHemisphereColors(true);
    rh.AssignHemisphereColors(false);
    var combined := CombinePolyData(lh, rh);
    assert combined.colors == Some(HemisphereColors(|lhPoints|, |rhPoints|));
    var r := ComputeRegionStatistics(combined);
    CombinedHemisphereStatistics(combined.points, |lhPoints|, |rhPoints|, combined.cellCount);
    stats := r.value;
  }
}
