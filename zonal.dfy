/** The statistics table `compute_zonal` builds from the per-district
    records of `zonal_stats`: scale the statistics by the raster's scale
    factor, then label each row with its district code, name and year. */
module Zonal {
  import opened Floats

  /** A statistic as `zonal_stats` reports it: missing (`None`), an integer
      (`count`, or `min`/`max` of an integer band) or a double. */
  datatype Stat = Missing | Int(n: int) | Num(x: Float)

  /** A cell of the result table: a statistic or a text label. */
  datatype FrameCell = StatCell(s: Stat) | Label(t: string)

  /** One record per district polygon: statistic name to value. */
  type Record = map<string, Stat>

  /** A column-oriented table; every column has `rows` cells. The column
      order pandas keeps is not modelled. */
  datatype Frame = Frame(rows: nat, cols: map<string, seq<FrameCell>>)

  predicate WellFormed(f: Frame) {
    forall c :: c in f.cols ==> |f.cols[c]| == f.rows
  }

  /** The statistics it rescales: all but `count` (line 119). */
  const ScaledStats: seq<string> := ["mean", "min", "max", "std", "percentile_10", "percentile_90", "percentile_5"]

  /** `sf and sf != 1.0`: a zero factor is falsy, NaN and the infinities
      are truthy. */
  predicate ScalingApplies(sf: Float) {
    sf != Finite(0.0) && sf != Finite(1.0)
  }

  /** `value * sf` on one statistic; a missing value stays missing. */
  function ScaleStat(v: Stat, sf: Float): (r: Stat)
    ensures r.Missing? <==> v.Missing?
    ensures v.Num? ==> r == Num(Mul(v.x, sf))
    ensures v.Int? ==> r == Num(Mul(Finite(v.n as real), sf))
    ensures v.Num? && v.x.Finite? && sf.Finite? ==> r == Num(Finite(v.x.r * sf.r))
  {
    match v
    case Missing => Missing
    case Int(n) => Num(Mul(Finite(n as real), sf))
    case Num(x) => Num(Mul(x, sf))
  }

  /** `df[c] * sf` on a column; labels do not occur among the statistics
      and are kept as they are. */
  function ScaleColumn(col: seq<FrameCell>, sf: Float): (r: seq<FrameCell>)
    ensures |r| == |col|
    ensures forall i :: 0 <= i < |col| && col[i].StatCell? ==> r[i] == StatCell(ScaleStat(col[i].s, sf))
    ensures forall i :: 0 <= i < |col| && col[i].Label? ==> r[i] == col[i]
  {
    seq(|col|, i requires 0 <= i < |col| => if col[i].StatCell? then StatCell(ScaleStat(col[i].s, sf)) else col[i])
  }

  /** The column names of `pd.DataFrame(zs)`: every key of every record. */
  function StatKeys(zs: seq<Record>): (ks: set<string>)
  {
    if zs == [] then {} else StatKeys(zs[..|zs| - 1]) + zs[|zs| - 1].Keys
  }

  /** A name is a column exactly when some record has it. */
  lemma {:induction false} StatKeysMeaning(zs: seq<Record>, c: string)
    ensures c in StatKeys(zs) <==> exists i :: 0 <= i < |zs| && c in zs[i]
  {
    if zs != [] {
      var init := zs[..|zs| - 1];
      StatKeysMeaning(init, c);
      if c in StatKeys(init) {
        var i :| 0 <= i < |init| && c in init[i];
        assert c in zs[i];
      }
      if exists i :: 0 <= i < |zs| && c in zs[i] {
        var i :| 0 <= i < |zs| && c in zs[i];
        if i < |init| {
          assert c in init[i];
        }
      }
    }
  }

  /** Column `c` of `pd.DataFrame(zs)`: a record without the key gives a
      missing value. */
  function RawColumn(zs: seq<Record>, c: string): (col: seq<FrameCell>)
    ensures |col| == |zs|
    ensures forall i :: 0 <= i < |zs| ==> col[i] == StatCell(if c in zs[i] then zs[i][c] else Missing)
  {
    seq(|zs|, i requires 0 <= i < |zs| => StatCell(if c in zs[i] then zs[i][c] else Missing))
  }

  /** `pd.DataFrame(zs)` (line 117). */
  function RawFrame(zs: seq<Record>): (f: Frame)
    ensures WellFormed(f) && f.rows == |zs| && f.cols.Keys == StatKeys(zs)
  {
    Frame(|zs|, map c | c in StatKeys(zs) :: RawColumn(zs, c))
  }

  /** A column of labels, one per row. */
  function Labels(ss: seq<string>): (col: seq<FrameCell>)
    ensures |col| == |ss|
    ensures forall i :: 0 <= i < |ss| ==> col[i] == Label(ss[i])
  {
    seq(|ss|, i requires 0 <= i < |ss| => Label(ss[i]))
  }

  /** The same integer in every row (`df['year'] = year`). */
  function Constant(n: nat, v: int): (col: seq<FrameCell>)
    ensures |col| == n
    ensures forall i :: 0 <= i < n ==> col[i] == StatCell(Int(v))
  {
    seq(n, i requires 0 <= i < n => StatCell(Int(v)))
  }

  /** Column `c` after the scaling loop of lines 118-120. */
  function ZonalColumn(zs: seq<Record>, c: string, sf: Float): seq<FrameCell> {
    if ScalingApplies(sf) && c in ScaledStats then ScaleColumn(RawColumn(zs, c), sf) else RawColumn(zs, c)
  }

  /** The table `compute_zonal` returns, column by column. */
  function ZonalFrame(zs: seq<Record>, ids: seq<string>, names: seq<string>, sf: Float, year: int): Frame
    requires |ids| == |zs| && |names| == |zs|
  {
    var stats := map c | c in StatKeys(zs) :: ZonalColumn(zs, c, sf);
    Frame(|zs|, stats["UBIGEO_OK" := Labels(ids)]["NOMBRE_OK" := Labels(names)]["year" := Constant(|zs|, year)])
  }

  /** The columns after the loop of lines 119-120 has visited `visited`,
      in order: each name present is replaced by its scaled column. */
  function ScaleNamed(cols: map<string, seq<FrameCell>>, visited: seq<string>, sf: Float): (r: map<string, seq<FrameCell>>)
    ensures r.Keys == cols.Keys
  {
    if visited == [] then cols
    else
      var before := ScaleNamed(cols, visited[..|visited| - 1], sf);
      var c := visited[|visited| - 1];
      if c in before then before[c := ScaleColumn(before[c], sf)] else before
  }

  predicate Distinct(ns: seq<string>) {
    forall i, j :: 0 <= i < j < |ns| ==> ns[i] != ns[j]
  }

  /** Visiting distinct names scales each present one exactly once. */
  lemma {:induction false} ScaleNamedMeaning(cols: map<string, seq<FrameCell>>, visited: seq<string>, sf: Float)
    requires Distinct(visited)
    ensures forall c :: c in cols ==>
      ScaleNamed(cols, visited, sf)[c] == if c in visited then ScaleColumn(cols[c], sf) else cols[c]
  {
    if visited != [] {
      var init := visited[..|visited| - 1];
      var last := visited[|visited| - 1];
      ScaleNamedMeaning(cols, init, sf);
      assert last !in init by {
        forall i | 0 <= i < |init| ensures init[i] != last {
          assert init[i] == visited[i];
        }
      }
      assert forall c :: c in visited <==> c in init || c == last;
    }
  }

  /** After the loop, each requested statistic present is scaled once and
      every other column is as `zonal_stats` gave it. */
  lemma ScaledStatColumn(zs: seq<Record>, sf: Float, c: string)
    requires ScalingApplies(sf) && c in StatKeys(zs)
    ensures ScaleNamed(RawFrame(zs).cols, ScaledStats, sf)[c] == ZonalColumn(zs, c, sf)
  {
    assert Distinct(ScaledStats);
    ScaleNamedMeaning(RawFrame(zs).cols, ScaledStats, sf);
  }

  lemma ScaledStatColumns(zs: seq<Record>, sf: Float)
    requires ScalingApplies(sf)
    ensures ScaleNamed(RawFrame(zs).cols, ScaledStats, sf) == map c | c in StatKeys(zs) :: ZonalColumn(zs, c, sf)
  {
    forall c | c in StatKeys(zs) ensures ScaleNamed(RawFrame(zs).cols, ScaledStats, sf)[c] == ZonalColumn(zs, c, sf) {
      ScaledStatColumn(zs, sf, c);
    }
  }

  /** The loop of lines 119-120: visit `stats` in order and rescale each
      one that is a column of `df`. */
  method ScaleStatistics(df: Frame, stats: seq<string>, sf: Float) returns (r: Frame)
    ensures r == Frame(df.rows, ScaleNamed(df.cols, stats, sf))
  {
    r := df;
    var k := 0;
    while k < |stats|
      invariant 0 <= k <= |stats|
      invariant r == Frame(df.rows, ScaleNamed(df.cols, stats[..k], sf))
    {
      var c := stats[k];
      if c in r.cols {
        r := r.(cols := r.cols[c := ScaleColumn(r.cols[c], sf)]);
      }
      assert stats[..k + 1][..k] == stats[..k];
      k := k + 1;
    }
    assert stats[..k] == stats;
  }

  /** The statistic columns after line 120, scaled or not, are the
      `ZonalColumn`s of the records. */
  lemma ZonalStats(zs: seq<Record>, sf: Float)
    ensures (if ScalingApplies(sf) then ScaleNamed(RawFrame(zs).cols, ScaledStats, sf) else RawFrame(zs).cols)
      == map c | c in StatKeys(zs) :: ZonalColumn(zs, c, sf)
  {
    if ScalingApplies(sf) {
      ScaledStatColumns(zs, sf);
    }
  }

  /** Lines 117-123 given the records `zs` of `zonal_stats`, the codes and
      names of `gdf` in polygon order, the scale factor and the year. */
  method ComputeZonal(zs: seq<Record>, ids: seq<string>, names: seq<string>, sf: Float, year: int) returns (df: Frame)
    requires |ids| == |zs| && |names| == |zs|
    ensures df == ZonalFrame(zs, ids, names, sf, year)
  {
    df := RawFrame(zs);
    if ScalingApplies(sf) {
      df := ScaleStatistics(df, ScaledStats, sf);
    }
    ZonalStats(zs, sf);
    df := df.(cols := df.cols["UBIGEO_OK" := Labels(ids)]);
    df := df.(cols := df.cols["NOMBRE_OK" := Labels(names)]);
    df := df.(cols := df.cols["year" := Constant(|zs|, year)]);
  }

  // ---------------------------------------------------------- properties

  /** A statistic column of the result is the column after scaling, unless
      a label of the same name replaced it. */
  lemma ZonalStatColumn(zs: seq<Record>, ids: seq<string>, names: seq<string>, sf: Float, year: int, c: string)
    requires |ids| == |zs| && |names| == |zs|
    requires c in StatKeys(zs) && c != "UBIGEO_OK" && c != "NOMBRE_OK" && c != "year"
    ensures c in ZonalFrame(zs, ids, names, sf, year).cols
    ensures ZonalFrame(zs, ids, names, sf, year).cols[c] == ZonalColumn(zs, c, sf)
  {
  }

  /** No requested statistic is named like a label or like `count`. */
  lemma ScaledStatNames(c: string)
    requires c in ScaledStats
    ensures c != "UBIGEO_OK" && c != "NOMBRE_OK" && c != "year" && c != "count"
  {
  }

  /** The table has one row per record, every column is full, and its
      columns are the records' keys plus the three labels. */
  lemma ZonalFrameShape(zs: seq<Record>, ids: seq<string>, names: seq<string>, sf: Float, year: int)
    requires |ids| == |zs| && |names| == |zs|
    ensures var f := ZonalFrame(zs, ids, names, sf, year);
      && WellFormed(f) && f.rows == |zs|
      && f.cols.Keys == StatKeys(zs) + {"UBIGEO_OK", "NOMBRE_OK", "year"}
  {
    var f := ZonalFrame(zs, ids, names, sf, year);
    forall c | c in StatKeys(zs) && c != "UBIGEO_OK" && c != "NOMBRE_OK" && c != "year"
      ensures |f.cols[c]| == |zs|
    {
      ZonalStatColumn(zs, ids, names, sf, year, c);
    }
  }

  /** Codes, names and the year are attached row by row in polygon order. */
  lemma ZonalLabelsByPosition(zs: seq<Record>, ids: seq<string>, names: seq<string>, sf: Float, year: int)
    requires |ids| == |zs| && |names| == |zs|
    ensures forall i :: 0 <= i < |zs| ==>
      && ZonalFrame(zs, ids, names, sf, year).cols["UBIGEO_OK"][i] == Label(ids[i])
      && ZonalFrame(zs, ids, names, sf, year).cols["NOMBRE_OK"][i] == Label(names[i])
      && ZonalFrame(zs, ids, names, sf, year).cols["year"][i] == StatCell(Int(year))
  {
  }

  /** `count` is never rescaled. */
  lemma ZonalCountUntouched(zs: seq<Record>, ids: seq<string>, names: seq<string>, sf: Float, year: int)
    requires |ids| == |zs| && |names| == |zs|
    requires "count" in StatKeys(zs)
    ensures ZonalFrame(zs, ids, names, sf, year).cols["count"] == RawColumn(zs, "count")
  {
    assert "count" !in ScaledStats;
    ZonalStatColumn(zs, ids, names, sf, year, "count");
  }

  /** A factor of 0 or 1 leaves every statistic as `zonal_stats` gave it. */
  lemma ZonalUnscaled(zs: seq<Record>, ids: seq<string>, names: seq<string>, sf: Float, year: int, c: string)
    requires |ids| == |zs| && |names| == |zs|
    requires sf == Finite(0.0) || sf == Finite(1.0)
    requires c in StatKeys(zs) && c !in {"UBIGEO_OK", "NOMBRE_OK", "year"}
    ensures ZonalFrame(zs, ids, names, sf, year).cols[c] == RawColumn(zs, c)
  {
    ZonalStatColumn(zs, ids, names, sf, year, c);
  }

  /** Otherwise each requested statistic present is the record's value
      times the factor, a missing value stays missing, and a record without
      the statistic gives a missing value. */
  lemma ZonalScaled(zs: seq<Record>, ids: seq<string>, names: seq<string>, sf: Float, year: int, c: string, i: int)
    requires |ids| == |zs| && |names| == |zs|
    requires ScalingApplies(sf) && c in ScaledStats && c in StatKeys(zs)
    requires 0 <= i < |zs|
    ensures var cell := ZonalFrame(zs, ids, names, sf, year).cols[c][i];
      && (c !in zs[i] || zs[i][c].Missing? ==> cell == StatCell(Missing))
      && (c in zs[i] && zs[i][c].Num? ==> cell == StatCell(Num(Mul(zs[i][c].x, sf))))
      && (c in zs[i] && zs[i][c].Int? ==> cell == StatCell(Num(Mul(Finite(zs[i][c].n as real), sf))))
  {
    ScaledStatNames(c);
    ZonalStatColumn(zs, ids, names, sf, year, c);
    assert ZonalColumn(zs, c, sf) == ScaleColumn(RawColumn(zs, c), sf);
  }

  // ------------------------------------------------------------------ year

  /** `year = int(start_year + (band - 1))` (line 108). */
  function YearOf(startYear: int, band: int): (year: int)
    ensures year - startYear == band - 1
  {
    startYear + (band - 1)
  }

  /** Band 1 is the start year, and the labelling is one-to-one and
      order-preserving over the bands. */
  lemma YearOfMeaning(startYear: int, b1: int, b2: int)
    ensures YearOf(startYear, 1) == startYear
    ensures b1 < b2 <==> YearOf(startYear, b1) < YearOf(startYear, b2)
    ensures YearOf(startYear, b1) == YearOf(startYear, b2) ==> b1 == b2
  {
  }
}
