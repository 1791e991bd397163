/** The coordinate scaler and the cell-size estimator: `set_cell_size` turns
    (u, v) into radians times 2 Pi for a given image pixel size in arcseconds,
    deriving that size from the longest baseline when the caller gives none;
    `uv_scale` turns radians times 2 Pi into pixels of an FFT grid. Both pass the
    visibilities and weights through untouched. */
module CoordinateScaling {
  import opened VisData

  /** The largest magnitude in `s` (`sqrt(maxCoeff(s * s))`), 0 for an empty `s`. */
  function MaxAbs(s: seq<real>): (m: real)
    ensures 0.0 <= m
    ensures forall i :: 0 <= i < |s| ==> RealAbs(s[i]) <= m
  {
    if |s| == 0 then 0.0
    else
      var rest := MaxAbs(s[1..]);
      if RealAbs(s[0]) >= rest then RealAbs(s[0]) else rest
  }

  /** The maximum of a non-empty sequence is attained: `k` is a sample that has it. */
  lemma {:induction false} MaxAbsAttained(s: seq<real>) returns (k: int)
    requires |s| > 0
    ensures 0 <= k < |s| && RealAbs(s[k]) == MaxAbs(s)
  {
    if |s| == 1 || RealAbs(s[0]) >= MaxAbs(s[1..]) {
      k := 0;
    } else {
      var j := MaxAbsAttained(s[1..]);
      k := j + 1;
    }
  }

  /** The default pixel size for a longest baseline `maxCoord`:
      `(180 * 3600) / maxCoord / Pi / 3 * 1.02` arcseconds. In radians it is
      0.34 / maxCoord: a third of the finest resolved scale, widened by 2%. */
  function AutoCellSize(maxCoord: real): (cell: real)
    requires maxCoord > 0.0
    ensures cell > 0.0
    ensures Radians(cell) * maxCoord == 0.34
  {
    ArcsecPerHalfTurn / maxCoord / Pi / 3.0 * 1.02
  }

  /** Whether `set_cell_size` may be called: when both sizes are unset (0) the
      source divides by the longest baseline on each axis without a guard, so
      each axis must have a nonzero coordinate. */
  predicate CellSizesDerivable(vs: VisParams, cellU: real, cellV: real) {
    cellU == 0.0 && cellV == 0.0 ==> MaxAbs(vs.u) > 0.0 && MaxAbs(vs.v) > 0.0
  }

  /** The pixel sizes (u, v) that `set_cell_size` adopts. */
  function CellSizes(vs: VisParams, cellU: real, cellV: real): (sizes: (real, real))
    requires CellSizesDerivable(vs, cellU, cellV)
    ensures cellU == 0.0 && cellV == 0.0 ==>
              sizes == (AutoCellSize(MaxAbs(vs.u)), AutoCellSize(MaxAbs(vs.v)))
    ensures cellU != 0.0 || cellV != 0.0 ==> sizes.0 == cellU
    ensures cellV != 0.0 ==> sizes.1 == cellV
    ensures cellU != 0.0 && cellV == 0.0 ==> sizes.1 == cellU
    ensures sizes.1 != 0.0
    ensures sizes.0 == 0.0 <==> cellU == 0.0 && cellV != 0.0
  {
    if cellU == 0.0 && cellV == 0.0 then
      (AutoCellSize(MaxAbs(vs.u)), AutoCellSize(MaxAbs(vs.v)))
    else if cellV == 0.0 then
      (cellU, cellU)
    else
      (cellU, cellV)
  }

  /** One coordinate through `set_cell_size`: `x / (180 * 3600 / cell / Pi) * 2 * Pi`.
      A zero cell size makes the double-precision scale factor infinite, and the
      coordinate then becomes 0. The result is 2 Pi times the coordinate times the
      pixel size in radians. */
  function AngularCoordinate(x: real, cell: real): (r: real)
    ensures r == x * Radians(cell) * (2.0 * Pi)
  {
    if cell == 0.0 then 0.0
    else
      var scale := ArcsecPerHalfTurn / cell / Pi;
      assert scale * cell == ArcsecPerHalfTurn / Pi;
      assert x / scale == x * cell * Pi / ArcsecPerHalfTurn;
      x / scale * 2.0 * Pi
  }

  /** `set_cell_size`: every u (v) is scaled by the adopted u (v) pixel size; vis
      and weights are copied. */
  function SetCellSize(vs: VisParams, cellU: real, cellV: real): (r: VisParams)
    requires CellSizesDerivable(vs, cellU, cellV)
    ensures |r.u| == |vs.u| && |r.v| == |vs.v|
    ensures r.vis == vs.vis && r.weights == vs.weights
    ensures vs.WellFormed() ==> r.WellFormed()
    ensures forall i :: 0 <= i < |r.u| ==> r.u[i] == vs.u[i] * Radians(CellSizes(vs, cellU, cellV).0) * (2.0 * Pi)
    ensures forall i :: 0 <= i < |r.v| ==> r.v[i] == vs.v[i] * Radians(CellSizes(vs, cellU, cellV).1) * (2.0 * Pi)
  {
    var (cu, cv) := CellSizes(vs, cellU, cellV);
    VisParams(
      seq(|vs.u|, i requires 0 <= i < |vs.u| => AngularCoordinate(vs.u[i], cu)),
      seq(|vs.v|, i requires 0 <= i < |vs.v| => AngularCoordinate(vs.v[i], cv)),
      vs.vis,
      vs.weights)
  }

  /** `uv_scale`: coordinates in radians times 2 Pi, divided by 2 Pi and multiplied
      by the FFT grid size on that axis; vis and weights are copied. */
  function UvScale(vs: VisParams, ftsizeu: int, ftsizev: int): (r: VisParams)
    ensures |r.u| == |vs.u| && |r.v| == |vs.v|
    ensures r.vis == vs.vis && r.weights == vs.weights
    ensures vs.WellFormed() ==> r.WellFormed()
    ensures forall i :: 0 <= i < |r.u| ==> r.u[i] * (2.0 * Pi) == vs.u[i] * ftsizeu as real
    ensures forall i :: 0 <= i < |r.v| ==> r.v[i] * (2.0 * Pi) == vs.v[i] * ftsizev as real
  {
    VisParams(
      seq(|vs.u|, i requires 0 <= i < |vs.u| => vs.u[i] / (2.0 * Pi) * ftsizeu as real),
      seq(|vs.v|, i requires 0 <= i < |vs.v| => vs.v[i] / (2.0 * Pi) * ftsizev as real),
      vs.vis,
      vs.weights)
  }

  /** One coordinate scaled to radians and then to pixels. */
  lemma PixelCoordinate(x: real, cell: real, size: real)
    ensures AngularCoordinate(x, cell) / (2.0 * Pi) * size == x * Radians(cell) * size
  {
  }

  /** Scaling to radians and then to pixels puts a sample at its coordinate times
      the pixel size in radians times the grid size. */
  lemma PixelCoordinates(vs: VisParams, cellU: real, cellV: real, ftsizeu: int, ftsizev: int)
    requires CellSizesDerivable(vs, cellU, cellV)
    ensures var p := UvScale(SetCellSize(vs, cellU, cellV), ftsizeu, ftsizev);
            var (cu, cv) := CellSizes(vs, cellU, cellV);
            (forall i :: 0 <= i < |p.u| ==> p.u[i] == vs.u[i] * Radians(cu) * ftsizeu as real) &&
            (forall i :: 0 <= i < |p.v| ==> p.v[i] == vs.v[i] * Radians(cv) * ftsizev as real)
  {
    var (cu, cv) := CellSizes(vs, cellU, cellV);
    forall x | x in vs.u {
      PixelCoordinate(x, cu, ftsizeu as real);
    }
    forall x | x in vs.v {
      PixelCoordinate(x, cv, ftsizev as real);
    }
  }

  /** A coordinate of magnitude at most `m`, scaled by 0.34 / m and then by `f`. */
  lemma ScaledByLongest(x: real, m: real, rad: real, f: real)
    requires m > 0.0 && RealAbs(x) <= m && rad * m == 0.34 && f >= 0.0
    ensures RealAbs(x * rad * f) <= 0.34 * f
    ensures RealAbs(x) == m ==> RealAbs(x * rad * f) == 0.34 * f
  {
    assert rad > 0.0;
    assert RealAbs(x * rad * f) == RealAbs(x) * rad * f;
    assert RealAbs(x) * rad <= m * rad;
    assert RealAbs(x) * rad * f <= m * rad * f;
  }

  /** One sample under the derived pixel size: within 0.68 Pi of the origin, and
      exactly there when it is a longest baseline. */
  lemma AutoSampleBand(x: real, m: real)
    requires m > 0.0 && RealAbs(x) <= m
    ensures RealAbs(AngularCoordinate(x, AutoCellSize(m))) <= 0.68 * Pi
    ensures RealAbs(x) == m ==> RealAbs(AngularCoordinate(x, AutoCellSize(m))) == 0.68 * Pi
  {
    ScaledByLongest(x, m, Radians(AutoCellSize(m)), 2.0 * Pi);
  }

  /** With the derived pixel size, `set_cell_size` places every coordinate within
      0.68 Pi of the origin (inside the band of +-Pi), and the longest baseline on
      each axis exactly at 0.68 Pi. */
  lemma AutoCellSizeBand(vs: VisParams)
    requires CellSizesDerivable(vs, 0.0, 0.0)
    ensures var r := SetCellSize(vs, 0.0, 0.0);
            (forall i :: 0 <= i < |r.u| ==> RealAbs(r.u[i]) <= 0.68 * Pi) &&
            (forall i :: 0 <= i < |r.v| ==> RealAbs(r.v[i]) <= 0.68 * Pi) &&
            (exists i :: 0 <= i < |r.u| && RealAbs(r.u[i]) == 0.68 * Pi) &&
            (exists i :: 0 <= i < |r.v| && RealAbs(r.v[i]) == 0.68 * Pi)
  {
    var r := SetCellSize(vs, 0.0, 0.0);
    forall i | 0 <= i < |r.u|
      ensures RealAbs(r.u[i]) <= 0.68 * Pi
    {
      AutoSampleBand(vs.u[i], MaxAbs(vs.u));
    }
    forall i | 0 <= i < |r.v|
      ensures RealAbs(r.v[i]) <= 0.68 * Pi
    {
      AutoSampleBand(vs.v[i], MaxAbs(vs.v));
    }
    var ku := MaxAbsAttained(vs.u);
    AutoSampleBand(vs.u[ku], MaxAbs(vs.u));
    assert RealAbs(r.u[ku]) == 0.68 * Pi;
    var kv := MaxAbsAttained(vs.v);
    AutoSampleBand(vs.v[kv], MaxAbs(vs.v));
    assert RealAbs(r.v[kv]) == 0.68 * Pi;
  }

  /** One sample under the derived pixel size, in pixels of a grid of `size`. */
  lemma AutoSamplePixel(x: real, m: real, size: real, pixel: real)
    requires m > 0.0 && RealAbs(x) <= m
    requires pixel == AngularCoordinate(x, AutoCellSize(m)) / (2.0 * Pi) * size
    ensures RealAbs(pixel) <= 0.34 * RealAbs(size)
  {
    var rad := Radians(AutoCellSize(m));
    PixelCoordinate(x, AutoCellSize(m), size);
    ScaledByLongest(x, m, rad, RealAbs(size));
    assert RealAbs(x * rad * size) == RealAbs(x * rad * RealAbs(size));
  }

  /** With the derived pixel size, `uv_scale` puts every sample within 0.34 of the
      grid size of the grid centre, so inside the grid's half-width. */
  lemma AutoCellSizeFitsGrid(vs: VisParams, ftsizeu: int, ftsizev: int)
    requires CellSizesDerivable(vs, 0.0, 0.0)
    ensures var p := UvScale(SetCellSize(vs, 0.0, 0.0), ftsizeu, ftsizev);
            (forall i :: 0 <= i < |p.u| ==> RealAbs(p.u[i]) <= 0.34 * RealAbs(ftsizeu as real)) &&
            (forall i :: 0 <= i < |p.v| ==> RealAbs(p.v[i]) <= 0.34 * RealAbs(ftsizev as real))
  {
    var r := SetCellSize(vs, 0.0, 0.0);
    var p := UvScale(r, ftsizeu, ftsizev);
    var (cu, cv) := CellSizes(vs, 0.0, 0.0);
    forall i | 0 <= i < |p.u|
      ensures RealAbs(p.u[i]) <= 0.34 * RealAbs(ftsizeu as real)
    {
      assert r.u[i] == AngularCoordinate(vs.u[i], cu);
      AutoSamplePixel(vs.u[i], MaxAbs(vs.u), ftsizeu as real, p.u[i]);
    }
    forall i | 0 <= i < |p.v|
      ensures RealAbs(p.v[i]) <= 0.34 * RealAbs(ftsizev as real)
    {
      assert r.v[i] == AngularCoordinate(vs.v[i], cv);
      AutoSamplePixel(vs.v[i], MaxAbs(vs.v), ftsizev as real, p.v[i]);
    }
  }
}
