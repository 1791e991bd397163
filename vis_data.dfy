/** The visibility record `vis_params` that every stage of the utilities takes
    and returns, and the constants of its unit conversions. */
module VisData {
  import opened ComplexNumbers

  /** Sampled (u, v) coordinates, complex visibilities and their weights, index
      by index. The record itself does not force the four lengths to agree. */
  datatype VisParams = VisParams(u: seq<real>, v: seq<real>, vis: seq<Complex>, weights: seq<Complex>)
  {
    /** The four sequences describe the same samples. */
    predicate WellFormed() {
      |u| == |v| == |vis| == |weights|
    }
  }

  /** `purify_pi`, to double precision. */
  const Pi: real := 3.141592653589793

  /** Arcseconds in half a turn (`180 * 3600`), i.e. in `Pi` radians. */
  const ArcsecPerHalfTurn: real := 648000.0

  /** An angle given in arcseconds, in radians. */
  function Radians(arcsec: real): real {
    arcsec * Pi / ArcsecPerHalfTurn
  }

  function RealAbs(x: real): real {
    if x < 0.0 then -x else x
  }
}
