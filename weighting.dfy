/** The weight applicator (`apply_weights`): each visibility multiplied by its
    weight, a complex product, for weights given as inverse variances. */
module Weighting {
  import opened ComplexNumbers
  import opened VisData
  import opened Symmetry

  /** `apply_weights`: the elementwise complex product of two vectors of one size. */
  function ApplyWeights(vis: seq<Complex>, weights: seq<Complex>): (r: seq<Complex>)
    requires |vis| == |weights|
    ensures |r| == |vis|
    ensures forall i :: 0 <= i < |r| ==> r[i] == Mul(vis[i], weights[i])
  {
    seq(|vis|, i requires 0 <= i < |vis| => Mul(vis[i], weights[i]))
  }

  /** Unit weights leave the visibilities unchanged. */
  lemma ApplyUnitWeights(vis: seq<Complex>, weights: seq<Complex>)
    requires |vis| == |weights|
    requires forall i :: 0 <= i < |weights| ==> weights[i] == One
    ensures ApplyWeights(vis, weights) == vis
  {
    var r := ApplyWeights(vis, weights);
    forall i | 0 <= i < |vis|
      ensures r[i] == vis[i]
    {
      assert weights[i] == One;
    }
  }

  /** Weights are real (inverse variances). */
  predicate RealWeights(weights: seq<Complex>) {
    forall i :: 0 <= i < |weights| ==> weights[i].im == 0.0
  }

  /** For real weights, weighting the expanded set is the same as expanding the
      weighted set: the mirrored half of the weighted visibilities is the conjugate
      of the weighted measured half. */
  lemma WeightingCommutesWithSymmetry(vs: VisParams)
    requires vs.WellFormed() && RealWeights(vs.weights)
    ensures var s := Symmetrized(vs);
            var w := ApplyWeights(vs.vis, vs.weights);
            ApplyWeights(s.vis, s.weights) == w + Conjugated(w)
  {
    var s := Symmetrized(vs);
    var n := |vs.u|;
    var w := ApplyWeights(vs.vis, vs.weights);
    var lhs := ApplyWeights(s.vis, s.weights);
    var rhs := w + Conjugated(w);
    forall k | 0 <= k < 2 * n
      ensures lhs[k] == rhs[k]
    {
      if k >= n {
        var j := k - n;
        assert s.vis[n + j] == Conj(vs.vis[j]) && s.weights[n + j] == vs.weights[j];
        ConjMulReal(vs.vis[j], vs.weights[j]);
      }
    }
  }
}
