/** The symmetry expander (`uv_symmetry`): for a real-valued image the visibility
    at (-u, -v) is the conjugate of the one at (u, v), so the measured half-plane
    is completed by appending, after the measured samples, their mirror images. */
module Symmetry {
  import opened ComplexNumbers
  import opened VisData

  /** Every visibility conjugated. */
  function Conjugated(zs: seq<Complex>): (r: seq<Complex>)
    ensures |r| == |zs|
  {
    seq(|zs|, i requires 0 <= i < |zs| => Conj(zs[i]))
  }

  /** `uv_symmetry` reads `v`, `vis` and `weights` at every index of `u`. */
  predicate CoversU(vs: VisParams) {
    |vs.v| >= |vs.u| && |vs.vis| >= |vs.u| && |vs.weights| >= |vs.u|
  }

  /** `r` holds the `n = |u|` measured samples of `vs` in slots 0 .. n-1 and their
      mirror images (negated coordinates, conjugated visibility, same weight) in
      slots n .. 2n-1, in the same order. */
  ghost predicate IsSymmetrizationOf(r: VisParams, vs: VisParams)
    requires CoversU(vs)
  {
    var n := |vs.u|;
    |r.u| == 2 * n && |r.v| == 2 * n && |r.vis| == 2 * n && |r.weights| == 2 * n &&
    (forall i :: 0 <= i < n ==> r.u[i] == vs.u[i]) &&
    (forall i :: 0 <= i < n ==> r.v[i] == vs.v[i]) &&
    (forall i :: 0 <= i < n ==> r.vis[i] == vs.vis[i]) &&
    (forall i :: 0 <= i < n ==> r.weights[i] == vs.weights[i]) &&
    (forall i :: n <= i < 2 * n ==> r.u[i] == -vs.u[i - n]) &&
    (forall i :: n <= i < 2 * n ==> r.v[i] == -vs.v[i - n]) &&
    (forall i :: n <= i < 2 * n ==> r.vis[i] == Conj(vs.vis[i - n])) &&
    (forall i :: n <= i < 2 * n ==> r.weights[i] == vs.weights[i - n])
  }

  /** The expanded set: the `n = |u|` measured samples, then their mirrors in the
      same order. */
  function Symmetrized(vs: VisParams): (r: VisParams)
    requires CoversU(vs)
    ensures r.WellFormed() && IsSymmetrizationOf(r, vs)
  {
    var n := |vs.u|;
    VisParams(
      seq(2 * n, i requires 0 <= i < 2 * n => if i < n then vs.u[i] else -vs.u[i - n]),
      seq(2 * n, i requires 0 <= i < 2 * n => if i < n then vs.v[i] else -vs.v[i - n]),
      seq(2 * n, i requires 0 <= i < 2 * n => if i < n then vs.vis[i] else Conj(vs.vis[i - n])),
      seq(2 * n, i requires 0 <= i < 2 * n => if i < n then vs.weights[i] else vs.weights[i - n]))
  }

  /** The slot-by-slot description determines the expanded set: it is `Symmetrized`. */
  lemma SymmetrizationIsUnique(r: VisParams, vs: VisParams)
    requires CoversU(vs) && IsSymmetrizationOf(r, vs)
    ensures r == Symmetrized(vs)
  {
    var s := Symmetrized(vs);
    assert r.u == s.u;
    assert r.v == s.v;
    assert r.vis == s.vis;
    assert r.weights == s.weights;
  }

  /** The first loop of `uv_symmetry`: slots 0 .. n-1 of the four buffers receive
      the measured samples; slots n .. 2n-1 keep what they held. */
  method CopyMeasured(vs: VisParams, u: array<real>, v: array<real>, vis: array<Complex>, weights: array<Complex>)
    requires CoversU(vs) && u != v && vis != weights
    requires u.Length == v.Length == vis.Length == weights.Length == 2 * |vs.u|
    modifies u, v, vis, weights
    ensures forall k :: 0 <= k < |vs.u| ==> u[k] == vs.u[k] && v[k] == vs.v[k] && vis[k] == vs.vis[k] && weights[k] == vs.weights[k]
    ensures forall k :: |vs.u| <= k < 2 * |vs.u| ==>
              u[k] == old(u[k]) && v[k] == old(v[k]) && vis[k] == old(vis[k]) && weights[k] == old(weights[k])
  {
    for i := 0 to |vs.u|
      invariant forall k :: |vs.u| <= k < 2 * |vs.u| ==>
                  u[k] == old(u[k]) && v[k] == old(v[k]) && vis[k] == old(vis[k]) && weights[k] == old(weights[k])
      invariant forall k :: 0 <= k < i ==> u[k] == vs.u[k]
      invariant forall k :: 0 <= k < i ==> v[k] == vs.v[k]
      invariant forall k :: 0 <= k < i ==> vis[k] == vs.vis[k]
      invariant forall k :: 0 <= k < i ==> weights[k] == vs.weights[k]
    {
      u[i] := vs.u[i];
      v[i] := vs.v[i];
      vis[i] := vs.vis[i];
      weights[i] := vs.weights[i];
    }
  }

  /** The second loop of `uv_symmetry`: slots n .. 2n-1 receive the mirror images
      (negated coordinates, conjugated visibility, same weight); slots 0 .. n-1 keep
      what they held. */
  method AppendMirrors(vs: VisParams, u: array<real>, v: array<real>, vis: array<Complex>, weights: array<Complex>)
    requires CoversU(vs) && u != v && vis != weights
    requires u.Length == v.Length == vis.Length == weights.Length == 2 * |vs.u|
    modifies u, v, vis, weights
    ensures forall k :: 0 <= k < |vs.u| ==> u[k] == old(u[k]) && v[k] == old(v[k]) && vis[k] == old(vis[k]) && weights[k] == old(weights[k])
    ensures forall k :: |vs.u| <= k < 2 * |vs.u| ==>
              u[k] == -vs.u[k - |vs.u|] && v[k] == -vs.v[k - |vs.u|] &&
              vis[k] == Conj(vs.vis[k - |vs.u|]) && weights[k] == vs.weights[k - |vs.u|]
  {
    var total := |vs.u|;
    for i := total to 2 * total
      invariant forall k :: 0 <= k < total ==> u[k] == old(u[k])
      invariant forall k :: 0 <= k < total ==> v[k] == old(v[k])
      invariant forall k :: 0 <= k < total ==> vis[k] == old(vis[k])
      invariant forall k :: 0 <= k < total ==> weights[k] == old(weights[k])
      invariant forall k :: total <= k < i ==> u[k] == -vs.u[k - total]
      invariant forall k :: total <= k < i ==> v[k] == -vs.v[k - total]
      invariant forall k :: total <= k < i ==> vis[k] == Conj(vs.vis[k - total])
      invariant forall k :: total <= k < i ==> weights[k] == vs.weights[k - total]
    {
      u[i] := -vs.u[i - total];
      v[i] := -vs.v[i - total];
      vis[i] := Conj(vs.vis[i - total]);
      weights[i] := vs.weights[i - total];
    }
  }

  /** `uv_symmetry`: four buffers of length 2n, filled by the two loops above; the
      result is the expanded set. */
  method UvSymmetry(vs: VisParams) returns (r: VisParams)
    requires CoversU(vs)
    ensures r.WellFormed() && IsSymmetrizationOf(r, vs)
    ensures r == Symmetrized(vs)
  {
    var total := |vs.u|;
    var u := new real[2 * total];
    var v := new real[2 * total];
    var vis := new Complex[2 * total];
    var weights := new Complex[2 * total];
    CopyMeasured(vs, u, v, vis, weights);
    AppendMirrors(vs, u, v, vis, weights);
    r := VisParams(u[..], v[..], vis[..], weights[..]);
    SymmetrizationIsUnique(r, vs);
  }

  /** The position of the mirror image of sample `k` in a set expanded from `n` samples. */
  function Mirror(k: int, n: int): int {
    if k < n then k + n else k - n
  }

  /** The expanded set is conjugate-symmetric as a whole: every sample, measured
      or mirrored, has its mirror image in the set, at `Mirror(k, n)`. */
  lemma SymmetrizedIsConjugateSymmetric(vs: VisParams)
    requires CoversU(vs)
    ensures var r, n := Symmetrized(vs), |vs.u|;
            forall k :: 0 <= k < 2 * n ==>
              0 <= Mirror(k, n) < 2 * n &&
              r.u[Mirror(k, n)] == -r.u[k] && r.v[Mirror(k, n)] == -r.v[k] &&
              r.vis[Mirror(k, n)] == Conj(r.vis[k]) && r.weights[Mirror(k, n)] == r.weights[k]
  {
    var r, n := Symmetrized(vs), |vs.u|;
    forall k | 0 <= k < 2 * n
      ensures 0 <= Mirror(k, n) < 2 * n &&
              r.u[Mirror(k, n)] == -r.u[k] && r.v[Mirror(k, n)] == -r.v[k] &&
              r.vis[Mirror(k, n)] == Conj(r.vis[k]) && r.weights[Mirror(k, n)] == r.weights[k]
    {
    }
  }

  /** The two samples of the worked example, expanded. */
  lemma SymmetrizedExample()
    ensures Symmetrized(VisParams([100.0, -100.0], [50.0, -50.0],
                                  [Complex(1.0, 2.0), Complex(3.0, -1.0)], [One, One]))
            == VisParams([100.0, -100.0, -100.0, 100.0], [50.0, -50.0, -50.0, 50.0],
                         [Complex(1.0, 2.0), Complex(3.0, -1.0), Complex(1.0, -2.0), Complex(3.0, 1.0)],
                         [One, One, One, One])
  {
    var vs := VisParams([100.0, -100.0], [50.0, -50.0], [Complex(1.0, 2.0), Complex(3.0, -1.0)], [One, One]);
    var r := Symmetrized(vs);
    assert r.u == [100.0, -100.0, -100.0, 100.0];
    assert r.v == [50.0, -50.0, -50.0, 50.0];
    assert r.vis == [Complex(1.0, 2.0), Complex(3.0, -1.0), Complex(1.0, -2.0), Complex(3.0, 1.0)];
    assert r.weights == [One, One, One, One];
  }
}
