/** Complex numbers as pairs of reals: the model of `std::complex<double>`
    (the `t_complex` of the utilities), without rounding. */
module ComplexNumbers {

  datatype Complex = Complex(re: real, im: real)

  const One: Complex := Complex(1.0, 0.0)

  /** A real value as a complex one with a zero imaginary part. */
  function FromReal(x: real): Complex {
    Complex(x, 0.0)
  }

  /** The complex product `a * b`. */
  function Mul(a: Complex, b: Complex): Complex {
    Complex(a.re * b.re - a.im * b.im, a.re * b.im + a.im * b.re)
  }

  /** The complex conjugate, `std::conj`. */
  function Conj(z: Complex): Complex {
    Complex(z.re, -z.im)
  }

  /** Conjugation commutes with multiplication by a complex number on the real axis. */
  lemma ConjMulReal(z: Complex, w: Complex)
    requires w.im == 0.0
    ensures Conj(Mul(z, w)) == Mul(Conj(z), w)
  {
  }
}
