/** Complex numbers in exact arithmetic: the few laws that the Fourier transform needs. */
module ComplexNumbers {

  datatype Complex = Complex(re: real, im: real)

  const ZERO := Complex(0.0, 0.0)
  const ONE := Complex(1.0, 0.0)

  function Add(a: Complex, b: Complex): Complex { Complex(a.re + b.re, a.im + b.im) }

  function Sub(a: Complex, b: Complex): Complex { Complex(a.re - b.re, a.im - b.im) }

  function Neg(a: Complex): Complex { Complex(-a.re, -a.im) }

  function Mul(a: Complex, b: Complex): Complex { Complex(a.re * b.re - a.im * b.im, a.re * b.im + a.im * b.re) }

  function Pow(a: Complex, n: nat): Complex { if n == 0 then ONE else Mul(Pow(a, n - 1), a) }

  lemma {:induction false} MulCommutes(a: Complex, b: Complex)
    ensures Mul(a, b) == Mul(b, a)
  {
  }

  lemma {:induction false} MulAssociates(a: Complex, b: Complex, c: Complex)
    ensures Mul(a, Mul(b, c)) == Mul(Mul(a, b), c)
  {
  }

  lemma {:induction false} MulOverAdd(a: Complex, b: Complex, c: Complex)
    ensures Mul(a, Add(b, c)) == Add(Mul(a, b), Mul(a, c))
  {
  }

  lemma {:induction false} MulNeg(a: Complex, b: Complex)
    ensures Mul(Neg(a), b) == Neg(Mul(a, b)) == Mul(a, Neg(b))
  {
  }

  lemma {:induction false} MulOne(a: Complex)
    ensures Mul(a, ONE) == a == Mul(ONE, a)
    ensures Mul(a, ZERO) == ZERO
  {
  }

  lemma {:induction false} PowAdd(a: Complex, m: nat, n: nat)
    ensures Pow(a, m + n) == Mul(Pow(a, m), Pow(a, n))
    decreases n
  {
    if n == 0 {
      MulOne(Pow(a, m));
    } else {
      PowAdd(a, m, n - 1);
      MulAssociates(Pow(a, m), Pow(a, n - 1), a);
    }
  }

  lemma {:induction false} PowTwoMore(a: Complex, n: nat)
    ensures Pow(a, n + 2) == Mul(Mul(Pow(a, n), a), a)
  {
    assert Pow(a, n + 2) == Mul(Pow(a, n + 1), a);
  }

  /** Squaring the base is doubling the exponent. */
  lemma {:induction false} PowOfSquare(a: Complex, n: nat)
    ensures Pow(Mul(a, a), n) == Pow(a, 2 * n)
    decreases n
  {
    if n > 0 {
      var p, aa := Pow(a, 2 * (n - 1)), Mul(a, a);
      calc {
        Pow(aa, n);
        Mul(Pow(aa, n - 1), aa);
        { PowOfSquare(a, n - 1); }
        Mul(p, aa);
        { MulAssociates(p, a, a); }
        Mul(Mul(p, a), a);
        { PowTwoMore(a, 2 * (n - 1)); }
        Pow(a, 2 * n);
      }
    }
  }

  lemma {:induction false} PowStep(a: Complex, n: nat)
    ensures Pow(a, n + 1) == Mul(Pow(a, n), a)
  {
  }

  lemma {:induction false} PowOfIdempotent(a: Complex, n: nat)
    requires Mul(a, a) == a && n > 0
    ensures Pow(a, n) == a
  {
    PowStep(a, n - 1);
    if n > 1 {
      PowOfIdempotent(a, n - 1);
    } else {
      MulOne(a);
    }
  }

  lemma {:induction false} OneSquared()
    ensures Mul(ONE, ONE) == ONE
  {
    MulOne(ONE);
  }

  lemma {:induction false} PowOfOne(n: nat)
    ensures Pow(ONE, n) == ONE
  {
    if n == 0 {
      assert Pow(ONE, 0) == ONE;
    } else {
      OneSquared();
      PowOfIdempotent(ONE, n);
    }
  }
}
