/** Polynomials over the field of two elements as their coefficients, highest power first. */
module Polynomials {
  import opened Bits

  /** The sum, in that field, of a[i] * b[k - i] for all i < n. */
  function Convolution(a: Bits, b: Bits, k: nat, n: nat): bool
    requires n <= |a|
  {
    if n == 0 then false
    else Convolution(a, b, k, n - 1) != (a[n - 1] && n - 1 <= k < n - 1 + |b| && b[k - (n - 1)])
  }

  function Times(a: Bits, b: Bits): (c: Bits)
    requires b != []
    ensures |c| == |a| + |b| - 1
  {
    seq(|a| + |b| - 1, k requires 0 <= k < |a| + |b| - 1 => Convolution(a, b, k, |a|))
  }

  /** The dividend is the product of quotient and divisor and a remainder of lower degree. */
  ghost predicate Divides(dividend: Bits, divisor: Bits, quotient: Bits, remainder: Bits) {
    && divisor != [] && |remainder| == |divisor| - 1 && |dividend| == |quotient| + |remainder|
    && dividend == Xor(Times(quotient, divisor), Falses(|quotient|) + remainder)
  }

  ghost predicate IsRemainder(remainder: Bits, dividend: Bits, divisor: Bits) {
    exists quotient :: Divides(dividend, divisor, quotient, remainder)
  }

  // ---------------------------------------------------------------- the remainder is unique

  lemma {:induction false} ConvolutionOfPrefix(a: Bits, b: Bits, c: Bits, k: nat, n: nat)
    requires n <= |a| && n <= |b| && a[..n] == b[..n]
    ensures Convolution(a, c, k, n) == Convolution(b, c, k, n)
  {
    if n > 0 {
      assert a[..n - 1] == a[..n][..n - 1] && b[..n - 1] == b[..n][..n - 1];
      assert a[n - 1] == a[..n][n - 1] && b[n - 1] == b[..n][n - 1];
      ConvolutionOfPrefix(a, b, c, k, n - 1);
    }
  }

  /** Terms beyond the k-th do not contribute. */
  lemma {:induction false} ConvolutionStops(a: Bits, b: Bits, k: nat, n: nat)
    requires k < n <= |a|
    ensures Convolution(a, b, k, n) == Convolution(a, b, k, k + 1)
  {
    if k + 1 < n {
      ConvolutionStops(a, b, k, n - 1);
    }
  }

  /** Nor do those of too small a degree. */
  lemma {:induction false} ConvolutionBeyond(a: Bits, b: Bits, k: nat, n: nat)
    requires n <= |a| && n + |b| <= k + 1
    ensures !Convolution(a, b, k, n)
  {
    if n > 0 {
      ConvolutionBeyond(a, b, k, n - 1);
    }
  }

  /** For a divisor with leading coefficient 1, the quotient is determined from the top. */
  lemma {:induction false} QuotientFromTop(d: Bits, g: Bits, p: Bits, q: Bits, r: Bits, t: Bits, k: nat)
    requires Divides(d, g, p, r) && Divides(d, g, q, t) && g[0] && k <= |p|
    ensures |p| == |q| && p[..k] == q[..k]
  {
    if k > 0 {
      var i := k - 1;
      QuotientFromTop(d, g, p, q, r, t, i);
      ConvolutionStops(p, g, i, |p|);
      ConvolutionStops(q, g, i, |q|);
      ConvolutionOfPrefix(p, q, g, i, i);
      assert d[i] == Times(p, g)[i] == Times(q, g)[i];
      assert p[..k] == p[..i] + [p[i]] && q[..k] == q[..i] + [q[i]];
    }
  }

  lemma {:induction false} RemainderUnique(d: Bits, g: Bits, p: Bits, q: Bits, r: Bits, t: Bits)
    requires Divides(d, g, p, r) && Divides(d, g, q, t) && g[0]
    ensures p == q && r == t
  {
    QuotientFromTop(d, g, p, q, r, t, |p|);
    assert p == p[..|p|] && q == q[..|q|];
    forall i | 0 <= i < |r| ensures r[i] == t[i] {
      assert d[|p| + i] == (Times(p, g)[|p| + i] != r[i]);
      assert d[|p| + i] == (Times(q, g)[|p| + i] != t[i]);
    }
  }
}
