/** Complex numbers a+bi with the component-wise operations of the fractal
    package. Java doubles are modelled as exact reals; the magnitude, which the
    source computes with a square root, is represented by its square. */
module ComplexNumbers {

  /** A complex number with real part `r` and imaginary part `i`. */
  datatype Complex = Complex(r: real, i: real)

  const Zero: Complex := Complex(0.0, 0.0)

  function Add(a: Complex, b: Complex): Complex {
    Complex(a.r + b.r, a.i + b.i)
  }

  function Sub(a: Complex, b: Complex): Complex {
    Complex(a.r - b.r, a.i - b.i)
  }

  function Mul(a: Complex, b: Complex): Complex {
    Complex(a.r * b.r - a.i * b.i, a.i * b.r + a.r * b.i)
  }

  /** The square of the magnitude: abs(z) = sqrt(AbsSq(z)). */
  function AbsSq(z: Complex): real {
    z.r * z.r + z.i * z.i
  }

  /** A fresh value with the same parts (values are immutable here). */
  function Copy(z: Complex): (w: Complex)
    ensures w.r == z.r && w.i == z.i
  {
    Complex(z.r, z.i)
  }

  lemma AddComponentwiseCommutative(a: Complex, b: Complex)
    ensures Add(a, b).r == a.r + b.r && Add(a, b).i == a.i + b.i
    ensures Add(a, b) == Add(b, a)
  {
  }

  /** Subtraction undoes addition, in both orders. */
  lemma SubInvertsAdd(a: Complex, b: Complex)
    ensures Sub(a, b).r == a.r - b.r && Sub(a, b).i == a.i - b.i
    ensures Sub(Add(a, b), b) == a
    ensures Add(Sub(a, b), b) == a
  {
  }

  lemma MulCommutative(a: Complex, b: Complex)
    ensures Mul(a, b) == Mul(b, a)
  {
  }

  /** Multiplying by the real-only value (k, 0), on either side, scales both
      parts by k. */
  lemma MulByReal(k: real, z: Complex)
    ensures Mul(Complex(k, 0.0), z) == Complex(k * z.r, k * z.i)
    ensures Mul(z, Complex(k, 0.0)) == Complex(k * z.r, k * z.i)
  {
  }

  /** The magnitude is multiplicative: |a*b|^2 = |a|^2 * |b|^2. */
  lemma AbsSqMul(a: Complex, b: Complex)
    ensures AbsSq(Mul(a, b)) == AbsSq(a) * AbsSq(b)
  {
    var p, q, s, t := a.r, a.i, b.r, b.i;
    calc {
      AbsSq(Mul(a, b));
      (p * s - q * t) * (p * s - q * t) + (q * s + p * t) * (q * s + p * t);
      (p * p) * (s * s) + (q * q) * (t * t) + (q * q) * (s * s) + (p * p) * (t * t);
      (p * p + q * q) * (s * s + t * t);
    }
  }

  /** The squared magnitude is non-negative and vanishes exactly at the
      origin; so abs(z) >= 0 and abs(z) == 0 iff z == (0, 0). */
  lemma AbsSqZeroIff(z: Complex)
    ensures AbsSq(z) >= 0.0
    ensures AbsSq(z) == 0.0 <==> z == Zero
  {
    SquareNonNegative(z.r);
    SquareNonNegative(z.i);
    if z == Zero {
      assert AbsSq(z) == 0.0 * 0.0 + 0.0 * 0.0;
    } else {
      SumOfSquaresPositive(z.r, z.i);
      calc {
        AbsSq(z);
        z.r * z.r + z.i * z.i;
      > 0.0;
      }
    }
  }

  lemma SquarePositive(x: real)
    requires x != 0.0
    ensures x * x > 0.0
  {
    if x < 0.0 {
      var y := -x;
      assert y * y > 0.0;
      assert x * x == y * y;
    }
  }

  lemma SumOfSquaresPositive(x: real, y: real)
    requires x != 0.0 || y != 0.0
    ensures x * x + y * y > 0.0
  {
    SquareNonNegative(x);
    SquareNonNegative(y);
    if x != 0.0 {
      SquarePositive(x);
    } else {
      SquarePositive(y);
    }
  }

  lemma SquareNonNegative(x: real)
    ensures x * x >= 0.0
  {
    if x != 0.0 {
      SquarePositive(x);
    }
  }

  /** The values of the package's test program: a = 2+3i, b = -1+2i. */
  lemma SampleValues()
    ensures Add(Complex(2.0, 3.0), Complex(-1.0, 2.0)) == Complex(1.0, 5.0)
    ensures Sub(Complex(2.0, 3.0), Complex(-1.0, 2.0)) == Complex(3.0, 1.0)
    ensures Mul(Complex(2.0, 3.0), Complex(-1.0, 2.0)) == Complex(-8.0, 1.0)
    ensures AbsSq(Complex(2.0, 3.0)) == 13.0
  {
  }
}
