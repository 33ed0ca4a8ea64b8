/** The immutable complex value type of the solver, over exact reals.

    The source keeps two `float` parts.  Here the parts are exact `real`s, and
    the single non-finite value the arithmetic can reach is modelled by the
    constructor `NaN`: the reciprocal of exact zero divides 0 by 0 in both
    parts, and every operation that meets a NaN part yields NaN in both parts
    again.
 */
module ComplexNumbers {

  datatype Complex = Complex(re: real, im: real) | NaN

  const Zero: Complex := Complex(0.0, 0.0)
  const One: Complex := Complex(1.0, 0.0)

  /** The product of two parts.  Every product of parts goes through this
      function, so that equal products are recognised as equal terms. */
  function Mul(x: real, y: real): real
  {
    x * y
  }

  /** Exact component-wise equality with no tolerance; like IEEE `==`, a NaN
      part equals nothing, so NaN is not equal even to itself. */
  function Equals(a: Complex, b: Complex): (r: bool)
    ensures r <==> a.Complex? && a == b
  {
    a.Complex? && b.Complex? && a.re == b.re && a.im == b.im
  }

  /** The zero test: equality with a freshly built 0 + 0i. */
  function IsZero(a: Complex): (r: bool)
    ensures r <==> a.Complex? && a.re == 0.0 && a.im == 0.0
  {
    Equals(a, Complex(0.0, 0.0))
  }

  /** `plus`: part by part; subtracting `b` again gives `a` back. */
  function Plus(a: Complex, b: Complex): (r: Complex)
    ensures r.NaN? <==> a.NaN? || b.NaN?
    ensures a.Complex? && b.Complex? ==> Minus(r, b) == a
  {
    if a.NaN? || b.NaN? then NaN else Complex(a.re + b.re, a.im + b.im)
  }

  /** The static two-argument form of `plus`: the same sum as the instance
      method, formed part by part. */
  function PlusStatic(a: Complex, b: Complex): (r: Complex)
    ensures r == Plus(a, b)
    ensures a.Complex? && b.Complex? ==> r.Complex? && r.re - a.re == b.re && r.im - a.im == b.im
  {
    if a.NaN? || b.NaN? then NaN else Complex(a.re + b.re, a.im + b.im)
  }

  /** `minus`: part by part; adding the parts of `b` back gives `a`. */
  function Minus(a: Complex, b: Complex): (r: Complex)
    ensures r.NaN? <==> a.NaN? || b.NaN?
    ensures a.Complex? && b.Complex? ==> r.re + b.re == a.re && r.im + b.im == a.im
  {
    if a.NaN? || b.NaN? then NaN else Complex(a.re - b.re, a.im - b.im)
  }

  /** `times`: `(ac - bd, ad + bc)`; `1 + 0i` is neutral. */
  function Times(a: Complex, b: Complex): (r: Complex)
    ensures r.NaN? <==> a.NaN? || b.NaN?
    ensures b == One ==> r == a
  {
    if a.NaN? || b.NaN? then NaN
    else Complex(Mul(a.re, b.re) - Mul(a.im, b.im), Mul(a.re, b.im) + Mul(a.im, b.re))
  }

  /** `scale(alpha)`: both parts times `alpha`, which is the product with
      the real `alpha + 0i`. */
  function Scale(a: Complex, alpha: real): (r: Complex)
    ensures r == Times(Complex(alpha, 0.0), a)
  {
    if a.NaN? then NaN else Complex(Mul(alpha, a.re), Mul(alpha, a.im))
  }

  /** `conjugate`: the imaginary part negated, so that a value plus its
      conjugate is real and a value less its conjugate is imaginary. */
  function Conjugate(a: Complex): (r: Complex)
    ensures r.NaN? <==> a.NaN?
    ensures a.Complex? ==> Plus(a, r).im == 0.0 && Minus(a, r).re == 0.0
  {
    if a.NaN? then NaN else Complex(a.re, -a.im)
  }

  /** `re*re + im*im`, the divisor of the reciprocal. */
  function NormSquared(a: Complex): real
    requires a.Complex?
  {
    Mul(a.re, a.re) + Mul(a.im, a.im)
  }

  /** `(re/s, -im/s)` with `s = re*re + im*im`.  The divisor `s` is zero
      exactly for 0 + 0i, and then both quotients are 0/0, that is NaN. */
  function Reciprocal(a: Complex): (r: Complex)
    ensures r.NaN? <==> a.NaN? || IsZero(a)
    ensures r.Complex? ==> Times(a, r) == One
  {
    if a.NaN? || IsZero(a) then NaN
    else
      NormSquaredPositive(a);
      ReciprocalParts(a.re, a.im, NormSquared(a));
      Complex(a.re / NormSquared(a), -a.im / NormSquared(a))
  }

  /** `a / b`, computed as `a` times the reciprocal of `b`. */
  function Divides(a: Complex, b: Complex): (r: Complex)
    ensures b.NaN? || IsZero(b) ==> r.NaN?
    ensures a.Complex? && b.Complex? && !IsZero(b) ==> r.Complex? && Times(r, b) == a
  {
    if a.Complex? && b.Complex? && !IsZero(b) then
      TimesAssociative(a, Reciprocal(b), b);
      TimesCommutative(Reciprocal(b), b);
      TimesOne(a);
      Times(a, Reciprocal(b))
    else
      Times(a, Reciprocal(b))
  }

  lemma MulPositive(u: real, v: real)
    requires u > 0.0 && v > 0.0
    ensures Mul(u, v) > 0.0
  {
  }

  lemma MulNegative(u: real, v: real)
    requires u < 0.0 && v < 0.0
    ensures Mul(u, v) > 0.0
  {
    MulPositive(-u, -v);
    assert Mul(-u, -v) == Mul(u, v);
  }

  lemma SquareSign(x: real)
    ensures Mul(x, x) >= 0.0
    ensures x != 0.0 ==> Mul(x, x) > 0.0
  {
    if x < 0.0 {
      MulNegative(x, x);
    } else if x > 0.0 {
      MulPositive(x, x);
    }
  }

  /** The divisor of the reciprocal is positive for every non-zero value. */
  lemma NormSquaredPositive(a: Complex)
    requires a.Complex? && !IsZero(a)
    ensures NormSquared(a) > 0.0
  {
    SquareSign(a.re);
    SquareSign(a.im);
  }

  /** The two parts of `a * (1/a)` are 1 and 0, computed over the reals. */
  lemma ReciprocalParts(x: real, y: real, s: real)
    requires s == Mul(x, x) + Mul(y, y) && s != 0.0
    ensures Mul(x, x / s) - Mul(y, -y / s) == 1.0
    ensures Mul(x, -y / s) + Mul(y, x / s) == 0.0
  {
    assert x * (x / s) == (x * x) / s;
    assert y * (-y / s) == -(y * y) / s;
    assert (x * x) / s + (y * y) / s == (x * x + y * y) / s;
    assert x * (-y / s) == -(x * y) / s;
    assert y * (x / s) == (x * y) / s;
  }

  lemma TimesCommutative(a: Complex, b: Complex)
    ensures Times(a, b) == Times(b, a)
  {
  }

  lemma TimesAssociative(a: Complex, b: Complex, c: Complex)
    ensures Times(Times(a, b), c) == Times(a, Times(b, c))
  {
    if a.Complex? && b.Complex? && c.Complex? {
      AssociativeParts(a.re, a.im, b.re, b.im, c.re, c.im);
    }
  }

  /** The two parts of `(a*b)*c` and `a*(b*c)` agree, for `a = p + qi`,
      `b = r + si`, `c = t + ui`. */
  lemma AssociativeParts(p: real, q: real, r: real, s: real, t: real, u: real)
    ensures Mul(Mul(p, r) - Mul(q, s), t) - Mul(Mul(p, s) + Mul(q, r), u)
         == Mul(p, Mul(r, t) - Mul(s, u)) - Mul(q, Mul(r, u) + Mul(s, t))
    ensures Mul(Mul(p, r) - Mul(q, s), u) + Mul(Mul(p, s) + Mul(q, r), t)
         == Mul(p, Mul(r, u) + Mul(s, t)) + Mul(q, Mul(r, t) - Mul(s, u))
  {
    assert (p * r - q * s) * t - (p * s + q * r) * u
        == p * (r * t - s * u) - q * (r * u + s * t);
    assert (p * r - q * s) * u + (p * s + q * r) * t
        == p * (r * u + s * t) + q * (r * t - s * u);
  }

  /** Multiplication distributes over a sum and a difference of finite
      values. */
  lemma TimesDistributes(a: Complex, b: Complex, c: Complex)
    requires a.Complex? && b.Complex? && c.Complex?
    ensures Times(Plus(a, b), c) == Plus(Times(a, c), Times(b, c))
    ensures Times(Minus(a, b), c) == Minus(Times(a, c), Times(b, c))
  {
    MulDistributes(a.re, b.re, c.re);
    MulDistributes(a.im, b.im, c.im);
    MulDistributes(a.re, b.re, c.im);
    MulDistributes(a.im, b.im, c.re);
  }

  lemma MulDistributes(x: real, y: real, z: real)
    ensures Mul(x + y, z) == Mul(x, z) + Mul(y, z)
    ensures Mul(x - y, z) == Mul(x, z) - Mul(y, z)
  {
    assert (x + y) * z == x * z + y * z;
    assert (x - y) * z == x * z - y * z;
  }

  lemma TimesOne(a: Complex)
    ensures Times(a, One) == a
  {
  }

  /** For every non-zero finite value, `a * (1/a) == 1`. */
  lemma TimesReciprocal(a: Complex)
    requires a.Complex? && !IsZero(a)
    ensures Times(a, Reciprocal(a)) == One
  {
  }

  /** A finite product with a zero factor is zero. */
  lemma TimesZero(a: Complex, b: Complex)
    requires a.Complex? && b.Complex? && (IsZero(a) || IsZero(b))
    ensures IsZero(Times(a, b))
  {
  }

  /** Dividing a finite value by one gives it back. */
  lemma DividesByOne(a: Complex)
    requires a.Complex?
    ensures Divides(a, One) == a
  {
    assert !IsZero(One);
    TimesOne(Divides(a, One));
  }

  /** A product with a finite non-zero factor determines the other factor:
      it is the product divided by that factor. */
  lemma QuotientIsUnique(a: Complex, y: Complex, b: Complex)
    requires a.Complex? && !IsZero(a) && y.Complex? && Times(a, y) == b
    ensures y == Divides(b, a)
  {
    TimesCommutative(a, y);
    TimesAssociative(y, a, Reciprocal(a));
    TimesReciprocal(a);
    TimesOne(y);
  }

  /** Subtraction undoes addition on finite values; both act part by part. */
  lemma PlusMinusInverse(a: Complex, b: Complex)
    requires a.Complex? && b.Complex?
    ensures Minus(Plus(a, b), b) == a
    ensures Plus(a, b) == Complex(a.re + b.re, a.im + b.im)
    ensures Minus(a, b) == Complex(a.re - b.re, a.im - b.im)
  {
  }

  lemma PlusCommutative(a: Complex, b: Complex)
    ensures Plus(a, b) == Plus(b, a)
  {
  }

  /** Conjugation negates the imaginary part and undoes itself. */
  lemma ConjugateInvolution(a: Complex)
    ensures Conjugate(Conjugate(a)) == a
    ensures a.Complex? ==> Conjugate(a) == Complex(a.re, -a.im)
  {
  }

  /** A finite value times its conjugate is the real `re*re + im*im`. */
  lemma TimesConjugate(a: Complex)
    requires a.Complex?
    ensures Times(a, Conjugate(a)) == Complex(NormSquared(a), 0.0)
  {
    assert Mul(a.im, -a.im) == -Mul(a.im, a.im);
    assert Mul(a.re, -a.im) == -Mul(a.im, a.re);
  }

  /** A NaN operand makes every arithmetic result NaN, and NaN is neither
      zero nor equal to itself. */
  lemma NaNAbsorbs(a: Complex)
    ensures Plus(a, NaN).NaN? && Minus(a, NaN).NaN? && Minus(NaN, a).NaN?
    ensures Times(a, NaN).NaN? && Times(NaN, a).NaN?
    ensures Divides(a, NaN).NaN? && Divides(NaN, a).NaN?
    ensures !IsZero(NaN) && !Equals(NaN, NaN)
  {
  }
}
