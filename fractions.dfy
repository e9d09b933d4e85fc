/** Exact fractions of naturals.  Every smoothing factor of the chain is
    such a fraction, and so is every product of factors; `Value` is the
    real number a fraction denotes. */
module Fractions {

  /** A positive natural: the denominator of a fraction. */
  type Pos = n: nat | n > 0 witness 1

  /** The fraction num / den. */
  datatype Frac = Frac(num: nat, den: Pos)

  /** The fraction 1 / 1, the empty product. */
  const One: Frac := Frac(1, 1)

  /** The real number the fraction denotes. */
  function Value(f: Frac): real
  {
    f.num as real / f.den as real
  }

  /** The product of two fractions, numerators and denominators multiplied. */
  function Times(a: Frac, b: Frac): Frac
  {
    Frac(a.num * b.num, a.den * b.den)
  }

  /** A probability in (0, 1]: a positive numerator no larger than the
      denominator. */
  predicate Proper(f: Frac)
  {
    0 < f.num <= f.den
  }

  /** Strictly below one. */
  predicate BelowOne(f: Frac)
  {
    f.num < f.den
  }

  /** `a` denotes a larger number than `b`, compared by cross-multiplying. */
  predicate Exceeds(a: Frac, b: Frac)
  {
    a.num * b.den > b.num * a.den
  }

  /** Products of probabilities are probabilities, and one factor below one
      puts the product below one. */
  lemma TimesProper(a: Frac, b: Frac)
    requires Proper(a) && Proper(b)
    ensures Proper(Times(a, b))
    ensures BelowOne(a) || BelowOne(b) ==> BelowOne(Times(a, b))
  {
    MulMono(a.num, a.den, b.num);
    MulMono(b.num, b.den, a.den);
    assert a.num * b.num <= a.den * b.num == b.num * a.den <= b.den * a.den;
  }

  /** k * x <= k * y for x <= y, strictly when k > 0 and x < y. */
  lemma MulMono(x: nat, y: nat, k: nat)
    requires x <= y
    ensures x * k <= y * k
    ensures k > 0 && x < y ==> x * k < y * k
  {
  }

  /** The value of a proper fraction lies in (0, 1], and is one exactly when
      the fraction is not below one. */
  lemma ValueBounds(f: Frac)
    requires Proper(f)
    ensures 0.0 < Value(f) <= 1.0
    ensures Value(f) == 1.0 <==> !BelowOne(f)
  {
    ExceedsValue(f, One);
    ExceedsValue(One, f);
    ExceedsValue(f, Frac(0, 1));
  }

  /** Multiplying fractions multiplies their values. */
  lemma ValueOfTimes(a: Frac, b: Frac)
    ensures Value(Times(a, b)) == Value(a) * Value(b)
  {
    var an, ad, bn, bd := a.num as real, a.den as real, b.num as real, b.den as real;
    assert (a.num * b.num) as real == an * bn;
    assert (a.den * b.den) as real == ad * bd;
    assert (an * bn) / (ad * bd) == (an / ad) * (bn / bd);
  }

  /** The cross-multiplied comparison agrees with the values. */
  lemma ExceedsValue(a: Frac, b: Frac)
    ensures Exceeds(a, b) <==> Value(a) > Value(b)
  {
    var an, ad, bn, bd := a.num as real, a.den as real, b.num as real, b.den as real;
    assert (a.num * b.den) as real == an * bd;
    assert (b.num * a.den) as real == bn * ad;
    assert Value(a) == (an * bd) / (ad * bd);
    assert Value(b) == (bn * ad) / (ad * bd);
  }

  /** A common positive factor keeps the comparison. */
  lemma TimesExceeds(a: Frac, b: Frac, c: Frac)
    requires a.num > 0
    requires Exceeds(b, c)
    ensures Exceeds(Times(a, b), Times(a, c))
  {
    var k := a.num * a.den;
    MulMono(c.num * b.den, b.num * c.den, k);
    assert (a.num * b.num) * (a.den * c.den) == (b.num * c.den) * k;
    assert (a.num * c.num) * (a.den * b.den) == (c.num * b.den) * k;
  }
}
