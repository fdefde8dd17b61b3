/** An exact fraction of two integers, as the calculator's `Fraction` type
    keeps it: every value is built through the designated initialiser, which
    moves the sign onto the numerator and divides out the greatest common
    divisor, so the stored pair always has a positive denominator and is in
    lowest terms. The stored fields never change after construction, so a
    fraction is an immutable datatype value here. */
module Fractions {
  import opened Divisibility
  import opened Text

  datatype Fraction = Fraction(num: int, den: int) {

    /** What construction guarantees: a positive denominator and lowest terms. */
    predicate Valid() {
      den > 0 && Gcd(Abs(num), den) == 1
    }

    /** The rational number the pair stands for. */
    ghost function Value(): real
      requires den != 0
    {
      num as real / den as real
    }

    // Arithmetic on two fractions: each result goes through the designated initialiser.

    function Add(f: Fraction): (r: Fraction)
      requires Valid() && f.Valid()
      ensures r.Valid() && r.Value() == Value() + f.Value()
    {
      SumValue(num, den, f.num, f.den);
      Normalize(num * f.den + den * f.num, den * f.den)
    }

    function Subtract(f: Fraction): (r: Fraction)
      requires Valid() && f.Valid()
      ensures r.Valid() && r.Value() == Value() - f.Value()
    {
      DifferenceValue(num, den, f.num, f.den);
      Normalize(num * f.den - den * f.num, den * f.den)
    }

    function Multiply(f: Fraction): (r: Fraction)
      requires Valid() && f.Valid()
      ensures r.Valid() && r.Value() == Value() * f.Value()
    {
      ProductValue(num, den, f.num, f.den);
      Normalize(num * f.num, den * f.den)
    }

    /** Dividing by a fraction whose numerator is 0 would build a zero denominator. */
    function Divide(f: Fraction): (r: Fraction)
      requires Valid() && f.Valid() && f.num != 0
      ensures f.Value() != 0.0
      ensures r.Valid() && r.Value() == Value() / f.Value()
    {
      QuotientValue(num, den, f.num, f.den);
      Normalize(num * f.den, den * f.num)
    }

    // The same operations with an integer operand, written out as in the source.

    function AddInt(x: int): (r: Fraction)
      requires Valid()
      ensures r == Add(FromInt(x))
      ensures r.Value() == Value() + x as real
    {
      Normalize(num + den * x, den)
    }

    function SubtractInt(x: int): (r: Fraction)
      requires Valid()
      ensures r == Subtract(FromInt(x))
      ensures r.Value() == Value() - x as real
    {
      Normalize(num - den * x, den)
    }

    function MultiplyInt(x: int): (r: Fraction)
      requires Valid()
      ensures r == Multiply(FromInt(x))
      ensures r.Value() == Value() * x as real
    {
      Normalize(num * x, den)
    }

    function DivideInt(x: int): (r: Fraction)
      requires Valid() && x != 0
      ensures r == Divide(FromInt(x))
      ensures r.Value() == Value() / x as real
    {
      Normalize(num, den * x)
    }

    /** The display text: just the numerator for a whole number (and for 0),
        otherwise `num/den`, which reads back as the same fraction. */
    function Description(): (s: string)
      requires Valid()
      ensures '/' in s <==> den != 1 && num != 0
      ensures den == 1 || num == 0 ==> s == IntToString(num)
      ensures den != 1 && num != 0 ==> s == IntToString(num) + "/" + IntToString(den)
    {
      if den == 1 then IntToString(num)
      else if num == 0 then IntToString(num)
      else IntToString(num) + "/" + IntToString(den)
    }

    /** The display text with the last branch as the source writes it: a tuple
        `(den, num % den)` followed by `/den`, with Swift's truncating `%`. */
    function DescriptionAsWritten(): (s: string)
      requires Valid()
      ensures den != 1 && num != 0 ==> s != [] && s[0] == '('
    {
      if den == 1 then IntToString(num)
      else if num == 0 then IntToString(num)
      else "(" + IntToString(den) + ", " + IntToString(TruncatedRemainder(num, den)) + ")/" + IntToString(den)
    }
  }

  /** A constructed fraction with numerator 0 is 0/1. */
  lemma ZeroHasUnitDenominator(f: Fraction)
    requires f.Valid()
    ensures f.num == 0 ==> f.den == 1
  {
    assert Gcd(0, f.den) == Gcd(f.den, 0);
  }

  /** Swift's `%`: the remainder takes the sign of the dividend, is smaller in
      magnitude than the divisor, and differs from the dividend by a multiple of it. */
  function TruncatedRemainder(a: int, b: int): (r: int)
    requires b != 0
    ensures Abs(r) < Abs(b)
    ensures a >= 0 ==> r >= 0
    ensures a < 0 ==> r <= 0
    ensures Divides(Abs(b), a - r)
  {
    var m := Abs(a) % Abs(b);
    RemainderLeavesMultiple(Abs(a), Abs(b));
    if a < 0 then
      DividesNegation(Abs(b), Abs(a) - m);
      -m
    else
      m
  }

  lemma RemainderLeavesMultiple(n: nat, k: nat)
    requires k > 0
    ensures Divides(k, n - n % k)
  {
    var q := n / k;
    assert n - n % k == k * q;
    MultipleIsDivisible(k, q);
  }

  /** The designated initialiser as a specification: flip both signs when the
      denominator is negative, then divide both by their greatest common divisor. */
  function Normalize(n: int, d: int): (f: Fraction)
    requires d != 0
    ensures f.Valid()
    ensures f.num * d == n * f.den
    ensures f.Value() == n as real / d as real
  {
    var sn := if d < 0 then -n else n;
    var sd := if d < 0 then -d else d;
    ReduceByGcd(sn, sd);
    var g := Gcd(Abs(sn), sd);
    var f := Fraction(sn / g, sd / g);
    assert f.num * d == n * f.den;
    CrossFromValue(f.num, f.den, n, d);
    f
  }

  /** `init(num:den:)`: the sign step and the downward search for the largest
      common divisor, starting at the denominator, exactly as the source runs it. */
  method Create(num: int, den: int) returns (f: Fraction)
    requires den != 0
    ensures f == Normalize(num, den)
  {
    var n, d := num, den;
    if d < 0 {
      n := -n;
      d := -d;
    }
    ghost var sn, sd := n, d;
    var g := d;
    while g >= 1
      invariant 0 <= g <= d
      invariant n == sn && d == sd
      invariant forall k :: g < k <= d ==> !(Divides(k, n) && Divides(k, d))
    {
      if n % g == 0 && d % g == 0 {
        SearchFindsGcd(n, d, g);
        n := n / g;
        d := d / g;
        break;
      }
      g := g - 1;
    }
    assert Divides(1, sn) && Divides(1, sd);
    f := Fraction(n, d);
  }

  /** The first common divisor met going down from `d` is Euclid's gcd. */
  lemma SearchFindsGcd(n: int, d: int, g: int)
    requires 0 < g <= d && Divides(g, n) && Divides(g, d)
    requires forall k :: g < k <= d ==> !(Divides(k, n) && Divides(k, d))
    ensures g == Gcd(Abs(n), d)
  {
    var G := Gcd(Abs(n), d);
    GcdIsCommonDivisor(Abs(n), d);
    DividesAbs(G, n);
    DivisorIsSmaller(G, d);
    DividesAbs(g, n);
    GcdIsGreatest(Abs(n), d, g);
  }

  /** `init(num:)`. */
  function FromInt(x: int): (r: Fraction)
    ensures r == Fraction(x, 1) && r.Valid()
  {
    Normalize(x, 1)
  }

  /** `init()`: the fraction zero. */
  function Zero(): (r: Fraction)
    ensures r == FromInt(0)
  {
    Fraction(0, 1)
  }

  // The static forms.

  /** `add(_:to:)`: f1 + f2. */
  function AddTo(f1: Fraction, f2: Fraction): (r: Fraction)
    requires f1.Valid() && f2.Valid()
    ensures r == f1.Add(f2)
  {
    Normalize(f1.num * f2.den + f1.den * f2.num, f1.den * f2.den)
  }

  /** `subtract(_:from:)`: the second operand minus the first. */
  function SubtractFrom(f1: Fraction, f2: Fraction): (r: Fraction)
    requires f1.Valid() && f2.Valid()
    ensures r.Valid() && r.Value() == f2.Value() - f1.Value()
  {
    f2.Subtract(f1)
  }

  /** `multiply(_:by:)`: f1 * f2. */
  function MultiplyBy(f1: Fraction, f2: Fraction): (r: Fraction)
    requires f1.Valid() && f2.Valid()
    ensures r.Valid() && r.Value() == f1.Value() * f2.Value()
  {
    f1.Multiply(f2)
  }

  /** `divide(_:by:)`: f1 / f2. */
  function DivideBy(f1: Fraction, f2: Fraction): (r: Fraction)
    requires f1.Valid() && f2.Valid() && f2.num != 0
    ensures r.Valid() && r.Value() == f1.Value() / f2.Value()
  {
    f1.Divide(f2)
  }

  // Reading a fraction from text.

  /** What `readFromString` produces: a fraction, `nil`, or, for a zero
      denominator, the initialiser's failed assertion. */
  datatype ReadResult = Read(fraction: Fraction) | NotAFraction | ZeroDenominator

  /** `readFromString` as a specification: the first `/`-separated piece is the
      numerator, the second (if any) the denominator, any further ones are ignored. */
  function ParseFraction(s: string): (r: ReadResult)
    ensures r.Read? ==> r.fraction.Valid()
    ensures r.ZeroDenominator? ==> |Split(s, '/')| > 1
  {
    var tokens := Split(s, '/');
    match ParseInt(tokens[0])
    case None => NotAFraction
    case Some(n) =>
      if |tokens| == 1 then Read(Normalize(n, 1))
      else
        match ParseInt(tokens[1])
        case None => NotAFraction
        case Some(d) => if d == 0 then ZeroDenominator else Read(Normalize(n, d))
  }

  /** `readFromString(_:)`: default numerator 0 and denominator 1, overwritten
      piece by piece, then the designated initialiser. */
  method ReadFromString(s: string) returns (r: ReadResult)
    ensures r == ParseFraction(s)
  {
    var num: int := 0;
    var den: int := 1;
    var tokens := Split(s, '/');
    if |tokens| > 0 {
      var n := ParseInt(tokens[0]);
      if n.None? {
        return NotAFraction;
      }
      num := n.value;
    }
    if |tokens| > 1 {
      var d := ParseInt(tokens[1]);
      if d.None? {
        return NotAFraction;
      }
      den := d.value;
    }
    if den == 0 {
      return ZeroDenominator;
    }
    var f := Create(num, den);
    return Read(f);
  }

  // Facts about numbers and rationals used above.

  /** Dividing a pair by its gcd leaves a pair in lowest terms with the same ratio. */
  lemma ReduceByGcd(n: int, d: int)
    requires d > 0
    ensures Gcd(Abs(n), d) > 0
    ensures Divides(Gcd(Abs(n), d), n) && Divides(Gcd(Abs(n), d), d)
    ensures Fraction(n / Gcd(Abs(n), d), d / Gcd(Abs(n), d)).Valid()
    ensures (n / Gcd(Abs(n), d)) * d == n * (d / Gcd(Abs(n), d))
  {
    var g := Gcd(Abs(n), d);
    GcdIsCommonDivisor(Abs(n), d);
    DividesAbs(g, n);
    var p, q := n / g, d / g;
    DividesIsMultiple(g, n);
    DividesIsMultiple(g, d);
    QuotientsAreCoprime(n, d, g, p, q);
    QuotientRatio(n, d, g, p, q);
  }

  lemma QuotientRatio(n: int, d: int, g: int, p: int, q: int)
    requires n == g * p && d == g * q
    ensures p * d == n * q
  {
    assert p * (g * q) == (g * p) * q;
  }

  lemma QuotientsAreCoprime(n: int, d: int, g: int, p: int, q: int)
    requires d > 0 && g == Gcd(Abs(n), d) && g > 0
    requires n == g * p && d == g * q
    ensures q > 0 && Gcd(Abs(p), q) == 1
  {
    PositiveFactor(g, q);
    var h := Gcd(Abs(p), q);
    GcdIsCommonDivisor(Abs(p), q);
    DividesAbs(h, p);
    ScaledCommonDivisor(g, h, p, q, n, d);
    GcdIsGreatest(Abs(n), d, g * h);
    ProductBound(g, h);
  }

  lemma PositiveFactor(g: int, q: int)
    requires g > 0 && g * q > 0
    ensures q > 0
  {
  }

  lemma ProductBound(g: int, h: int)
    requires g > 0 && h > 0 && g * h <= g
    ensures h == 1
  {
    assert g * h == g * (h - 1) + g;
  }

  lemma ScaledCommonDivisor(g: int, h: int, p: int, q: int, n: int, d: int)
    requires g > 0 && h > 0 && Divides(h, p) && Divides(h, q)
    requires n == g * p && d == g * q
    ensures g * h > 0 && Divides(g * h, Abs(n)) && Divides(g * h, d)
  {
    ScaledDivides(g, h, p);
    ScaledDivides(g, h, q);
    DividesAbs(g * h, n);
  }

  /** Two pairs stand for the same rational exactly when their cross products agree. */
  lemma CrossFromValue(p: int, q: int, n: int, d: int)
    requires q != 0 && d != 0
    ensures p as real / q as real == n as real / d as real <==> p * d == n * q
  {
    var x, y := p as real / q as real, n as real / d as real;
    assert x * q as real == p as real;
    assert y * d as real == n as real;
    assert (p * d) as real == p as real * d as real;
    assert (n * q) as real == n as real * q as real;
    assert (x - y) * (q as real * d as real) == (p * d) as real - (n * q) as real;
  }

  lemma SumValue(a: int, b: int, c: int, d: int)
    requires b != 0 && d != 0
    ensures (a * d + b * c) as real / (b * d) as real == a as real / b as real + c as real / d as real
  {
  }

  lemma DifferenceValue(a: int, b: int, c: int, d: int)
    requires b != 0 && d != 0
    ensures (a * d - b * c) as real / (b * d) as real == a as real / b as real - c as real / d as real
  {
  }

  lemma ProductValue(a: int, b: int, c: int, d: int)
    requires b != 0 && d != 0
    ensures (a * c) as real / (b * d) as real == (a as real / b as real) * (c as real / d as real)
  {
  }

  lemma QuotientValue(a: int, b: int, c: int, d: int)
    requires b != 0 && c != 0 && d != 0
    ensures c as real / d as real != 0.0
    ensures (a * d) as real / (b * c) as real == (a as real / b as real) / (c as real / d as real)
  {
  }
}
