/** What construction, arithmetic, reading and display promise, stated as
    lemmas over the fraction model. */
module FractionLaws {
  import opened Divisibility
  import opened Text
  import opened Fractions

  // Construction.

  /** A pair and its negated pair construct the same fraction. */
  lemma NormalizeSignSymmetric(n: int, d: int)
    requires d != 0
    ensures Normalize(n, d) == Normalize(-n, -d)
  {
    // Both sides compute the same pair: the sign flip undoes the negation.
  }

  /** Construction leaves an already constructed fraction as it is. */
  lemma NormalizeKeepsValid(f: Fraction)
    requires f.Valid()
    ensures Normalize(f.num, f.den) == f
  {
  }

  /** Two fractions in lowest terms with a positive denominator and the same
      cross products are the same pair. */
  lemma {:induction false} CanonicalForm(f: Fraction, g: Fraction)
    requires f.Valid() && g.Valid()
    requires f.num * g.den == g.num * f.den
    ensures f == g
  {
    MultipleIsDivisible(f.den, g.num);
    assert f.den * g.num == f.num * g.den;
    CoprimeDividesFactor(f.den, f.num, g.den);
    MultipleIsDivisible(g.den, f.num);
    assert g.den * f.num == g.num * f.den;
    CoprimeDividesFactor(g.den, g.num, f.den);
    DivisorIsSmaller(f.den, g.den);
    DivisorIsSmaller(g.den, f.den);
    assert f.den == g.den;
    assert (f.num - g.num) * f.den == 0;
  }

  /** Construction identifies exactly the pairs that stand for the same rational. */
  lemma NormalizeEqualIff(n1: int, d1: int, n2: int, d2: int)
    requires d1 != 0 && d2 != 0
    ensures Normalize(n1, d1) == Normalize(n2, d2) <==> n1 * d2 == n2 * d1
  {
    var f, g := Normalize(n1, d1), Normalize(n2, d2);
    CrossFromValue(n1, d1, n2, d2);
    if n1 * d2 == n2 * d1 {
      CrossFromValue(f.num, f.den, g.num, g.den);
      CanonicalForm(f, g);
    }
  }

  /** A fraction in lowest terms is determined by its value. */
  lemma ValueDeterminesFraction(f: Fraction, g: Fraction)
    requires f.Valid() && g.Valid() && f.Value() == g.Value()
    ensures f == g
  {
    CrossFromValue(f.num, f.den, g.num, g.den);
    CanonicalForm(f, g);
  }

  /** Zero over any denominator is 0/1. */
  lemma ZeroNumerator(d: int)
    requires d != 0
    ensures Normalize(0, d) == Zero()
  {
    ZeroHasUnitDenominator(Normalize(0, d));
  }

  // Arithmetic laws.

  lemma AddCommutes(a: Fraction, b: Fraction)
    requires a.Valid() && b.Valid()
    ensures a.Add(b) == b.Add(a)
  {
    // Both sides normalise the same pair, up to the order of the products.
  }

  lemma MultiplyCommutes(a: Fraction, b: Fraction)
    requires a.Valid() && b.Valid()
    ensures a.Multiply(b) == b.Multiply(a)
  {
    // Both sides normalise the same pair, up to the order of the products.
  }

  lemma AddAssociates(a: Fraction, b: Fraction, c: Fraction)
    requires a.Valid() && b.Valid() && c.Valid()
    ensures a.Add(b).Add(c) == a.Add(b.Add(c))
  {
    ValueDeterminesFraction(a.Add(b).Add(c), a.Add(b.Add(c)));
  }

  lemma MultiplyDistributesOverAdd(a: Fraction, b: Fraction, c: Fraction)
    requires a.Valid() && b.Valid() && c.Valid()
    ensures a.Multiply(b.Add(c)) == a.Multiply(b).Add(a.Multiply(c))
  {
    var l, r := a.Multiply(b.Add(c)), a.Multiply(b).Add(a.Multiply(c));
    assert l.Value() == a.Value() * (b.Value() + c.Value());
    ValueDeterminesFraction(l, r);
  }

  lemma SubtractSelfIsZero(a: Fraction)
    requires a.Valid()
    ensures a.Subtract(a) == Zero()
  {
    ValueDeterminesFraction(a.Subtract(a), Zero());
  }

  lemma DivideSelfIsOne(a: Fraction)
    requires a.Valid() && a.num != 0
    ensures a.Divide(a) == FromInt(1)
  {
    ValueDeterminesFraction(a.Divide(a), FromInt(1));
  }

  lemma AddZeroIsIdentity(a: Fraction)
    requires a.Valid()
    ensures a.Add(Zero()) == a
  {
    ValueDeterminesFraction(a.Add(Zero()), a);
  }

  // Reading fractions from text.

  /** One piece: an integer text reads as that integer over 1; anything else is rejected. */
  lemma ReadOnePiece(u: string)
    requires '/' !in u
    ensures ParseInt(u).None? ==> ParseFraction(u) == NotAFraction
    ensures ParseInt(u).Some? ==> ParseFraction(u) == Read(FromInt(ParseInt(u).value))
  {
    SplitWithoutSeparator(u, '/');
  }

  /** Two pieces: both must be integer texts; a zero denominator is reported. */
  lemma ReadTwoPieces(u: string, v: string)
    requires '/' !in u && '/' !in v
    ensures ParseFraction(u + "/" + v) == NotAFraction <==> ParseInt(u).None? || ParseInt(v).None?
    ensures ParseFraction(u + "/" + v) == ZeroDenominator <==> ParseInt(u).Some? && ParseInt(v) == Some(0)
    ensures ParseInt(u).Some? && ParseInt(v).Some? && ParseInt(v).value != 0 ==>
              ParseFraction(u + "/" + v) == Read(Normalize(ParseInt(u).value, ParseInt(v).value))
  {
    SplitAtFirst(u, '/', v);
    SplitWithoutSeparator(v, '/');
  }

  /** Everything after a second slash is ignored. */
  lemma ReadIgnoresTail(u: string, v: string, rest: string)
    requires '/' !in u && '/' !in v
    ensures ParseFraction(u + "/" + v + "/" + rest) == ParseFraction(u + "/" + v)
  {
    SplitAtFirst(u, '/', v + "/" + rest);
    SplitAtFirst(v, '/', rest);
    SplitAtFirst(u, '/', v);
    SplitWithoutSeparator(v, '/');
    assert u + "/" + v + "/" + rest == u + "/" + (v + "/" + rest);
  }

  /** "a" reads as a/1. */
  lemma ReadIntegerText(a: int)
    ensures ParseFraction(IntToString(a)) == Read(FromInt(a))
  {
    IntToStringRoundTrip(a);
    ReadOnePiece(IntToString(a));
  }

  /** "a/b" reads as a/b reduced, and "a/0" is reported as a zero denominator. */
  lemma ReadFractionText(a: int, b: int)
    ensures b != 0 ==> ParseFraction(IntToString(a) + "/" + IntToString(b)) == Read(Normalize(a, b))
    ensures b == 0 ==> ParseFraction(IntToString(a) + "/" + IntToString(b)) == ZeroDenominator
  {
    IntToStringRoundTrip(a);
    IntToStringRoundTrip(b);
    ReadTwoPieces(IntToString(a), IntToString(b));
  }

  // Display.

  /** The display text of a constructed fraction reads back as the same fraction. */
  lemma DescriptionRoundTrip(f: Fraction)
    requires f.Valid()
    ensures ParseFraction(f.Description()) == Read(f)
  {
    ZeroHasUnitDenominator(f);
    if f.den == 1 {
      ReadIntegerText(f.num);
    } else {
      ReadFractionText(f.num, f.den);
      NormalizeKeepsValid(f);
    }
  }

  /** With the last branch as written, the display text of a non-integer never reads back. */
  lemma DescriptionAsWrittenNeverReadsBack(f: Fraction)
    requires f.Valid() && f.den != 1
    ensures ParseFraction(f.DescriptionAsWritten()) == NotAFraction
  {
    ZeroHasUnitDenominator(f);
    var s := f.DescriptionAsWritten();
    FirstPieceStart(s, '/');
  }

  /** For 3/4 the source's text is "(4, 3)/4", where "3/4" was wanted. */
  lemma ThreeQuartersDescription()
    ensures Fraction(3, 4).Valid()
    ensures Fraction(3, 4).DescriptionAsWritten() == "(4, 3)/4"
    ensures Fraction(3, 4).Description() == "3/4"
    ensures ParseFraction("(4, 3)/4") == NotAFraction
    ensures ParseFraction("3/4") == Read(Fraction(3, 4))
  {
    assert Gcd(3, 4) == Gcd(4, 3) == Gcd(3, 1) == Gcd(1, 0) == 1;
    assert NatToString(3) == "3" && NatToString(4) == "4";
    DescriptionAsWrittenNeverReadsBack(Fraction(3, 4));
    DescriptionRoundTrip(Fraction(3, 4));
  }
}
