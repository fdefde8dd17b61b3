/** Integer divisibility and the greatest common divisor (Euclid's algorithm),
    the reference against which the fraction reduction is proved. */
module Divisibility {

  /** `k` divides `a`: the test `a % k == 0` with a nonzero divisor. */
  predicate Divides(k: int, a: int) {
    k != 0 && a % k == 0
  }

  function Abs(x: int): nat {
    if x < 0 then -x else x
  }

  /** Euclid's algorithm on natural numbers; Gcd(0, 0) == 0. */
  function Gcd(a: nat, b: nat): nat
    decreases b
  {
    if b == 0 then a else Gcd(b, a % b)
  }

  lemma MultipleIsDivisible(k: int, q: int)
    requires k > 0
    ensures Divides(k, k * q)
  {
  }

  lemma DividesIsMultiple(k: int, a: int)
    requires k > 0 && Divides(k, a)
    ensures a == k * (a / k)
  {
  }

  /** Divisibility is closed under `m * x + y`. */
  lemma DividesLinear(k: int, x: int, y: int, m: int)
    requires k > 0 && Divides(k, x) && Divides(k, y)
    ensures Divides(k, m * x + y)
  {
    var p, q := x / k, y / k;
    DividesIsMultiple(k, x);
    DividesIsMultiple(k, y);
    assert m * x + y == k * (m * p + q) by {
      assert m * x == m * (k * p) == k * (m * p);
    }
    MultipleIsDivisible(k, m * p + q);
  }

  lemma DividesNegation(k: int, a: int)
    requires k > 0
    ensures Divides(k, a) <==> Divides(k, -a)
  {
    if Divides(k, a) {
      DividesLinear(k, a, 0, -1);
    }
    if Divides(k, -a) {
      DividesLinear(k, -a, 0, -1);
    }
  }

  lemma DividesAbs(k: int, a: int)
    requires k > 0
    ensures Divides(k, a) <==> Divides(k, Abs(a))
  {
    DividesNegation(k, a);
  }

  /** A positive divisor of a positive number is no larger than it. */
  lemma DivisorIsSmaller(k: int, a: int)
    requires k > 0 && a > 0 && Divides(k, a)
    ensures k <= a
  {
    var q := a / k;
    DividesIsMultiple(k, a);
    assert q >= 1;
    assert k * q == k * (q - 1) + k;
  }

  /** `k * m` divides `k * a` exactly when `m` divides `a`, in the direction needed here. */
  lemma ScaledDivides(k: int, m: int, a: int)
    requires k > 0 && m > 0 && Divides(m, a)
    ensures Divides(k * m, k * a)
  {
    var q := a / m;
    DividesIsMultiple(m, a);
    assert k * a == (k * m) * q;
    MultipleIsDivisible(k * m, q);
  }

  /** Euclid's algorithm yields a common divisor of its arguments. */
  lemma {:induction false} GcdIsCommonDivisor(a: nat, b: nat)
    requires a > 0 || b > 0
    ensures Gcd(a, b) > 0 && Divides(Gcd(a, b), a) && Divides(Gcd(a, b), b)
    decreases b
  {
    if b == 0 {
      MultipleIsDivisible(a, 1);
      MultipleIsDivisible(a, 0);
    } else {
      GcdIsCommonDivisor(b, a % b);
      var g := Gcd(b, a % b);
      DividesLinear(g, b, a % b, a / b);
      assert a == (a / b) * b + a % b;
    }
  }

  /** Every positive common divisor divides the result of Euclid's algorithm. */
  lemma {:induction false} CommonDivisorDividesGcd(a: nat, b: nat, k: int)
    requires k > 0 && Divides(k, a) && Divides(k, b)
    ensures Divides(k, Gcd(a, b))
    decreases b
  {
    if b != 0 {
      DividesLinear(k, b, a, -(a / b));
      assert a % b == -(a / b) * b + a;
      CommonDivisorDividesGcd(b, a % b, k);
    }
  }

  /** So the result of Euclid's algorithm is the greatest common divisor. */
  lemma GcdIsGreatest(a: nat, b: nat, k: int)
    requires a > 0 || b > 0
    requires k > 0 && Divides(k, a) && Divides(k, b)
    ensures k <= Gcd(a, b)
  {
    GcdIsCommonDivisor(a, b);
    CommonDivisorDividesGcd(a, b, k);
    DivisorIsSmaller(k, Gcd(a, b));
  }

  /** Bezout's identity: the gcd is an integer combination of its arguments. */
  lemma {:induction false} Bezout(a: nat, b: nat) returns (x: int, y: int)
    ensures x * a + y * b == Gcd(a, b)
    decreases b
  {
    if b == 0 {
      x, y := 1, 0;
    } else {
      var x', y' := Bezout(b, a % b);
      var q := a / b;
      assert a % b == a - q * b;
      x, y := y', x' - y' * q;
      calc {
        x * a + y * b;
        y' * a + x' * b - y' * q * b;
        x' * b + y' * (a - q * b);
        x' * b + y' * (a % b);
      }
    }
  }

  lemma CombinationTimes(x: int, a: int, y: int, k: int, c: int)
    requires x * a + y * k == 1
    ensures c == y * (k * c) + x * (a * c)
  {
    assert (x * a + y * k) * c == x * (a * c) + y * (k * c);
  }

  lemma DividesAbsFactor(k: int, a: int, c: int)
    requires k > 0 && Divides(k, a * c)
    ensures Divides(k, Abs(a) * c)
  {
    if a < 0 {
      assert Abs(a) * c == -(a * c);
      DividesNegation(k, a * c);
    }
  }

  /** Euclid's lemma: a number coprime to `a` that divides `a * c` divides `c`. */
  lemma CoprimeDividesFactor(k: int, a: int, c: int)
    requires k > 0 && Gcd(Abs(a), k) == 1 && Divides(k, a * c)
    ensures Divides(k, c)
  {
    var x, y := Bezout(Abs(a), k);
    var ac, kc := Abs(a) * c, k * c;
    DividesAbsFactor(k, a, c);
    MultipleIsDivisible(k, c);
    DividesLinear(k, ac, kc, x);
    DividesLinear(k, kc, x * ac + kc, y - 1);
    CombinationTimes(x, Abs(a), y, k, c);
    assert c == (y - 1) * kc + (x * ac + kc);
  }
}
