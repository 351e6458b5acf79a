/** The extended Euclidean algorithm behind every copy of the modular inverse,
    its Bezout identity, and what follows from it: Gauss's lemma, Euclid's
    lemma for primes, the coprime-product rule used for the Chinese remainder
    step of RSA, and the uniqueness of a modular inverse in [0, m). */
module Euclid {
  import opened NumberTheory

  datatype Egcd = Egcd(g: int, x: int, y: int)

  /** extended_gcd(a, b) (low_end_lappy.py), with Python's floor division and
      remainder. egcd(a, b) of classic.py and quantum.py computes the same
      triple: it only names the two coefficients of the recursive result the
      other way round. */
  function ExtendedGcd(a: int, b: int): (r: Egcd)
    ensures a * r.x + b * r.y == r.g
    ensures Divides(r.g, a) && Divides(r.g, b)
    ensures a >= 0 && b >= 0 ==> r.g >= 0
    ensures a == 0 ==> r == Egcd(b, 0, 1)
    decreases Abs(a)
  {
    if a == 0 then
      DividesZero(b);
      DividesRefl(b);
      Egcd(b, 0, 1)
    else
      var q := PyDiv(b, a);
      var r1 := ExtendedGcd(PyMod(b, a), a);
      BezoutStep(a, b, q, PyMod(b, a), r1.x, r1.y);
      DividesMul(r1.g, a, q);
      DividesAdd(r1.g, a * q, PyMod(b, a));
      Egcd(r1.g, r1.y - q * r1.x, r1.x)
  }

  /** One step back up the recursion keeps the Bezout identity. */
  lemma BezoutStep(a: int, b: int, q: int, s: int, x1: int, y1: int)
    requires b == a * q + s
    ensures a * (y1 - q * x1) + b * x1 == s * x1 + a * y1
  {
    calc {
      a * (y1 - q * x1) + b * x1;
      a * y1 - a * (q * x1) + b * x1;
      { assert a * (q * x1) == (a * q) * x1; }
      a * y1 - (a * q) * x1 + b * x1;
      a * y1 + (b - a * q) * x1;
      s * x1 + a * y1;
    }
  }

  /** The g of extended_gcd up to sign, and exactly math.gcd for
      nonnegative arguments. */
  lemma ExtendedGcdIsGcd(a: int, b: int)
    ensures Abs(ExtendedGcd(a, b).g) == Gcd(a, b)
    ensures a >= 0 && b >= 0 ==> ExtendedGcd(a, b).g == Gcd(a, b)
  {
    var r := ExtendedGcd(a, b);
    GcdDivides(a, b);
    DividesMul(Gcd(a, b), a, r.x);
    DividesMul(Gcd(a, b), b, r.y);
    DividesAdd(Gcd(a, b), a * r.x, b * r.y);
    DividesNeg(Gcd(a, b), r.g);
    DividesNeg(r.g, a);
    DividesNeg(r.g, b);
    assert Abs(Gcd(a, b)) == Gcd(a, b);
    assert Divides(Abs(r.g), a) by {
      DividesNegLeft(r.g, a);
    }
    assert Divides(Abs(r.g), b) by {
      DividesNegLeft(r.g, b);
    }
    assert Divides(Gcd(a, b), Abs(r.g)) by {
      DividesNegRight(Gcd(a, b), r.g);
    }
    GcdUnique(Abs(r.g), a, b);
  }

  /** Bezout: math.gcd(a, b) is an integer combination of a and b. */
  lemma Bezout(a: int, b: int) returns (x: int, y: int)
    ensures a * x + b * y == Gcd(a, b)
  {
    var r := ExtendedGcd(a, b);
    ExtendedGcdIsGcd(a, b);
    if r.g >= 0 {
      x, y := r.x, r.y;
    } else {
      x, y := -r.x, -r.y;
      NegCombination(a, b, r.x, r.y);
    }
  }

  /** Scaling a * x + b * y == 1 by c. */
  lemma BezoutScale(a: int, b: int, c: int, x: int, y: int)
    requires a * x + b * y == 1
    ensures c == a * (x * c) + (b * c) * y
  {
    assert c == (a * x + b * y) * c;
  }

  lemma NegCombination(a: int, b: int, u: int, v: int)
    ensures a * (-u) + b * (-v) == -(a * u + b * v)
  {
  }

  /** Gauss's lemma: a divisor of b * c coprime to b divides c. */
  lemma Gauss(a: int, b: int, c: int)
    requires Gcd(a, b) == 1 && Divides(a, b * c)
    ensures Divides(a, c)
  {
    var x, y := Bezout(a, b);
    BezoutScale(a, b, c, x, y);
    DividesRefl(a);
    DividesMul(a, a, x * c);
    DividesMul(a, b * c, y);
    DividesAdd(a, a * (x * c), (b * c) * y);
  }

  /** Euclid's lemma: a prime dividing a product divides one of its factors. */
  lemma EuclidPrime(p: int, a: int, b: int)
    requires Prime(p) && Divides(p, a * b)
    ensures Divides(p, a) || Divides(p, b)
  {
    if !Divides(p, a) {
      PrimeCoprime(p, a);
      Gauss(p, a, b);
    }
  }

  /** Two distinct primes are coprime. */
  lemma DistinctPrimesCoprime(p: int, q: int)
    requires Prime(p) && Prime(q) && p != q
    ensures Gcd(p, q) == 1
  {
    if Divides(p, q) {
      PrimeDivisor(q, p);
    }
    PrimeCoprime(p, q);
  }

  /** A number divisible by two coprime numbers is divisible by their product. */
  lemma CoprimeProduct(p: int, q: int, x: int)
    requires Gcd(p, q) == 1 && Divides(p, x) && Divides(q, x)
    ensures Divides(p * q, x)
  {
    var k :| x == p * k;
    GcdSym(p, q);
    assert Divides(q, p * k);
    Gauss(q, p, k);
    var j :| k == q * j;
    MulAssoc(p, q, j);
    assert x == (p * q) * j;
  }

  /** A number with an inverse modulo m is coprime to m. */
  lemma InverseCoprime(a: int, x: int, m: int)
    requires Cong(a * x, 1, m)
    ensures Gcd(a, m) == 1
  {
    var g := Gcd(a, m);
    GcdDivides(a, m);
    DividesMul(g, a, x);
    DividesTrans(g, m, a * x - 1);
    DividesAdd(g, a * x, a * x - 1);
    assert a * x - (a * x - 1) == 1;
    DividesBound(g, 1);
  }

  /** A modular inverse is unique in [0, m): this is what identifies
      sympy.mod_inverse with the model's mod_inverse. */
  lemma InverseUnique(a: int, x: int, y: int, m: int)
    requires m > 0 && 0 <= x < m && 0 <= y < m
    requires Cong(a * x, 1, m) && Cong(a * y, 1, m)
    ensures x == y
  {
    InverseCoprime(a, x, m);
    GcdSym(a, m);
    DividesAdd(m, a * x - 1, a * y - 1);
    assert (a * x - 1) - (a * y - 1) == a * (x - y);
    Gauss(m, a, x - y);
    CongResidue(x, y, m);
  }

  /** From extended_gcd(a % m, m) with gcd 1, its x is an inverse of a mod m. */
  lemma BezoutInverse(a: int, m: int)
    requires m > 0 && Gcd(a, m) == 1
    ensures Cong(a * ExtendedGcd(a % m, m).x, 1, m)
  {
    var s := a % m;
    var t := a / m;
    var r := ExtendedGcd(s, m);
    assert s == a - m * t;
    GcdMod(a, m);
    ExtendedGcdIsGcd(s, m);
    ShiftInverse(a, m, t, s, r.x, r.y);
  }

  lemma ShiftInverse(a: int, m: int, t: int, s: int, x: int, y: int)
    requires s == a - m * t && s * x + m * y == 1
    ensures Cong(a * x, 1, m)
  {
    calc {
      a * x - 1;
      a * x - (s * x + m * y);
      a * x - ((a - m * t) * x + m * y);
      { assert (a - m * t) * x == a * x - (m * t) * x; }
      (m * t) * x - m * y;
      { assert (m * t) * x == m * (t * x); }
      m * (t * x - y);
    }
  }

  /** Any inverse reduced modulo m is still an inverse. */
  lemma ReduceInverse(a: int, y: int, m: int)
    requires m > 0 && Cong(a * y, 1, m)
    ensures Cong(a * (y % m), 1, m)
  {
    CongMod(y, m);
    CongSym(y, y % m, m);
    CongRefl(a, m);
    CongMul(a, a, y % m, y, m);
    CongTrans(a * (y % m), a * y, 1, m);
  }
}
