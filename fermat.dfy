/** Why textbook RSA decrypts what it encrypts: the binomial theorem, the
    primes dividing the inner binomial coefficients, Fermat's little theorem,
    and the combination of the two prime moduli. Every copy of
    encrypt/decrypt in the model relies on RsaRoundTrip below. */
module Fermat {
  import opened NumberTheory
  import opened Euclid

  /** The binomial coefficient n choose k, by Pascal's rule (0 when k > n). */
  function Binom(n: nat, k: nat): nat
  {
    if k == 0 then 1 else if n == 0 then 0 else Binom(n - 1, k - 1) + Binom(n - 1, k)
  }

  lemma {:induction false} BinomAbove(n: nat, k: nat)
    requires k > n
    ensures Binom(n, k) == 0
  {
    if n > 0 {
      BinomAbove(n - 1, k - 1);
      BinomAbove(n - 1, k);
    }
  }

  lemma {:induction false} BinomDiagonal(n: nat)
    ensures Binom(n, n) == 1
  {
    if n > 0 {
      BinomDiagonal(n - 1);
      BinomAbove(n - 1, n);
    }
  }

  /** The absorption identity k * C(n, k) == n * C(n - 1, k - 1). */
  lemma {:induction false} Absorption(n: nat, k: nat)
    requires n >= 1 && k >= 1
    ensures k * Binom(n, k) == n * Binom(n - 1, k - 1)
  {
    if n == 1 {
      if k > 1 {
        BinomAbove(0, k - 1);
        BinomAbove(1, k);
      }
    } else if k == 1 {
      Absorption(n - 1, 1);
    } else {
      Absorption(n - 1, k - 1);
      Absorption(n - 1, k);
      AbsorptionStep(n, k, Binom(n - 1, k - 1), Binom(n - 1, k),
                     Binom(n - 2, k - 2), Binom(n - 2, k - 1));
    }
  }

  /** The arithmetic of one Pascal step of the absorption identity. */
  lemma AbsorptionStep(n: int, k: int, a: int, b: int, a0: int, b0: int)
    requires a == a0 + b0
    requires (k - 1) * a == (n - 1) * a0 && k * b == (n - 1) * b0
    ensures k * (a + b) == n * a
  {
    calc {
      k * (a + b);
      (k - 1) * a + a + k * b;
      (n - 1) * a0 + a + (n - 1) * b0;
      (n - 1) * (a0 + b0) + a;
      n * a;
    }
  }

  /** A prime p divides C(p, k) for 0 < k < p. */
  lemma PrimeDividesBinom(p: int, k: nat)
    requires Prime(p) && 0 < k < p
    ensures Divides(p, Binom(p, k))
  {
    Absorption(p, k);
    assert Divides(p, k * Binom(p, k)) by {
      assert k * Binom(p, k) == p * Binom(p - 1, k - 1);
    }
    if Divides(p, k) {
      DividesBound(p, k);
    }
    PrimeCoprime(p, k);
    Gauss(p, k, Binom(p, k));
  }

  /** The first j terms of the binomial expansion of (x + 1)^n. */
  function BinomSum(n: nat, x: int, j: nat): int
  {
    if j == 0 then 0 else BinomSum(n, x, j - 1) + Binom(n, j - 1) * Pow(x, j - 1)
  }

  lemma {:induction false} BinomSumStep(n: nat, x: int, j: nat)
    ensures BinomSum(n + 1, x, j + 1) == x * BinomSum(n, x, j) + BinomSum(n, x, j + 1)
  {
    if j > 0 {
      BinomSumStep(n, x, j - 1);
      SumStep(x, BinomSum(n, x, j - 1), BinomSum(n + 1, x, j), Binom(n, j - 1), Binom(n, j),
              Pow(x, j - 1), Pow(x, j));
    }
  }

  /** The arithmetic of one step of BinomSumStep: s0 and s0 + c·t are the
      sums of row n, l the sum of row n + 1, and u == x·t the next power. */
  lemma SumStep(x: int, s0: int, l: int, c: int, c2: int, t: int, u: int)
    requires l == x * s0 + (s0 + c * t) && u == x * t
    ensures l + (c + c2) * u == x * (s0 + c * t) + ((s0 + c * t) + c2 * u)
  {
    assert c * u == x * (c * t);
  }

  /** The binomial theorem for (x + 1)^n. */
  lemma {:induction false} Binomial(x: int, n: nat)
    ensures Pow(x + 1, n) == BinomSum(n, x, n + 1)
  {
    if n > 0 {
      Binomial(x, n - 1);
      BinomSumStep(n - 1, x, n);
      BinomAbove(n - 1, n);
      var s := BinomSum(n - 1, x, n);
      assert BinomSum(n - 1, x, n + 1) == s;
      calc {
        Pow(x + 1, n);
        (x + 1) * Pow(x + 1, n - 1);
        (x + 1) * s;
        x * s + s;
      }
    }
  }

  lemma {:induction false} InnerTermsVanish(p: int, x: int, j: nat)
    requires Prime(p) && 1 <= j <= p
    ensures Cong(BinomSum(p, x, j), 1, p)
  {
    if j == 1 {
      CongRefl(1, p);
    } else {
      InnerTermsVanish(p, x, j - 1);
      PrimeDividesBinom(p, j - 1);
      var t := Binom(p, j - 1) * Pow(x, j - 1);
      DividesMul(p, Binom(p, j - 1), Pow(x, j - 1));
      DividesAdd(p, BinomSum(p, x, j - 1) - 1, t);
      assert (BinomSum(p, x, j - 1) - 1) + t == BinomSum(p, x, j) - 1;
    }
  }

  /** (x + 1)^p == x^p + 1 modulo a prime p. */
  lemma FreshmansDream(p: int, x: int)
    requires Prime(p)
    ensures Cong(Pow(x + 1, p), Pow(x, p) + 1, p)
  {
    Binomial(x, p);
    BinomDiagonal(p);
    InnerTermsVanish(p, x, p);
    assert BinomSum(p, x, p + 1) == BinomSum(p, x, p) + Pow(x, p);
    CongRefl(Pow(x, p), p);
    CongAdd(BinomSum(p, x, p), 1, Pow(x, p), Pow(x, p), p);
  }

  lemma {:induction false} FermatNat(p: int, a: nat)
    requires Prime(p)
    ensures Cong(Pow(a, p), a, p)
  {
    if a == 0 {
      PowZeroBase(p);
      CongRefl(0, p);
    } else {
      FermatNat(p, a - 1);
      FreshmansDream(p, a - 1);
      CongRefl(1, p);
      CongAdd(Pow(a - 1, p), a - 1, 1, 1, p);
      CongTrans(Pow(a, p), Pow(a - 1, p) + 1, a, p);
    }
  }

  /** Fermat's little theorem: a^p == a modulo a prime p, for every integer a. */
  lemma Fermat(p: int, a: int)
    requires Prime(p)
    ensures Cong(Pow(a, p), a, p)
  {
    CongMod(a, p);
    CongPow(a, a % p, p, p);
    FermatNat(p, a % p);
    CongTrans(Pow(a, p), Pow(a % p, p), a % p, p);
    CongSym(a, a % p, p);
    CongTrans(Pow(a, p), a % p, a, p);
  }

  /** m^(1 + k(p - 1)) == m modulo a prime p, for every m (no coprimality needed). */
  lemma {:induction false} FermatPowers(p: int, m: int, k: nat)
    requires Prime(p)
    ensures Cong(Pow(m, 1 + k * (p - 1)), m, p)
  {
    if k == 0 {
      CongRefl(m, p);
    } else {
      FermatPowers(p, m, k - 1);
      var e0: nat := (k - 1) * (p - 1);
      assert 1 + k * (p - 1) == e0 + p;
      PowAdd(m, e0, p);
      PowAdd(m, e0, 1);
      Fermat(p, m);
      CongRefl(Pow(m, e0), p);
      CongMul(Pow(m, e0), Pow(m, e0), Pow(m, p), m, p);
      assert Pow(m, 1) == m;
      assert e0 + 1 == 1 + (k - 1) * (p - 1);
      CongTrans(Pow(m, e0 + p), Pow(m, e0) * m, m, p);
    }
  }

  /** m^(1 + k·phi) == m modulo n = p·q, for distinct primes p and q. */
  lemma RsaExponent(p: int, q: int, m: int, k: nat)
    requires Prime(p) && Prime(q) && p != q
    ensures Cong(Pow(m, 1 + k * ((p - 1) * (q - 1))), m, p * q)
  {
    var kq: nat := k * (q - 1);
    var kp: nat := k * (p - 1);
    ExponentSplit(k, p - 1, q - 1);
    RsaExponentBoth(p, q, m, 1 + k * ((p - 1) * (q - 1)), kq, kp);
  }

  /** An exponent that is 1 modulo both p - 1 and q - 1 fixes m modulo p·q. */
  lemma RsaExponentBoth(p: int, q: int, m: int, e: nat, kq: nat, kp: nat)
    requires Prime(p) && Prime(q) && p != q
    requires e == 1 + kq * (p - 1) && e == 1 + kp * (q - 1)
    ensures Cong(Pow(m, e), m, p * q)
  {
    FermatPowers(p, m, kq);
    FermatPowers(q, m, kp);
    DistinctPrimesCoprime(p, q);
    CoprimeProduct(p, q, Pow(m, e) - m);
  }

  lemma ExponentSplit(k: int, a: int, b: int)
    ensures k * (a * b) == (k * b) * a == (k * a) * b
  {
  }

  /** Textbook RSA correctness: for distinct primes p and q and exponents with
      e·d == 1 modulo (p - 1)(q - 1), raising to e and then to d is the
      identity modulo p·q on every integer message. */
  lemma RsaRoundTrip(p: int, q: int, e: nat, d: nat, m: int)
    requires Prime(p) && Prime(q) && p != q
    requires Cong(e * d, 1, (p - 1) * (q - 1))
    ensures Pow(Pow(m, e), d) % (p * q) == m % (p * q)
  {
    var phi := (p - 1) * (q - 1);
    MulLeft(p - 1, 1, q - 1);
    MulLeft(q - 1, 1, p - 1);
    assert phi >= 2;
    var k :| e * d - 1 == phi * k;
    MulLeft(phi, k, -1);
    assert k >= 0;
    PowMul(m, e, d);
    RsaExponent(p, q, m, k);
    assert e * d == 1 + k * phi;
    CongIffMod(Pow(m, e * d), m, p * q);
  }
}
