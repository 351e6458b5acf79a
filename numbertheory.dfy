/** Integer arithmetic shared by every file of the model: Python's integer
    operators, divisibility and congruence, math.gcd, primality, the integer
    square root that stands for int(math.sqrt(n)), and the existence of a
    prime above any bound (which is what makes get_next_prime terminate). */
module NumberTheory {

  function Abs(x: int): nat { if x < 0 then -x else x }

  /** b ** e for e >= 0. */
  function Pow(b: int, e: nat): int
    decreases e
  {
    if e == 0 then 1 else b * Pow(b, e - 1)
  }

  /** Python's floor division b // a (Dafny's / rounds towards minus infinity
      only for a positive divisor). */
  function PyDiv(b: int, a: int): int
    requires a != 0
  {
    if a > 0 then b / a else (-b) / (-a)
  }

  /** Python's remainder b % a, which takes the sign of the divisor. */
  function PyMod(b: int, a: int): (r: int)
    requires a != 0
    ensures b == a * PyDiv(b, a) + r
    ensures a > 0 ==> 0 <= r < a && r == b % a
    ensures a < 0 ==> a < r <= 0
  {
    b - a * PyDiv(b, a)
  }

  // ---------------------------------------------------------------------
  // Divisibility and congruence

  ghost predicate Divides(d: int, a: int) { exists k :: a == d * k }

  /** x and y are congruent modulo m. */
  ghost predicate Cong(x: int, y: int, m: int) { Divides(m, x - y) }

  lemma MulLeft(a: int, b: int, c: int)
    ensures a >= 0 && b <= c ==> a * b <= a * c
  {
    assert a * c - a * b == a * (c - b);
  }

  lemma MulPred(m: int, n: int)
    ensures m * n == m + m * (n - 1)
  {
  }

  lemma MulAssoc(a: int, b: int, c: int)
    ensures a * (b * c) == (a * b) * c
  {
  }

  lemma DividesRefl(a: int)
    ensures Divides(a, a)
  {
    assert a == a * 1;
  }

  lemma DividesZero(d: int)
    ensures Divides(d, 0)
  {
    assert 0 == d * 0;
  }

  lemma OneDivides(a: int)
    ensures Divides(1, a)
  {
    assert a == 1 * a;
  }

  lemma DividesAdd(d: int, a: int, b: int)
    requires Divides(d, a) && Divides(d, b)
    ensures Divides(d, a + b) && Divides(d, a - b)
  {
    var k1 :| a == d * k1;
    var k2 :| b == d * k2;
    assert a + b == d * (k1 + k2);
    assert a - b == d * (k1 - k2);
  }

  lemma DividesMul(d: int, a: int, c: int)
    requires Divides(d, a)
    ensures Divides(d, a * c) && Divides(d, c * a)
  {
    var k :| a == d * k;
    assert a * c == d * (k * c);
  }

  lemma DividesMulBoth(d: int, a: int, c: int)
    requires Divides(d, a)
    ensures Divides(d * c, a * c)
  {
    var k :| a == d * k;
    assert a * c == (d * c) * k;
  }

  lemma DividesTrans(a: int, b: int, c: int)
    requires Divides(a, b) && Divides(b, c)
    ensures Divides(a, c)
  {
    var k1 :| b == a * k1;
    var k2 :| c == b * k2;
    assert c == a * (k1 * k2);
  }

  lemma DividesNegRight(d: int, a: int)
    ensures Divides(d, a) <==> Divides(d, -a)
  {
    if Divides(d, a) {
      var k :| a == d * k;
      assert -a == d * (-k);
    }
    if Divides(d, -a) {
      var k :| -a == d * k;
      assert a == d * (-k);
    }
  }

  lemma DividesNegLeft(d: int, a: int)
    ensures Divides(d, a) <==> Divides(-d, a)
  {
    if Divides(d, a) {
      var k :| a == d * k;
      assert a == (-d) * (-k);
    }
    if Divides(-d, a) {
      var k :| a == (-d) * k;
      assert a == d * (-k);
    }
  }

  lemma DividesNeg(d: int, a: int)
    ensures Divides(d, a) <==> Divides(d, -a)
    ensures Divides(d, a) <==> Divides(-d, a)
    ensures Divides(d, a) <==> Divides(Abs(d), Abs(a))
  {
    DividesNegRight(d, a);
    DividesNegLeft(d, a);
    DividesNegRight(Abs(d), a);
    DividesNegLeft(d, Abs(a));
    DividesNegRight(d, Abs(a));
    DividesNegLeft(d, -a);
  }

  /** For a positive divisor, Python's and Dafny's `a % d == 0` both mean d | a. */
  lemma ModZeroIff(a: int, d: int)
    requires d > 0
    ensures a % d == 0 <==> Divides(d, a)
  {
    if a % d == 0 {
      assert a == d * (a / d);
    }
    if Divides(d, a) {
      var k :| a == d * k;
      var q := a / d;
      assert d * (k - q) == a % d;
      if k - q >= 1 {
        MulLeft(d, 1, k - q);
      } else if k - q <= -1 {
        MulLeft(d, k - q, -1);
      }
    }
  }

  /** A nonzero multiple of d is at least |d| in size. */
  lemma DividesBound(d: int, a: int)
    requires Divides(d, a) && a != 0
    ensures Abs(d) <= Abs(a)
  {
    DividesNeg(d, a);
    var k :| Abs(a) == Abs(d) * k;
    if k <= 0 {
      MulLeft(Abs(d), k, 0);
    } else {
      MulLeft(Abs(d), 1, k);
    }
  }

  lemma DividesAntisym(a: int, b: int)
    requires a >= 0 && b >= 0 && Divides(a, b) && Divides(b, a)
    ensures a == b
  {
    if a == 0 {
      var k :| b == a * k;
    } else if b == 0 {
      var k :| a == b * k;
    } else {
      DividesBound(a, b);
      DividesBound(b, a);
    }
  }

  lemma CongRefl(x: int, m: int)
    ensures Cong(x, x, m)
  {
    DividesZero(m);
  }

  lemma CongSym(x: int, y: int, m: int)
    requires Cong(x, y, m)
    ensures Cong(y, x, m)
  {
    DividesNeg(m, x - y);
    assert -(x - y) == y - x;
  }

  lemma CongTrans(x: int, y: int, z: int, m: int)
    requires Cong(x, y, m) && Cong(y, z, m)
    ensures Cong(x, z, m)
  {
    DividesAdd(m, x - y, y - z);
    assert (x - y) + (y - z) == x - z;
  }

  lemma CongAdd(x: int, y: int, u: int, v: int, m: int)
    requires Cong(x, y, m) && Cong(u, v, m)
    ensures Cong(x + u, y + v, m)
  {
    DividesAdd(m, x - y, u - v);
    assert (x - y) + (u - v) == (x + u) - (y + v);
  }

  lemma CongMul(x: int, y: int, u: int, v: int, m: int)
    requires Cong(x, y, m) && Cong(u, v, m)
    ensures Cong(x * u, y * v, m)
  {
    DividesMul(m, x - y, u);
    DividesMul(m, u - v, y);
    assert (x - y) * u == x * u - y * u;
    assert (u - v) * y == y * u - y * v;
    DividesAdd(m, x * u - y * u, y * u - y * v);
    assert (x * u - y * u) + (y * u - y * v) == x * u - y * v;
  }

  lemma CongMultiple(x: int, m: int, k: int)
    ensures Cong(x + m * k, x, m)
  {
    assert (x + m * k) - x == m * k;
  }

  lemma {:induction false} CongPow(x: int, y: int, e: nat, m: int)
    requires Cong(x, y, m)
    ensures Cong(Pow(x, e), Pow(y, e), m)
  {
    if e == 0 {
      CongRefl(1, m);
    } else {
      CongPow(x, y, e - 1, m);
      CongMul(x, y, Pow(x, e - 1), Pow(y, e - 1), m);
    }
  }

  /** x and its remainder modulo m are congruent. */
  lemma CongMod(x: int, m: int)
    requires m > 0
    ensures Cong(x, x % m, m)
  {
    assert x - x % m == m * (x / m);
  }

  /** Two residues in [0, m) that are congruent are equal. */
  lemma CongResidue(x: int, y: int, m: int)
    requires m > 0 && 0 <= x < m && 0 <= y < m && Cong(x, y, m)
    ensures x == y
  {
    if x != y {
      DividesBound(m, x - y);
    }
  }

  /** Congruence modulo a positive m is equality of remainders. */
  lemma CongIffMod(x: int, y: int, m: int)
    requires m > 0
    ensures Cong(x, y, m) <==> x % m == y % m
  {
    CongMod(x, m);
    CongMod(y, m);
    if Cong(x, y, m) {
      CongSym(x, x % m, m);
      CongTrans(x % m, x, y, m);
      CongTrans(x % m, y, y % m, m);
      CongResidue(x % m, y % m, m);
    }
    if x % m == y % m {
      CongSym(y, y % m, m);
      CongTrans(x, x % m, y, m);
    }
  }

  // ---------------------------------------------------------------------
  // Powers

  lemma {:induction false} PowAdd(b: int, m: nat, n: nat)
    ensures Pow(b, m + n) == Pow(b, m) * Pow(b, n)
    decreases m
  {
    if m > 0 {
      PowAdd(b, m - 1, n);
      assert Pow(b, m + n) == b * Pow(b, (m - 1) + n);
    }
  }

  lemma {:induction false} PowMul(b: int, m: nat, n: nat)
    ensures Pow(b, m * n) == Pow(Pow(b, m), n)
    decreases n
  {
    if n > 0 {
      var k: nat := m * (n - 1);
      PowMul(b, m, n - 1);
      PowMulStep(b, m, n, k);
      MulPred(m, n);
    }
  }

  /** One more factor b^m: b^(m + k) == (b^m)^n when b^k == (b^m)^(n - 1). */
  lemma PowMulStep(b: int, m: nat, n: nat, k: nat)
    requires n > 0 && Pow(b, k) == Pow(Pow(b, m), n - 1)
    ensures Pow(b, m + k) == Pow(Pow(b, m), n)
  {
    PowAdd(b, m, k);
  }

  lemma {:induction false} PowOne(n: nat)
    ensures Pow(1, n) == 1
  {
    if n > 0 { PowOne(n - 1); }
  }

  lemma PowZeroBase(n: nat)
    requires n > 0
    ensures Pow(0, n) == 0
  {
  }

  lemma {:induction false} PowPositive(b: int, n: nat)
    requires b > 0
    ensures Pow(b, n) > 0
  {
    if n > 0 {
      PowPositive(b, n - 1);
      MulLeft(b, 1, Pow(b, n - 1));
    }
  }

  lemma PowDividedByBase(b: int, n: nat)
    requires n > 0
    ensures Divides(b, Pow(b, n))
  {
    assert Pow(b, n) == b * Pow(b, n - 1);
  }

  /** Python's pow(b, e, m) for a positive modulus. */
  function PowMod(b: int, e: nat, m: int): (r: int)
    requires m > 0
    ensures 0 <= r < m
  {
    Pow(b, e) % m
  }

  /** A residue is its own remainder. */
  lemma SmallMod(x: int, m: int)
    requires 0 <= x < m
    ensures x % m == x
  {
  }

  /** Reducing the base first does not change pow(b, e, m). */
  lemma PowModBase(b: int, e: nat, m: int)
    requires m > 0
    ensures PowMod(b % m, e, m) == PowMod(b, e, m)
  {
    CongMod(b, m);
    CongSym(b, b % m, m);
    CongPow(b % m, b, e, m);
    CongIffMod(Pow(b % m, e), Pow(b, e), m);
  }

  // ---------------------------------------------------------------------
  // math.gcd

  function NatGcd(a: nat, b: nat): nat
    decreases a
  {
    if a == 0 then b else NatGcd(b % a, a)
  }

  /** math.gcd(a, b): the gcd of |a| and |b|, with math.gcd(0, 0) == 0. */
  function Gcd(a: int, b: int): nat
  {
    NatGcd(Abs(a), Abs(b))
  }

  lemma {:induction false} NatGcdDivides(a: nat, b: nat)
    ensures Divides(NatGcd(a, b), a) && Divides(NatGcd(a, b), b)
    decreases a
  {
    if a == 0 {
      DividesZero(b);
      DividesRefl(b);
    } else {
      var g := NatGcd(b % a, a);
      NatGcdDivides(b % a, a);
      DividesMul(g, a, b / a);
      DividesAdd(g, a * (b / a), b % a);
      assert a * (b / a) + b % a == b;
    }
  }

  lemma {:induction false} NatGcdGreatest(a: nat, b: nat, d: int)
    requires Divides(d, a) && Divides(d, b)
    ensures Divides(d, NatGcd(a, b))
    decreases a
  {
    if a != 0 {
      DividesMul(d, a, b / a);
      DividesAdd(d, b, a * (b / a));
      assert b - a * (b / a) == b % a;
      NatGcdGreatest(b % a, a, d);
    }
  }

  /** math.gcd(a, b) divides both arguments ... */
  lemma GcdDivides(a: int, b: int)
    ensures Divides(Gcd(a, b), a) && Divides(Gcd(a, b), b)
  {
    NatGcdDivides(Abs(a), Abs(b));
    DividesNeg(Gcd(a, b), a);
    DividesNeg(Gcd(a, b), b);
    assert Abs(Gcd(a, b)) == Gcd(a, b);
    assert Abs(Abs(a)) == Abs(a) && Abs(Abs(b)) == Abs(b);
  }

  /** ... and every common divisor divides it. */
  lemma GcdGreatest(a: int, b: int, d: int)
    requires Divides(d, a) && Divides(d, b)
    ensures Divides(d, Gcd(a, b))
  {
    DividesNeg(d, a);
    DividesNeg(d, b);
    assert Abs(Abs(a)) == Abs(a) && Abs(Abs(b)) == Abs(b);
    DividesNeg(Abs(d), Abs(a));
    DividesNeg(Abs(d), Abs(b));
    NatGcdGreatest(Abs(a), Abs(b), Abs(d));
    DividesNeg(d, Gcd(a, b));
    assert Abs(Gcd(a, b)) == Gcd(a, b);
  }

  /** A nonnegative common divisor that Gcd(a, b) divides is Gcd(a, b). */
  lemma GcdUnique(g: int, a: int, b: int)
    requires g >= 0 && Divides(g, a) && Divides(g, b) && Divides(Gcd(a, b), g)
    ensures g == Gcd(a, b)
  {
    GcdGreatest(a, b, g);
    DividesAntisym(g, Gcd(a, b));
  }

  lemma GcdZero(a: int, b: int)
    ensures Gcd(a, b) == 0 <==> a == 0 && b == 0
  {
    GcdDivides(a, b);
    if Gcd(a, b) == 0 {
      var k1 :| a == 0 * k1;
      var k2 :| b == 0 * k2;
    }
  }

  lemma GcdSym(a: int, b: int)
    ensures Gcd(a, b) == Gcd(b, a)
  {
    GcdDivides(a, b);
    GcdDivides(b, a);
    GcdGreatest(b, a, Gcd(a, b));
    GcdUnique(Gcd(b, a), a, b);
  }

  /** math.gcd(a + m*k, m) == math.gcd(a, m). */
  lemma GcdAddMultiple(a: int, m: int, k: int)
    ensures Gcd(a + m * k, m) == Gcd(a, m)
  {
    var g := Gcd(a, m);
    GcdDivides(a, m);
    DividesMul(g, m, k);
    DividesAdd(g, a, m * k);
    GcdGreatest(a + m * k, m, g);
    var h := Gcd(a + m * k, m);
    GcdDivides(a + m * k, m);
    DividesMul(h, m, k);
    DividesAdd(h, a + m * k, m * k);
    assert (a + m * k) - m * k == a;
    GcdGreatest(a, m, h);
    DividesAntisym(g, h);
  }

  lemma DivModSplit(a: int, m: int)
    requires m > 0
    ensures a + m * (-(a / m)) == a % m
  {
  }

  /** Reducing the first argument modulo m leaves math.gcd(a, m) unchanged. */
  lemma GcdMod(a: int, m: int)
    requires m > 0
    ensures Gcd(a % m, m) == Gcd(a, m)
  {
    var t := a / m;
    GcdAddMultiple(a, m, -t);
    DivModSplit(a, m);
  }

  // ---------------------------------------------------------------------
  // Primes

  /** n is prime: at least 2 and without a divisor strictly between 1 and n. */
  predicate Prime(n: int)
  {
    n >= 2 && forall k :: 2 <= k < n ==> n % k != 0
  }

  /** The only positive divisors of a prime are 1 and itself. */
  lemma PrimeDivisor(p: int, d: int)
    requires Prime(p) && Divides(d, p) && d > 0
    ensures d == 1 || d == p
  {
    DividesBound(d, p);
    if 2 <= d < p {
      ModZeroIff(p, d);
    }
  }

  /** A prime that does not divide a is coprime to it. */
  lemma PrimeCoprime(p: int, a: int)
    requires Prime(p) && !Divides(p, a)
    ensures Gcd(p, a) == 1
  {
    GcdDivides(p, a);
    GcdZero(p, a);
    PrimeDivisor(p, Gcd(p, a));
  }

  /** The least k >= 2 dividing m is prime; in particular m has a prime divisor. */
  lemma {:induction false} PrimeFactor(m: int) returns (p: int)
    requires m >= 2
    ensures Prime(p) && Divides(p, m) && p <= m
    decreases m
  {
    if Prime(m) {
      DividesRefl(m);
      p := m;
    } else {
      var k :| 2 <= k < m && m % k == 0;
      ModZeroIff(m, k);
      p := PrimeFactor(k);
      DividesTrans(p, k, m);
    }
  }

  function Factorial(n: nat): nat
  {
    if n == 0 then 1 else n * Factorial(n - 1)
  }

  lemma {:induction false} FactorialDivisible(n: nat, k: int)
    requires 1 <= k <= n
    ensures Divides(k, Factorial(n))
  {
    if k == n {
      assert Factorial(n) == k * Factorial(n - 1);
    } else {
      FactorialDivisible(n - 1, k);
      DividesMul(k, Factorial(n - 1), n);
    }
  }

  lemma {:induction false} FactorialPositive(n: nat)
    ensures Factorial(n) >= 1
  {
    if n > 0 {
      FactorialPositive(n - 1);
      MulLeft(n, 1, Factorial(n - 1));
    }
  }

  /** Euclid's theorem: there is a prime at least n, whatever n is. */
  lemma PrimeAtLeast(n: int) returns (p: int)
    ensures Prime(p) && p >= n
  {
    if n <= 2 {
      p := 2;
    } else {
      FactorialPositive(n);
      p := PrimeFactor(Factorial(n) + 1);
      if p < n {
        FactorialDivisible(n, p);
        DividesAdd(p, Factorial(n) + 1, Factorial(n));
        assert Factorial(n) + 1 - Factorial(n) == 1;
        DividesBound(p, 1);
      }
    }
  }

  // ---------------------------------------------------------------------
  // Integer square root (int(math.sqrt(n)) computed exactly)

  function Isqrt(n: nat): (s: nat)
    ensures s * s <= n < (s + 1) * (s + 1)
  {
    if n < 4 then (if n == 0 then 0 else 1)
    else
      var t := Isqrt(n / 4);
      IsqrtStep(n, t);
      if (2 * t + 1) * (2 * t + 1) <= n then 2 * t + 1 else 2 * t
  }

  /** The root of n / 4, doubled, is the root of n or one below it. */
  lemma IsqrtStep(n: nat, t: nat)
    requires n >= 4 && t * t <= n / 4 < (t + 1) * (t + 1)
    ensures (2 * t) * (2 * t) <= n < (2 * t + 2) * (2 * t + 2)
  {
    var q := n / 4;
    assert 4 * q <= n < 4 * q + 4;
    assert (2 * t) * (2 * t) == 4 * (t * t);
    assert (2 * t + 2) * (2 * t + 2) == 4 * ((t + 1) * (t + 1));
  }

  /** The square root of an n >= 2 lies below n. */
  lemma SqrtBelow(n: int, s: nat)
    requires n >= 2 && s * s <= n
    ensures s < n
  {
    if s >= n {
      MulLeft(s, 2, s);
    }
  }

  /** An n >= 2 with no divisor in [2, isqrt(n)] is prime. */
  lemma PrimeBySqrt(n: int, s: nat)
    requires n >= 2 && s * s <= n < (s + 1) * (s + 1)
    requires forall k :: 2 <= k <= s ==> n % k != 0
    ensures Prime(n)
  {
    forall k | 2 <= k < n
      ensures n % k != 0
    {
      if n % k == 0 {
        var j := n / k;
        assert n == k * j;
        MulLeft(k, j, 1);
        MulLeft(k, s + 1, j);
        MulLeft(s + 1, s + 1, k);
        assert n == j * k;
        ModZeroIff(n, j);
      }
    }
  }

  /** The odd number after an odd number i is i + 2, and i + 1 is even. */
  lemma OddStep(i: int)
    requires i % 2 == 1
    ensures (i + 1) % 2 == 0 && (i + 2) % 2 == 1
  {
  }

  /** An even number above 2 is not prime, and an odd number has no even divisor. */
  lemma OddHasNoEvenDivisor(n: int, k: int)
    requires n % 2 != 0 && k > 0 && k % 2 == 0
    ensures n % k != 0
  {
    if n % k == 0 {
      ModZeroIff(n, k);
      ModZeroIff(k, 2);
      DividesTrans(2, k, n);
      ModZeroIff(n, 2);
    }
  }
}
