/** The classical post-processing of Shor's algorithm shared by test.py and
    magik.py: an even period r with a^r = 1 (mod N) gives s = a^(r/2) mod N,
    a square root of 1 modulo N, and when s is neither 1 nor N - 1 the
    greatest common divisor of s - 1 and N is a proper factor of N. */
module Shor {
  import opened NumberTheory
  import opened Euclid

  /** s = pow(a, r // 2, N) squares to 1 modulo N when r is even and
      pow(a, r, N) == 1. */
  lemma HalfPowerSquare(a: int, r: nat, N: int)
    requires N >= 1 && r % 2 == 0 && PowMod(a, r, N) == 1
    ensures Cong(PowMod(a, r / 2, N) * PowMod(a, r / 2, N), 1, N)
  {
    var h := r / 2;
    var s := PowMod(a, h, N);
    PowAdd(a, h, h);
    assert h + h == r;
    CongMod(Pow(a, h), N);
    CongSym(Pow(a, h), s, N);
    CongMul(s, Pow(a, h), s, Pow(a, h), N);
    CongMod(Pow(a, r), N);
    CongTrans(s * s, Pow(a, r), 1, N);
  }

  /** A nontrivial square root of 1 modulo N splits N: gcd(s - 1, N) is
      strictly between 1 and N. */
  lemma ShorSplit(s: int, N: int)
    requires N >= 2 && 0 <= s < N && s != 1 && s != N - 1
    requires Cong(s * s, 1, N)
    ensures 1 < Gcd(s - 1, N) < N
  {
    var g := Gcd(s - 1, N);
    GcdDivides(s - 1, N);
    GcdZero(s - 1, N);
    DividesBound(g, N);
    assert (s - 1) * (s + 1) == s * s - 1;
    if g == 1 {
      GcdSym(s - 1, N);
      Gauss(N, s - 1, s + 1);
      DividesBound(N, s + 1);
      assert false;
    }
    if g == N {
      if s == 0 {
        DividesBound(N, -1);
      } else {
        DividesBound(N, s - 1);
      }
      assert false;
    }
  }

  /** Together: a usable period whose half power is neither 1 nor N - 1
      yields the factor gcd(s - 1, N). */
  lemma PeriodSplits(a: int, r: nat, N: int)
    requires N >= 2 && r % 2 == 0 && PowMod(a, r, N) == 1
    requires PowMod(a, r / 2, N) != 1 && PowMod(a, r / 2, N) != N - 1
    ensures 1 < Gcd(PowMod(a, r / 2, N) - 1, N) < N
  {
    HalfPowerSquare(a, r, N);
    ShorSplit(PowMod(a, r / 2, N), N);
  }
}
