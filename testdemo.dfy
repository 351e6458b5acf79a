/** test.py: the RSADemo class (p = 3 and q = 7 unless both are given, the
    least exponent in [3, phi) coprime to phi, d from sympy.mod_inverse), its
    encrypt that first reduces a message not below n, and the classical part
    of CompleteShorAlgorithm.factor_number. Each attempt's random base and the
    quantum period finder's (period, confidence) answer are inputs. */
module TestDemo {
  import opened NumberTheory
  import opened Euclid
  import opened Outcomes
  import opened Rsa
  import opened Shor
  import LowEndLappy

  // ---------------------------------------------------------------------
  // RSADemo

  /** Consecutive integers are coprime, so phi - 1 always ends the search. */
  lemma ConsecutiveCoprime(a: int)
    ensures Gcd(a - 1, a) == 1
  {
    GcdAddMultiple(1, a - 1, 1);
    GcdSym(a, a - 1);
    GcdDivides(1, a - 1);
    GcdZero(1, a - 1);
    DividesBound(Gcd(1, a - 1), 1);
  }

  /** The loop `for e in range(3, phi): if math.gcd(e, phi) == 1: break` over
      a nonempty range: it stops at the least e >= 3 coprime to phi. */
  method FirstCoprime(phi: int) returns (e: int)
    requires phi >= 4
    ensures LeastCoprime(e, phi)
  {
    e := 3;
    while Gcd(e, phi) != 1
      invariant 3 <= e < phi
      invariant forall k :: 3 <= k < e ==> Gcd(k, phi) != 1
      decreases phi - e
    {
      ConsecutiveCoprime(phi);
      e := e + 1;
    }
  }

  /** The primes generate_keypair works with: 3 and 7 unless both are given. */
  function Primes(p0: Option<int>, q0: Option<int>): (int, int)
  {
    if p0.None? || q0.None? then (3, 7) else (p0.value, q0.value)
  }

  /** e is the least value in [3, phi) coprime to phi. */
  ghost predicate LeastCoprime(e: int, phi: int)
  {
    3 <= e < phi && Gcd(e, phi) == 1 && forall k :: 3 <= k < e ==> Gcd(k, phi) != 1
  }

  /** The key pair generate_keypair builds from p and q: n = p*q, phi at
      least 4 (otherwise the exponent loop has nothing to run over), e the
      least value in [3, phi) coprime to phi, and d its inverse in [0, phi),
      which is what sympy.mod_inverse returns for a positive modulus (see
      LowEndLappy.ModInverseUnique). */
  ghost predicate DemoKeys(pub: PublicKey, priv: PrivateKey, p: int, q: int)
  {
    var phi := (p - 1) * (q - 1);
    phi >= 4 && pub.n == p * q && priv.n == p * q
    && LeastCoprime(pub.e, phi)
    && 0 <= priv.d < phi && Cong(pub.e * priv.d, 1, phi)
  }

  /** encrypt with (n, e): a message >= n is reduced modulo n first, then
      pow(message, e, n). With n == 0 the reduction raises ZeroDivisionError
      and pow raises ValueError. For n > 0 this is textbook RSA encryption of
      the message itself, the reduction changing nothing. */
  function EncryptWithKey(key: PublicKey, message: int): (r: Result<int>)
    ensures key.n == 0 ==> r == Err(if message >= 0 then ZeroDivision else PowModulusZero)
    ensures key.n > 0 ==> r == Ok(RsaEncrypt(key, message))
    ensures key.n < 0 ==> r.Ok? && key.n < r.value <= 0
  {
    if key.n == 0 then
      Err(if message >= 0 then ZeroDivision else PowModulusZero)
    else
      var m := if message >= key.n then PyMod(message, key.n) else message;
      if key.n > 0 then
        PowModBase(message, key.e, key.n);
        Ok(PyMod(Pow(m, key.e), key.n))
      else
        Ok(PyMod(Pow(m, key.e), key.n))
  }

  /** decrypt with (n, d): pow(ciphertext, d, n), ValueError for n == 0. */
  function DecryptWithKey(key: PrivateKey, ciphertext: int): (r: Result<int>)
    ensures key.n == 0 ==> r == Err(PowModulusZero)
    ensures key.n > 0 ==> r == Ok(RsaDecrypt(key, ciphertext))
    ensures key.n < 0 ==> r.Ok? && key.n < r.value <= 0
  {
    if key.n == 0 then Err(PowModulusZero)
    else Ok(PyMod(Pow(ciphertext, key.d), key.n))
  }

  class RsaDemo {
    var publicKey: Option<PublicKey>
    var privateKey: Option<PrivateKey>
    var n: Option<int>
    var p: Option<int>
    var q: Option<int>

    constructor ()
      ensures publicKey.None? && privateKey.None? && n.None? && p.None? && q.None?
    {
      publicKey := None;
      privateKey := None;
      n := None;
      p := None;
      q := None;
    }

    /** generate_keypair(p, q): p, q and n are stored first; when phi <= 3
        the exponent loop runs over an empty range and `e` is unbound, which
        leaves the keys as they were. Neither primality nor p != q is checked. */
    method GenerateKeypair(p0: Option<int>, q0: Option<int>)
      returns (r: Result<(PublicKey, PrivateKey)>)
      modifies this
      ensures p == Some(Primes(p0, q0).0) && q == Some(Primes(p0, q0).1)
      ensures n == Some(Primes(p0, q0).0 * Primes(p0, q0).1)
      ensures r.Err? <==> (Primes(p0, q0).0 - 1) * (Primes(p0, q0).1 - 1) <= 3
      ensures r.Err? ==> r.error == ExponentUnbound
                         && publicKey == old(publicKey) && privateKey == old(privateKey)
      ensures r.Ok? ==> publicKey == Some(r.value.0) && privateKey == Some(r.value.1)
                        && DemoKeys(r.value.0, r.value.1, Primes(p0, q0).0, Primes(p0, q0).1)
    {
      var pq := Primes(p0, q0);
      var pp, qq := pq.0, pq.1;
      p := Some(pp);
      q := Some(qq);
      n := Some(pp * qq);
      var phi := (pp - 1) * (qq - 1);
      if phi <= 3 {
        return Err(ExponentUnbound);
      }
      var e := FirstCoprime(phi);
      var d := LowEndLappy.ModInverse(e, phi);
      var pub := PublicKey(pp * qq, e);
      var priv := PrivateKey(pp * qq, d.value);
      publicKey := Some(pub);
      privateKey := Some(priv);
      return Ok((pub, priv));
    }

    /** encrypt: unpacking a missing public key is a TypeError. */
    method Encrypt(message: int) returns (r: Result<int>)
      ensures publicKey.None? ==> r == Err(KeyMissing)
      ensures publicKey.Some? ==> r == EncryptWithKey(publicKey.value, message)
    {
      if publicKey.None? {
        return Err(KeyMissing);
      }
      return EncryptWithKey(publicKey.value, message);
    }

    /** decrypt: unpacking a missing private key is a TypeError. */
    method Decrypt(ciphertext: int) returns (r: Result<int>)
      ensures privateKey.None? ==> r == Err(KeyMissing)
      ensures privateKey.Some? ==> r == DecryptWithKey(privateKey.value, ciphertext)
    {
      if privateKey.None? {
        return Err(KeyMissing);
      }
      return DecryptWithKey(privateKey.value, ciphertext);
    }
  }

  /** The demo keys of two distinct primes are an RSA key pair. */
  lemma DemoKeysDerived(pub: PublicKey, priv: PrivateKey, p: int, q: int)
    requires DemoKeys(pub, priv, p, q)
    ensures DerivedFrom(pub, priv, p, q)
  {
  }

  /** For distinct primes every message comes back reduced modulo n: the
      round trip is exact only below n, since encrypt reduces larger ones. */
  lemma DemoRoundTrip(pub: PublicKey, priv: PrivateKey, p: int, q: int, message: int)
    requires Prime(p) && Prime(q) && p != q && DemoKeys(pub, priv, p, q)
    ensures pub.n > 0 && EncryptWithKey(pub, message).Ok?
    ensures DecryptWithKey(priv, EncryptWithKey(pub, message).value) == Ok(message % pub.n)
  {
    DemoKeysDerived(pub, priv, p, q);
    RoundTrip(pub, priv, p, q, message);
  }

  /** generate_keypair() with the default primes 3 and 7 gives exactly
      ((21, 5), (21, 5)): phi = 12, 3 and 4 share a factor with 12, and 5 is
      its own inverse modulo 12. */
  lemma DefaultKeys(pub: PublicKey, priv: PrivateKey)
    ensures DemoKeys(pub, priv, 3, 7) <==> pub == PublicKey(21, 5) && priv == PrivateKey(21, 5)
  {
    var phi := (3 - 1) * (7 - 1);
    assert phi == 12;
    DefaultExponent(pub.e);
    assert Cong(5 * 5, 1, 12) by {
      assert 5 * 5 - 1 == 12 * 2;
    }
    if DemoKeys(pub, priv, 3, 7) {
      InverseUnique(5, priv.d, 5, 12);
    }
  }

  /** With phi = 12 the search stops at 5: gcd(3, 12) == 3, gcd(4, 12) == 4
      and gcd(5, 12) == 1. */
  lemma DefaultExponent(e: int)
    ensures LeastCoprime(e, 12) <==> e == 5
  {
    assert Gcd(3, 12) == 3;
    assert Gcd(4, 12) == 4;
    assert Gcd(5, 12) == 1;
  }

  /** The message of main(), 433482738923745, is a multiple of 21: with the
      default keys it encrypts to 0 and decrypts to 0. */
  lemma DemoMessage()
    ensures EncryptWithKey(PublicKey(21, 5), 433482738923745) == Ok(0)
    ensures DecryptWithKey(PrivateKey(21, 5), 0) == Ok(0)
  {
    assert 433482738923745 == 21 * 20642035186845;
    PowModBase(433482738923745, 5, 21);
    assert Pow(0, 5) == 0;
  }

  // ---------------------------------------------------------------------
  // CompleteShorAlgorithm.factor_number

  /** One attempt: the base random.randint(2, N - 1) drew, and the finder's
      (period, confidence) for it, with None when it estimated nothing. */
  datatype Trial = Trial(base: int, period: Option<int>, confidence: real)

  /** What the draw and find_period can produce: a base in [2, N - 1] and a
      period among the candidates range(1, min(N, 20)). */
  predicate Drawn(N: int, t: Trial)
  {
    2 <= t.base <= N - 1
    && (t.period.Some? ==> 1 <= t.period.value < 20 && t.period.value < N)
  }

  /** The trial divisors tried before the quantum part. */
  const SmallPrimes: seq<int> := [3, 5, 7, 11, 13, 17, 19]

  /** The first of the trial divisors from index i on that divides N. */
  function SmallFactor(N: int, i: nat): (r: Option<int>)
    requires i <= |SmallPrimes|
    ensures r.Some? ==> exists j :: i <= j < |SmallPrimes| && r.value == SmallPrimes[j]
    ensures r.Some? ==> N % r.value == 0
    ensures r.Some? ==> forall j :: i <= j < |SmallPrimes| && SmallPrimes[j] < r.value ==> N % SmallPrimes[j] != 0
    ensures r.None? <==> forall j :: i <= j < |SmallPrimes| ==> N % SmallPrimes[j] != 0
    decreases |SmallPrimes| - i
  {
    if i == |SmallPrimes| then None
    else if N % SmallPrimes[i] == 0 then Some(SmallPrimes[i])
    else SmallFactor(N, i + 1)
  }

  /** The trial divisors are prime. */
  lemma SmallPrimesPrime(j: int)
    requires 0 <= j < |SmallPrimes|
    ensures Prime(SmallPrimes[j])
  {
    var v := SmallPrimes[j];
    if v < 4 {
      PrimeBySqrt(v, 1);
    } else if v < 9 {
      PrimeBySqrt(v, 2);
    } else if v < 16 {
      assert v % 2 != 0 && v % 3 != 0;
      PrimeBySqrt(v, 3);
    } else {
      assert v % 2 != 0 && v % 3 != 0 && v % 4 != 0;
      PrimeBySqrt(v, 4);
    }
  }

  /** gcd(a, N) for a base in [2, N - 1]: when it is not 1 it is a proper
      factor, with N // g its cofactor. */
  lemma BaseFactor(a: int, N: int)
    requires 2 <= a < N
    ensures Gcd(a, N) != 1 ==> 1 < Gcd(a, N) < N && Gcd(a, N) * (N / Gcd(a, N)) == N
  {
    var g := Gcd(a, N);
    GcdDivides(a, N);
    GcdZero(a, N);
    DividesBound(g, a);
    if g > 0 {
      ModZeroIff(N, g);
    }
  }

  /** A divisor strictly between 1 and N times N // it is N. */
  lemma ProperFactor(f: int, N: int)
    requires 1 < f < N && Divides(f, N)
    ensures f * (N / f) == N
  {
    ModZeroIff(N, f);
  }

  /** What one attempt returns, or None when the loop goes on: the factor
      gcd(a, N) when it exceeds 1; otherwise, for a period that passes the
      confidence threshold 0.3, satisfies pow(a, r, N) == 1 and is even, and
      whose s = pow(a, r // 2, N) is neither 1 nor N - 1, the first of
      gcd(s - 1, N) and gcd(s + 1, N) strictly between 1 and N. */
  function TrialOutcome(N: int, t: Trial): (r: Option<seq<int>>)
    requires Drawn(N, t)
    ensures r.Some? ==> |r.value| == 2 && 1 < r.value[0] < N && r.value[0] * r.value[1] == N
  {
    var g := Gcd(t.base, N);
    BaseFactor(t.base, N);
    if g > 1 then Some([g, N / g])
    else if t.period.Some? && t.confidence > 0.3 && PowMod(t.base, t.period.value, N) == 1
            && t.period.value % 2 == 0 then
      var s := PowMod(t.base, t.period.value / 2, N);
      if s == 1 || s == N - 1 then None
      else
        GcdDivides(s - 1, N);
        GcdDivides(s + 1, N);
        var f1, f2 := Gcd(s - 1, N), Gcd(s + 1, N);
        if 1 < f1 < N then
          ProperFactor(f1, N);
          Some([f1, N / f1])
        else if 1 < f2 < N then
          ProperFactor(f2, N);
          Some([f2, N / f2])
        else None
    else None
  }

  /** An attempt with a base coprime to N and a usable even period whose
      half power is neither 1 nor N - 1 always succeeds with delta = -1:
      gcd(s - 1, N) is a proper factor, so delta = +1 is never reached. */
  lemma UsablePeriodSplits(N: int, t: Trial)
    requires Drawn(N, t) && Gcd(t.base, N) == 1
    requires t.period.Some? && t.confidence > 0.3 && t.period.value % 2 == 0
    requires PowMod(t.base, t.period.value, N) == 1
    requires PowMod(t.base, t.period.value / 2, N) != 1
    requires PowMod(t.base, t.period.value / 2, N) != N - 1
    ensures 1 < Gcd(PowMod(t.base, t.period.value / 2, N) - 1, N) < N
    ensures TrialOutcome(N, t)
              == Some([Gcd(PowMod(t.base, t.period.value / 2, N) - 1, N),
                       N / Gcd(PowMod(t.base, t.period.value / 2, N) - 1, N)])
  {
    var s := PowMod(t.base, t.period.value / 2, N);
    PeriodSplits(t.base, t.period.value, N);
    var f1 := Gcd(s - 1, N);
    assert 1 < f1 < N;
    assert !(Gcd(t.base, N) > 1);
  }

  /** The inner `for delta in [-1, 1]` loop: the first gcd(s + delta, N)
      strictly between 1 and N. */
  method TryDeltas(s: int, N: int) returns (r: Option<int>)
    requires N >= 3
    ensures r.Some? ==> 1 < r.value < N
    ensures r.Some? && 1 < Gcd(s - 1, N) < N ==> r.value == Gcd(s - 1, N)
    ensures r.Some? && !(1 < Gcd(s - 1, N) < N) ==> r.value == Gcd(s + 1, N)
    ensures r.None? <==> !(1 < Gcd(s - 1, N) < N) && !(1 < Gcd(s + 1, N) < N)
  {
    var deltas := [-1, 1];
    for i := 0 to |deltas|
      invariant forall j :: 0 <= j < i ==> !(1 < Gcd(s + deltas[j], N) < N)
    {
      var factor := Gcd(s + deltas[i], N);
      if 1 < factor < N {
        return Some(factor);
      }
    }
    assert !(1 < Gcd(s + deltas[0], N) < N) && !(1 < Gcd(s + deltas[1], N) < N);
    return None;
  }

  /** One pass of the attempt loop's body. */
  method RunTrial(N: int, t: Trial) returns (r: Option<seq<int>>)
    requires N >= 3 && Drawn(N, t)
    ensures r == TrialOutcome(N, t)
  {
    var a := t.base;
    if Gcd(a, N) > 1 {
      var factor := Gcd(a, N);
      return Some([factor, N / factor]);
    }
    if t.period.Some? && t.confidence > 0.3 && PowMod(a, t.period.value, N) == 1 {
      if t.period.value % 2 == 0 {
        var s := PowMod(a, t.period.value / 2, N);
        if s != 1 && s != N - 1 {
          var factor := TryDeltas(s, N);
          if factor.Some? {
            return Some([factor.value, N / factor.value]);
          }
        }
      }
    }
    return None;
  }

  /** factor_number(N, max_attempts): [2, N // 2] for even N, then [p, N // p]
      for the first trial divisor p of N, then the attempts in order, and []
      when none of them succeeds. With no trial divisor and N < 3 the first
      draw raises ValueError. A reported pair multiplies to N, and its first
      entry is N itself only when N is prime. */
  method FactorNumber(N: int, maxAttempts: nat, trials: seq<Trial>) returns (r: Result<seq<int>>)
    requires |trials| == maxAttempts
    requires N >= 3 ==> forall i :: 0 <= i < |trials| ==> Drawn(N, trials[i])
    ensures N % 2 == 0 ==> r == Ok([2, N / 2])
    ensures N % 2 != 0 && SmallFactor(N, 0).Some? ==>
              r == Ok([SmallFactor(N, 0).value, N / SmallFactor(N, 0).value])
    ensures N % 2 != 0 && SmallFactor(N, 0).None? && N < 3 ==>
              r == if maxAttempts == 0 then Ok([]) else Err(EmptyRange)
    ensures N % 2 != 0 && SmallFactor(N, 0).None? && N >= 3 ==>
              r.Ok? && (r.value == [] <==> forall i :: 0 <= i < |trials| ==> TrialOutcome(N, trials[i]).None?)
    ensures N % 2 != 0 && SmallFactor(N, 0).None? && N >= 3 && r.Ok? && r.value != [] ==>
              exists i :: 0 <= i < |trials| && TrialOutcome(N, trials[i]) == Some(r.value)
                          && forall j :: 0 <= j < i ==> TrialOutcome(N, trials[j]).None?
    ensures r.Ok? && r.value != [] ==> |r.value| == 2 && r.value[0] > 1 && r.value[0] * r.value[1] == N
    ensures r.Ok? && r.value != [] && N >= 2 ==> (r.value[0] == N <==> Prime(N)) && r.value[0] <= N
  {
    if N % 2 == 0 {
      if N >= 2 {
        EvenFactor(N);
      }
      return Ok([2, N / 2]);
    }
    var i := 0;
    while i < |SmallPrimes|
      invariant 0 <= i <= |SmallPrimes|
      invariant SmallFactor(N, 0) == SmallFactor(N, i)
    {
      if N % SmallPrimes[i] == 0 {
        SmallFactorBound(N, i);
        return Ok([SmallPrimes[i], N / SmallPrimes[i]]);
      }
      i := i + 1;
    }
    if N < 3 {
      if maxAttempts > 0 {
        return Err(EmptyRange);
      }
      return Ok([]);
    }
    var k := 0;
    while k < |trials|
      invariant 0 <= k <= |trials|
      invariant forall j :: 0 <= j < k ==> TrialOutcome(N, trials[j]).None?
    {
      var outcome := RunTrial(N, trials[k]);
      if outcome.Some? {
        PrimeHasNoProperFactor(N, outcome.value[0]);
        return Ok(outcome.value);
      }
      k := k + 1;
    }
    return Ok([]);
  }

  /** For an even N >= 2, the pair [2, N // 2] starts with N only for N == 2. */
  lemma EvenFactor(N: int)
    requires N >= 2 && N % 2 == 0
    ensures 2 * (N / 2) == N && (2 == N <==> Prime(N))
  {
  }

  /** A trial divisor p of N: p * (N // p) == N, and for N >= 2, p <= N with
      p == N exactly when N is prime. */
  lemma SmallFactorBound(N: int, i: int)
    requires 0 <= i < |SmallPrimes| && N % SmallPrimes[i] == 0
    ensures SmallPrimes[i] > 1 && SmallPrimes[i] * (N / SmallPrimes[i]) == N
    ensures N >= 2 ==> SmallPrimes[i] <= N && (SmallPrimes[i] == N <==> Prime(N))
  {
    var v := SmallPrimes[i];
    SmallPrimesPrime(i);
    if N >= 2 {
      ModZeroIff(N, v);
      DividesBound(v, N);
    }
  }

  /** A factor strictly between 1 and N rules out a prime N. */
  lemma PrimeHasNoProperFactor(N: int, f: int)
    requires 1 < f < N && Divides(f, N)
    ensures !Prime(N)
  {
    ModZeroIff(N, f);
  }

  /** The test cases of main: factor_number(N, max_attempts=3) for 15, 21
      and 35 is answered by the trial divisors alone, whatever the attempts
      would have drawn. */
  method FactorExamples(t15: seq<Trial>, t21: seq<Trial>, t35: seq<Trial>)
    returns (f15: Result<seq<int>>, f21: Result<seq<int>>, f35: Result<seq<int>>)
    requires |t15| == 3 && |t21| == 3 && |t35| == 3
    requires forall i :: 0 <= i < 3 ==> Drawn(15, t15[i]) && Drawn(21, t21[i]) && Drawn(35, t35[i])
    ensures f15 == Ok([3, 5]) && f21 == Ok([3, 7]) && f35 == Ok([5, 7])
  {
    assert SmallFactor(15, 0) == Some(3);
    assert SmallFactor(21, 0) == Some(3);
    assert SmallFactor(35, 1) == Some(5);
    f15 := FactorBySmallPrime(15, 3, t15, 3);
    f21 := FactorBySmallPrime(21, 3, t21, 3);
    f35 := FactorBySmallPrime(35, 3, t35, 5);
  }

  /** An odd N with a trial divisor p is answered [p, N // p] before any attempt. */
  method FactorBySmallPrime(N: int, maxAttempts: nat, trials: seq<Trial>, p: int)
    returns (r: Result<seq<int>>)
    requires N >= 3 && N % 2 != 0 && SmallFactor(N, 0) == Some(p)
    requires |trials| == maxAttempts && forall i :: 0 <= i < |trials| ==> Drawn(N, trials[i])
    ensures r == Ok([p, N / p])
  {
    r := FactorNumber(N, maxAttempts, trials);
  }
}
