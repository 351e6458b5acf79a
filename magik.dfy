/** magik.py: convergents of a continued fraction (as written, and the
    textbook definition it evidently meant), the RSADemo class whose exponent
    search starts at a random prime and moves on with sympy.nextprime, and the
    classical part of CompleteShorAlgorithm: its constructor's check and
    factor_number, with each attempt's random base and the period the quantum
    finder accepted as inputs. Fractions are modelled by their exact value, a
    real; the corrected convergents also carry the numerator and denominator. */
module Magik {
  import opened NumberTheory
  import opened Euclid
  import opened Outcomes
  import opened Rsa
  import opened Shor
  import LowEndLappy

  // ---------------------------------------------------------------------
  // convergents, as written

  /** The inner loop of convergents for entry k, after it has handled index
      i: coeffs[k - 1] as a fraction, then frac <- 1 / (coeffs[j] + frac) for
      j = k - 2 down to i; None once a denominator is 0 (ZeroDivisionError). */
  function WrittenFold(c: seq<int>, i: nat, k: nat): Option<real>
    requires i < k <= |c|
    decreases k - i
  {
    if i == k - 1 then Some(c[i] as real)
    else match WrittenFold(c, i + 1, k)
      case None => None
      case Some(f) =>
        if c[i] as real + f == 0.0 then None else Some(1.0 / (c[i] as real + f))
  }

  /** A zero denominator at index i makes the whole entry fail. */
  lemma {:induction false} WrittenFoldFails(c: seq<int>, i: nat, k: nat)
    requires i < k <= |c| && WrittenFold(c, i, k).None?
    ensures WrittenFold(c, 0, k).None?
    decreases i
  {
    if i > 0 {
      WrittenFoldFails(c, i - 1, k);
    }
  }

  /** convergents(coeffs) as written: one fraction per coefficient, entry
      k - 1 being the fold above over coeffs[0..k], the first one coeffs[0];
      ZeroDivisionError when some denominator vanishes. */
  method Convergents(coeffs: seq<int>) returns (r: Result<seq<real>>)
    ensures r.Ok? <==> forall k :: 1 <= k <= |coeffs| ==> WrittenFold(coeffs, 0, k).Some?
    ensures r.Err? ==> r.error == ZeroDivision
    ensures r.Ok? ==> |r.value| == |coeffs|
    ensures r.Ok? ==> forall k :: 1 <= k <= |coeffs| ==> WrittenFold(coeffs, 0, k) == Some(r.value[k - 1])
    ensures r.Ok? && |coeffs| > 0 ==> r.value[0] == coeffs[0] as real
  {
    var convs: seq<real> := [];
    for k := 1 to |coeffs| + 1
      invariant |convs| == k - 1
      invariant forall j :: 1 <= j < k ==> WrittenFold(coeffs, 0, j) == Some(convs[j - 1])
    {
      var frac := 0.0;
      var i := k - 1;
      while i >= 0
        invariant -1 <= i <= k - 1
        invariant i < k - 1 ==> WrittenFold(coeffs, i + 1, k) == Some(frac)
      {
        if i < k - 1 {
          if coeffs[i] as real + frac == 0.0 {
            WrittenFoldFails(coeffs, i, k);
            return Err(ZeroDivision);
          }
          frac := 1.0 / (coeffs[i] as real + frac);
        } else {
          frac := coeffs[i] as real;
        }
        i := i - 1;
      }
      convs := convs + [frac];
    }
    if |coeffs| > 0 {
      assert WrittenFold(coeffs, 0, 1) == Some(coeffs[0] as real);
    }
    return Ok(convs);
  }

  // ---------------------------------------------------------------------
  // convergents, corrected

  /** The continued fraction [c_i; c_(i+1), ..., c_(k-1)] = c_i + 1/(...),
      evaluated from the back as convergents does; None when a reciprocal of
      0 would be taken. */
  function TextbookFold(c: seq<int>, i: nat, k: nat): Option<real>
    requires i < k <= |c|
    decreases k - i
  {
    if i == k - 1 then Some(c[i] as real)
    else match TextbookFold(c, i + 1, k)
      case None => None
      case Some(f) => if f == 0.0 then None else Some(c[i] as real + 1.0 / f)
  }

  lemma {:induction false} TextbookFoldFails(c: seq<int>, i: nat, k: nat)
    requires i < k <= |c| && TextbookFold(c, i, k).None?
    ensures TextbookFold(c, 0, k).None?
    decreases i
  {
    if i > 0 {
      TextbookFoldFails(c, i - 1, k);
    }
  }

  /** The convergents meant: entry k - 1 is [c_0; c_1, ..., c_(k-1)]. */
  method TextbookConvergents(coeffs: seq<int>) returns (r: Result<seq<real>>)
    ensures r.Ok? <==> forall k :: 1 <= k <= |coeffs| ==> TextbookFold(coeffs, 0, k).Some?
    ensures r.Err? ==> r.error == ZeroDivision
    ensures r.Ok? ==> |r.value| == |coeffs|
    ensures r.Ok? ==> forall k :: 1 <= k <= |coeffs| ==> TextbookFold(coeffs, 0, k) == Some(r.value[k - 1])
    ensures r.Ok? && |coeffs| > 0 ==> r.value[0] == coeffs[0] as real
  {
    var convs: seq<real> := [];
    for k := 1 to |coeffs| + 1
      invariant |convs| == k - 1
      invariant forall j :: 1 <= j < k ==> TextbookFold(coeffs, 0, j) == Some(convs[j - 1])
    {
      var frac := 0.0;
      var i := k - 1;
      while i >= 0
        invariant -1 <= i <= k - 1
        invariant i < k - 1 ==> TextbookFold(coeffs, i + 1, k) == Some(frac)
      {
        if i < k - 1 {
          if frac == 0.0 {
            TextbookFoldFails(coeffs, i, k);
            return Err(ZeroDivision);
          }
          frac := coeffs[i] as real + 1.0 / frac;
        } else {
          frac := coeffs[i] as real;
        }
        i := i - 1;
      }
      convs := convs + [frac];
    }
    if |coeffs| > 0 {
      assert TextbookFold(coeffs, 0, 1) == Some(coeffs[0] as real);
    }
    return Ok(convs);
  }

  /** Coefficients as continued_fraction produces them for a positive
      value: every one after the first is at least 1. */
  ghost predicate ProperCoefficients(c: seq<int>)
  {
    forall j :: 1 <= j < |c| ==> c[j] >= 1
  }

  /** Numerator and denominator of [c_i; ..., c_(k-1)], built from the back:
      (c_(k-1), 1), then (c_j * P + Q, P). */
  function Terms(c: seq<int>, i: nat, k: nat): (int, int)
    requires i < k <= |c|
    decreases k - i
  {
    if i == k - 1 then (c[i], 1)
    else
      var t := Terms(c, i + 1, k);
      (c[i] * t.0 + t.1, t.0)
  }

  /** c + 1/(p/q) == (c*p + q)/p. */
  lemma ReciprocalStep(c: real, p: real, q: real)
    requires p != 0.0 && q != 0.0
    ensures p / q != 0.0 && c + 1.0 / (p / q) == (c * p + q) / p
  {
    assert 1.0 / (p / q) == q / p;
  }

  /** The gcd of a number and 1 is 1. */
  lemma GcdWithOne(a: int)
    ensures Gcd(a, 1) == 1
  {
    GcdDivides(a, 1);
    GcdZero(a, 1);
    DividesBound(Gcd(a, 1), 1);
  }

  /** With proper coefficients the denominator Q is at least 1, and so is
      the numerator P from i = 1 on. */
  lemma {:induction false} TermsPositive(c: seq<int>, i: nat, k: nat)
    requires i < k <= |c| && ProperCoefficients(c)
    ensures Terms(c, i, k).1 >= 1 && (i >= 1 ==> Terms(c, i, k).0 >= 1)
    decreases k - i
  {
    if i < k - 1 {
      TermsPositive(c, i + 1, k);
      var t := Terms(c, i + 1, k);
      if i >= 1 {
        MulLeft(t.0, 1, c[i]);
      }
    }
  }

  /** P and Q have no common factor. */
  lemma {:induction false} TermsCoprime(c: seq<int>, i: nat, k: nat)
    requires i < k <= |c|
    ensures Gcd(Terms(c, i, k).0, Terms(c, i, k).1) == 1
    decreases k - i
  {
    if i == k - 1 {
      GcdWithOne(c[i]);
    } else {
      TermsCoprime(c, i + 1, k);
      var t := Terms(c, i + 1, k);
      var p, q := t.0, t.1;
      assert c[i] * p + q == q + p * c[i];
      GcdAddMultiple(q, p, c[i]);
      GcdSym(q, p);
    }
  }

  /** With proper coefficients no reciprocal of 0 is taken and
      [c_i; ..., c_(k-1)] is P / Q. */
  lemma {:induction false} TermsValue(c: seq<int>, i: nat, k: nat)
    requires i < k <= |c| && ProperCoefficients(c)
    ensures Terms(c, i, k).1 >= 1
    ensures TextbookFold(c, i, k) == Some(Terms(c, i, k).0 as real / Terms(c, i, k).1 as real)
    decreases k - i
  {
    TermsPositive(c, i, k);
    if i < k - 1 {
      TermsValue(c, i + 1, k);
      TermsPositive(c, i + 1, k);
      var t := Terms(c, i + 1, k);
      TermsStep(c[i], t.0, t.1);
    }
  }

  /** One step of the fold on integer terms: c + 1/(p/q) == (c*p + q)/p. */
  lemma TermsStep(c: int, p: int, q: int)
    requires p != 0 && q != 0
    ensures p as real / q as real != 0.0
    ensures c as real + 1.0 / (p as real / q as real) == (c * p + q) as real / p as real
  {
    ReciprocalStep(c as real, p as real, q as real);
    CastStep(c, p, q);
  }

  /** Converting c*p + q to a real commutes with the operations. */
  lemma CastStep(c: int, p: int, q: int)
    ensures (c * p + q) as real == (c as real) * (p as real) + (q as real)
  {
  }

  /** Every corrected convergent of proper coefficients exists and is
      h / k in lowest terms: the form find_period reads the period from. */
  lemma ConvergentsInLowestTerms(c: seq<int>, k: nat)
    requires 1 <= k <= |c| && ProperCoefficients(c)
    ensures TextbookFold(c, 0, k).Some?
    ensures Terms(c, 0, k).1 >= 1 && Gcd(Terms(c, 0, k).0, Terms(c, 0, k).1) == 1
    ensures TextbookFold(c, 0, k).value == Terms(c, 0, k).0 as real / Terms(c, 0, k).1 as real
  {
    TermsPositive(c, 0, k);
    TermsCoprime(c, 0, k);
    TermsValue(c, 0, k);
  }

  /** The discrepancy: for [0, 2, 3] the third entry as written is
      1/(0 + 1/(2 + 3)) = 5, while [0; 2, 3] = 3/7. */
  lemma ConvergentsCounterexample()
    ensures WrittenFold([0, 2, 3], 0, 3) == Some(5.0)
    ensures TextbookFold([0, 2, 3], 0, 3) == Some(3.0 / 7.0)
  {
    var c := [0, 2, 3];
    assert WrittenFold(c, 2, 3) == Some(3.0);
    assert WrittenFold(c, 1, 3) == Some(1.0 / 5.0);
    assert TextbookFold(c, 2, 3) == Some(3.0);
    assert TextbookFold(c, 1, 3) == Some(7.0 / 3.0);
  }

  // ---------------------------------------------------------------------
  // RSADemo

  /** The keys generate_keypair builds from primes p and q and the prime
      `start` drawn by sympy.randprime(3, phi): n = p*q, e found by the
      nextprime search from start, and d = mod_inverse(e, phi), the inverse
      of e in [0, phi). */
  ghost predicate MagikKeys(pub: PublicKey, priv: PrivateKey, p: int, q: int, start: int)
  {
    var phi := (p - 1) * (q - 1);
    Prime(p) && Prime(q) && phi >= 4 && Prime(start) && 3 <= start < phi
    && pub.n == p * q && priv.n == p * q
    && ExponentSearch(pub.e, start, phi)
    && 0 <= priv.d < phi && Cong(pub.e * priv.d, 1, phi)
  }

  /** `e = randprime(3, phi); while gcd(e, phi) != 1: e = nextprime(e)`,
      with nextprime(e) the least prime above e. A prime sharing a factor
      with phi divides it, so the loop passes phi at most once. */
  method SearchFrom(start: int, phi: int) returns (e: int)
    requires Prime(start) && 3 <= start < phi
    ensures ExponentSearch(e, start, phi)
  {
    e := start;
    while Gcd(e, phi) != 1
      invariant Prime(e) && e >= start
      invariant e == start || Gcd(start, phi) != 1
      invariant forall k :: start < k < e && Prime(k) ==> Gcd(k, phi) != 1
      decreases phi - e
    {
      LowEndLappy.PrimeNotCoprime(e, phi);
      e := LowEndLappy.GetNextPrime(e + 1);
    }
  }

  /** Some prime lies strictly between k and 2k. */
  ghost predicate PrimeBetween(k: int)
  {
    exists j :: k < j < 2 * k && Prime(j)
  }

  /** Bertrand's postulate for every k with 2k <= phi. It is a hypothesis
      here, not proved. */
  ghost predicate BertrandBelow(phi: int)
  {
    forall k :: 2 <= k && 2 * k <= phi ==> PrimeBetween(k)
  }

  /** A divisor k of a positive phi with k < phi is at most half of it. */
  lemma ProperDivisorHalf(k: int, phi: int)
    requires 0 < k < phi && Divides(k, phi)
    ensures 2 * k <= phi
  {
    var c :| phi == k * c;
    if c <= 0 {
      MulLeft(k, c, 0);
    } else if c == 1 {
    } else {
      MulLeft(k, 2, c);
    }
  }

  /** Climbing from one prime below phi to the next prime of Bertrand's
      postulate reaches a prime below phi that is coprime to it. */
  lemma {:induction false} CoprimePrimeBelow(k: int, phi: int) returns (j: int)
    requires Prime(k) && k < phi && BertrandBelow(phi)
    ensures k <= j < phi && Prime(j) && Gcd(j, phi) == 1
    decreases phi - k
  {
    if Gcd(k, phi) == 1 {
      return k;
    }
    if !Divides(k, phi) {
      PrimeCoprime(k, phi);
    }
    ProperDivisorHalf(k, phi);
    assert PrimeBetween(k);
    var i :| k < i < 2 * k && Prime(i);
    j := CoprimePrimeBelow(i, phi);
  }

  /** Under Bertrand's postulate the nextprime loop stops below phi, as the
      comment of generate_keypair promises: 1 < e < phi. */
  lemma ExponentBelowPhi(e: int, start: int, phi: int)
    requires Prime(start) && 3 <= start < phi && ExponentSearch(e, start, phi)
    requires BertrandBelow(phi)
    ensures 1 < e < phi
  {
    if e >= phi {
      var j := CoprimePrimeBelow(start, phi);
    }
  }

  class RsaDemo {
    var publicKey: Option<PublicKey>
    var privateKey: Option<PrivateKey>
    var n: Option<int>
    var p: Option<int>
    var q: Option<int>

    /** The keys, once set, share a positive n. */
    ghost predicate Valid()
      reads this
    {
      (publicKey.Some? <==> privateKey.Some?)
      && (publicKey.Some? ==> publicKey.value.n > 0 && privateKey.value.n == publicKey.value.n)
    }

    constructor ()
      ensures Valid()
      ensures publicKey.None? && privateKey.None? && n.None? && p.None? && q.None?
    {
      publicKey := None;
      privateKey := None;
      n := None;
      p := None;
      q := None;
    }

    /** generate_keypair(p, q) as written, `start` standing for the prime
        randprime(3, phi) draws: ValueError unless both are prime (nothing
        changes); then p, q and n are stored, and ValueError from randprime
        when [3, phi) holds no prime, that is phi <= 3 (the keys stay).
        p == q is accepted. */
    method GenerateKeypair(p0: int, q0: int, start: int)
      returns (r: Result<(PublicKey, PrivateKey)>)
      requires Valid()
      requires Prime(p0) && Prime(q0) && (p0 - 1) * (q0 - 1) >= 4 ==>
                 Prime(start) && 3 <= start < (p0 - 1) * (q0 - 1)
      modifies this
      ensures Valid()
      ensures r.Err? <==> !(Prime(p0) && Prime(q0)) || (p0 - 1) * (q0 - 1) <= 3
      ensures !(Prime(p0) && Prime(q0)) ==>
                r == Err(NotPrime) && publicKey == old(publicKey) && privateKey == old(privateKey)
                && n == old(n) && p == old(p) && q == old(q)
      ensures Prime(p0) && Prime(q0) ==> p == Some(p0) && q == Some(q0) && n == Some(p0 * q0)
      ensures Prime(p0) && Prime(q0) && r.Err? ==>
                r.error == NoPrimeInRange && publicKey == old(publicKey) && privateKey == old(privateKey)
      ensures r.Ok? ==> publicKey == Some(r.value.0) && privateKey == Some(r.value.1)
                        && MagikKeys(r.value.0, r.value.1, p0, q0, start)
      ensures r.Ok? && BertrandBelow((p0 - 1) * (q0 - 1)) ==> 1 < r.value.0.e < (p0 - 1) * (q0 - 1)
    {
      if !(Prime(p0) && Prime(q0)) {
        return Err(NotPrime);
      }
      p := Some(p0);
      q := Some(q0);
      n := Some(p0 * q0);
      var phi := (p0 - 1) * (q0 - 1);
      if phi <= 3 {
        return Err(NoPrimeInRange);
      }
      var e := SearchFrom(start, phi);
      if BertrandBelow(phi) {
        ExponentBelowPhi(e, start, phi);
      }
      var d := LowEndLappy.ModInverse(e, phi);
      MulLeft(p0, 1, q0);
      var pub := PublicKey(p0 * q0, e);
      var priv := PrivateKey(p0 * q0, d.value);
      publicKey := Some(pub);
      privateKey := Some(priv);
      return Ok((pub, priv));
    }

    /** The same with the evidently intended check that p and q differ
        (ValueError otherwise, nothing changed): every message in [0, n)
        then decrypts back to itself. */
    method GenerateKeypairDistinct(p0: int, q0: int, start: int)
      returns (r: Result<(PublicKey, PrivateKey)>)
      requires Valid()
      requires Prime(p0) && Prime(q0) && (p0 - 1) * (q0 - 1) >= 4 ==>
                 Prime(start) && 3 <= start < (p0 - 1) * (q0 - 1)
      modifies this
      ensures Valid()
      ensures r.Err? <==> !(Prime(p0) && Prime(q0)) || p0 == q0 || (p0 - 1) * (q0 - 1) <= 3
      ensures r.Ok? ==> p0 != q0 && publicKey == Some(r.value.0) && privateKey == Some(r.value.1)
                        && MagikKeys(r.value.0, r.value.1, p0, q0, start)
      ensures r.Ok? ==> forall m :: 0 <= m < p0 * q0 ==>
                          LowEndLappy.EncryptWith(r.value.0, m).Ok?
                          && RsaDecrypt(r.value.1, LowEndLappy.EncryptWith(r.value.0, m).value) == m
    {
      if Prime(p0) && Prime(q0) && p0 == q0 {
        return Err(EqualPrimes);
      }
      r := GenerateKeypair(p0, q0, start);
      if r.Ok? {
        forall m | 0 <= m < p0 * q0
          ensures LowEndLappy.EncryptWith(r.value.0, m).Ok?
                  && RsaDecrypt(r.value.1, LowEndLappy.EncryptWith(r.value.0, m).value) == m
        {
          MagikRoundTrip(r.value.0, r.value.1, p0, q0, start, m);
        }
      }
    }

    /** encrypt: TypeError without a key, ValueError for a message >= n,
        pow(message, e, n) otherwise. */
    method Encrypt(message: int) returns (r: Result<int>)
      requires Valid()
      ensures publicKey.None? ==> r == Err(KeyMissing)
      ensures publicKey.Some? ==> r == LowEndLappy.EncryptWith(publicKey.value, message)
    {
      if publicKey.None? {
        return Err(KeyMissing);
      }
      return LowEndLappy.EncryptWith(publicKey.value, message);
    }

    /** decrypt: TypeError without a key, pow(ciphertext, d, n) otherwise. */
    method Decrypt(ciphertext: int) returns (r: Result<int>)
      requires Valid()
      ensures privateKey.None? ==> r == Err(KeyMissing)
      ensures privateKey.Some? ==> r == Ok(RsaDecrypt(privateKey.value, ciphertext))
    {
      if privateKey.None? {
        return Err(KeyMissing);
      }
      return Ok(RsaDecrypt(privateKey.value, ciphertext));
    }
  }

  /** Keys of distinct primes decrypt every message encrypt accepts. */
  lemma MagikRoundTrip(pub: PublicKey, priv: PrivateKey, p: int, q: int, start: int, m: int)
    requires MagikKeys(pub, priv, p, q, start) && p != q && 0 <= m < p * q
    ensures pub.n > 0 && LowEndLappy.EncryptWith(pub, m).Ok?
    ensures RsaDecrypt(priv, LowEndLappy.EncryptWith(pub, m).value) == m
  {
    LowEndLappy.EncryptWithRoundTrip(pub, priv, p, q, m);
  }

  /** p^e is 0 modulo p*p for e >= 2. */
  lemma SquareDividesPower(p: int, e: nat)
    requires p >= 2 && e >= 2
    ensures Pow(p, e) % (p * p) == 0
  {
    PowAdd(p, 2, e - 2);
    assert Pow(p, 2) == p * p;
    assert Pow(p, e) == (p * p) * Pow(p, e - 2);
    MulLeft(p, 1, p);
    ModZeroIff(Pow(p, e), p * p);
  }

  /** With p == q, which generate_keypair accepts, the message p (below
      n = p*p) encrypts to 0 and decrypts to 0: decryption is not the
      inverse of encryption. For p = q = 3 the only draw is e = 3, and d = 3. */
  lemma EqualPrimesBreakRoundTrip(pub: PublicKey, priv: PrivateKey, p: int, start: int)
    requires MagikKeys(pub, priv, p, p, start)
    ensures pub.n == p * p && 0 < p < pub.n
    ensures LowEndLappy.EncryptWith(pub, p) == Ok(0)
    ensures RsaDecrypt(priv, 0) == 0 != p
  {
    var phi := (p - 1) * (p - 1);
    MulLeft(p, 2, p);
    SquareDividesPower(p, pub.e);
    if priv.d == 0 {
      assert pub.e * priv.d - 1 == -1;
      DividesBound(phi, -1);
      assert false;
    }
    PowZeroBase(priv.d);
  }

  // ---------------------------------------------------------------------
  // CompleteShorAlgorithm

  /** The constructor: ValueError for N < 2, otherwise the object holds N. */
  function ShorModulus(N: int): (r: Result<int>)
    ensures r.Ok? <==> N >= 2
    ensures r.Ok? ==> r.value == N
    ensures r.Err? ==> r.error == ModulusTooSmall
  {
    if N < 2 then Err(ModulusTooSmall) else Ok(N)
  }

  /** One attempt: the base random.randint(2, N - 1) drew and the period
      find_period returned for it, None when it accepted none. */
  datatype Attempt = Attempt(base: int, period: Option<int>)

  /** What the draw and find_period can produce: a base in [2, N - 1] and a
      period r, a Fraction denominator, with r < N and pow(a, r, N) == 1. */
  ghost predicate Drawn(N: int, t: Attempt)
  {
    2 <= t.base <= N - 1
    && (t.period.Some? ==> 1 <= t.period.value < N && PowMod(t.base, t.period.value, N) == 1)
  }

  /** [a, b] in ascending order. */
  function Sorted(a: int, b: int): (r: seq<int>)
    ensures (r == [a, b] || r == [b, a]) && r[0] <= r[1]
  {
    if a <= b then [a, b] else [b, a]
  }

  /** What one attempt returns, or None when the loop goes on: [g, N // g]
      for g = gcd(a, N) > 1; nothing for a missing or odd period or for
      s = pow(a, r // 2, N) == N - 1; then sorted [f, N // f] for the first
      of gcd(s - 1, N) and gcd(s + 1, N) strictly between 1 and N. */
  function AttemptOutcome(N: int, t: Attempt): (r: Option<seq<int>>)
    requires Drawn(N, t)
    ensures r.Some? ==> |r.value| == 2 && 1 < r.value[0] < N && 1 < r.value[1] < N
                        && r.value[0] * r.value[1] == N
  {
    var g := Gcd(t.base, N);
    BaseGcd(t.base, N);
    if g > 1 then
      ProperPair(g, N);
      Some([g, N / g])
    else if t.period.None? || t.period.value % 2 != 0 then None
    else
      var s := PowMod(t.base, t.period.value / 2, N);
      if s == N - 1 then None
      else
        GcdDivides(s - 1, N);
        GcdDivides(s + 1, N);
        var f1, f2 := Gcd(s - 1, N), Gcd(s + 1, N);
        if 1 < f1 < N then
          ProperPair(f1, N);
          SortedPair(f1, N / f1, N);
          Some(Sorted(f1, N / f1))
        else if 1 < f2 < N then
          ProperPair(f2, N);
          SortedPair(f2, N / f2, N);
          Some(Sorted(f2, N / f2))
        else None
  }

  /** Sorting a factor pair keeps both factors and their product. */
  lemma SortedPair(a: int, b: int, N: int)
    requires 1 < a < N && 1 < b < N && a * b == N
    ensures 1 < Sorted(a, b)[0] < N && 1 < Sorted(a, b)[1] < N
    ensures Sorted(a, b)[0] * Sorted(a, b)[1] == N
  {
    if b < a {
      assert b * a == N;
    }
  }

  /** A divisor f of N strictly between 1 and N, and its cofactor N // f,
      both lie strictly between 1 and N and multiply to N. */
  lemma ProperPair(f: int, N: int)
    requires 1 < f < N && Divides(f, N)
    ensures f * (N / f) == N && 1 < N / f < N
  {
    ModZeroIff(N, f);
    var g := N / f;
    assert f * g == N;
    if g <= 1 {
      MulLeft(f, g, 1);
    }
    if g >= N {
      MulLeft(g, 2, f);
    }
  }

  /** gcd(a, N) for a base in [2, N - 1] divides N and is below N. */
  lemma BaseGcd(a: int, N: int)
    requires 2 <= a < N
    ensures Divides(Gcd(a, N), N) && Gcd(a, N) < N
  {
    GcdDivides(a, N);
    DividesBound(Gcd(a, N), a);
  }

  /** An accepted even period whose half power is neither 1 nor N - 1 always
      yields gcd(s - 1, N): by Shor's splitting argument it is a proper factor. */
  lemma PeriodYieldsFirstGcd(N: int, t: Attempt)
    requires Drawn(N, t) && Gcd(t.base, N) == 1
    requires t.period.Some? && t.period.value % 2 == 0
    requires PowMod(t.base, t.period.value / 2, N) != 1
    requires PowMod(t.base, t.period.value / 2, N) != N - 1
    ensures 1 < Gcd(PowMod(t.base, t.period.value / 2, N) - 1, N) < N
    ensures AttemptOutcome(N, t)
              == Some(Sorted(Gcd(PowMod(t.base, t.period.value / 2, N) - 1, N),
                             N / Gcd(PowMod(t.base, t.period.value / 2, N) - 1, N)))
  {
    PeriodSplits(t.base, t.period.value, N);
    assert !(Gcd(t.base, N) > 1);
  }

  /** For odd N the second gcd is never the one returned: when gcd(s - 1, N)
      is not a proper factor, s is 1 and gcd(s + 1, N) = gcd(2, N) = 1. */
  lemma SecondGcdUnused(N: int, t: Attempt)
    requires Drawn(N, t) && N % 2 != 0 && t.period.Some? && t.period.value % 2 == 0
    requires PowMod(t.base, t.period.value / 2, N) != N - 1
    requires !(1 < Gcd(PowMod(t.base, t.period.value / 2, N) - 1, N) < N)
    ensures !(1 < Gcd(PowMod(t.base, t.period.value / 2, N) + 1, N) < N)
  {
    var s := PowMod(t.base, t.period.value / 2, N);
    if s != 1 {
      PeriodSplits(t.base, t.period.value, N);
    }
    assert s == 1;
    var g := Gcd(2, N);
    GcdDivides(2, N);
    GcdZero(2, N);
    DividesBound(g, 2);
    if g == 2 {
      ModZeroIff(N, 2);
    }
  }

  /** One pass of the attempt loop's body. */
  method RunAttempt(N: int, t: Attempt) returns (r: Option<seq<int>>)
    requires N >= 3 && Drawn(N, t)
    ensures r == AttemptOutcome(N, t)
  {
    var a := t.base;
    var commonFactor := Gcd(a, N);
    if commonFactor > 1 {
      return Some([commonFactor, N / commonFactor]);
    }
    if t.period.None? {
      return None;
    }
    var period := t.period.value;
    if period % 2 != 0 {
      return None;
    }
    var s := PowMod(a, period / 2, N);
    if s == N - 1 {
      return None;
    }
    var factor1 := Gcd(s - 1, N);
    var factor2 := Gcd(s + 1, N);
    if 1 < factor1 < N {
      return Some(Sorted(factor1, N / factor1));
    }
    if 1 < factor2 < N {
      return Some(Sorted(factor2, N / factor2));
    }
    return None;
  }

  /** factor_number(max_attempts) for a constructed object (N >= 2):
      [2, N // 2] for even N and None for prime N before any attempt; then
      the first attempt that yields a factor pair, and None after
      max_attempts without one. */
  method FactorNumber(N: int, maxAttempts: nat, attempts: seq<Attempt>) returns (r: Option<seq<int>>)
    requires N >= 2 && |attempts| == maxAttempts
    requires forall i :: 0 <= i < |attempts| ==> Drawn(N, attempts[i])
    ensures N % 2 == 0 ==> r == Some([2, N / 2])
    ensures N % 2 != 0 && Prime(N) ==> r.None?
    ensures N % 2 != 0 && !Prime(N) ==>
              (r.None? <==> forall i :: 0 <= i < |attempts| ==> AttemptOutcome(N, attempts[i]).None?)
    ensures N % 2 != 0 && !Prime(N) && r.Some? ==>
              exists i :: 0 <= i < |attempts| && AttemptOutcome(N, attempts[i]) == r
                          && forall j :: 0 <= j < i ==> AttemptOutcome(N, attempts[j]).None?
    ensures r.Some? ==> |r.value| == 2 && r.value[0] * r.value[1] == N
    ensures r.Some? && N % 2 != 0 ==> 1 < r.value[0] < N && 1 < r.value[1] < N
  {
    if N % 2 == 0 {
      return Some([2, N / 2]);
    }
    if Prime(N) {
      return None;
    }
    for attempt := 0 to maxAttempts
      invariant forall j :: 0 <= j < attempt ==> AttemptOutcome(N, attempts[j]).None?
    {
      var outcome := RunAttempt(N, attempts[attempt]);
      if outcome.Some? {
        return outcome;
      }
    }
    return None;
  }
}
