/** low_end_lappy.py: the interactive RSA demonstration. Primality by trial
    division up to the integer square root, the next-prime search, the
    modular inverse through the extended Euclidean algorithm, the text codec,
    the SimpleRSA key holder with its deterministic e-search, the
    ClassicalFactorizer attacks (bounded trial division, capped Pollard's rho,
    the "simulated quantum" fallback), and the attack of main that factors n,
    rebuilds d and reads the message back. */
module LowEndLappy {
  import opened NumberTheory
  import opened Euclid
  import opened Outcomes
  import opened Codec
  import opened Factoring
  import opened Rsa

  function Min(a: int, b: int): int { if a <= b then a else b }

  // ---------------------------------------------------------------------
  // Primes

  /** is_prime: rejects n < 2 and even n other than 2, then tries the odd i
      in [3, isqrt(n)]. */
  method IsPrime(n: int) returns (b: bool)
    ensures b <==> Prime(n)
  {
    if n < 2 {
      return false;
    }
    if n == 2 {
      return true;
    }
    if n % 2 == 0 {
      assert !Prime(n) by {
        assert 2 <= 2 < n && n % 2 == 0;
      }
      return false;
    }
    var s := Isqrt(n);
    var i := 3;
    while i < s + 1
      invariant 3 <= i && i % 2 == 1
      invariant forall k :: 3 <= k < i && k % 2 == 1 ==> n % k != 0
    {
      if n % i == 0 {
        SqrtBelow(n, s);
        assert 2 <= i < n;
        return false;
      }
      OddStep(i);
      i := i + 2;
    }
    forall k | 2 <= k <= s
      ensures n % k != 0
    {
      if k % 2 == 0 {
        OddHasNoEvenDivisor(n, k);
      }
    }
    PrimeBySqrt(n, s);
    return true;
  }

  /** get_next_prime: the least prime at least n. The loop stops because there
      is always a prime above n. */
  method GetNextPrime(n: int) returns (p: int)
    ensures Prime(p) && n <= p
    ensures forall k :: n <= k < p ==> !Prime(k)
  {
    ghost var bound := PrimeAtLeast(n);
    p := n;
    var b := IsPrime(p);
    while !b
      invariant n <= p <= bound
      invariant b <==> Prime(p)
      invariant forall k :: n <= k < p ==> !Prime(k)
      decreases bound - p
    {
      p := p + 1;
      b := IsPrime(p);
    }
  }

  // ---------------------------------------------------------------------
  // Modular inverse

  /** mod_inverse(a, m): ValueError unless math.gcd(a, m) == 1, then x of
      extended_gcd(a % m, m) brought into range by (x % m + m) % m; a % 0
      raises ZeroDivisionError when m == 0 (which passes the gcd test only for
      a == 1 or a == -1). A negative m gives a result in (m, 0]. */
  function ModInverse(a: int, m: int): (r: Result<int>)
    ensures r.Ok? <==> Gcd(a, m) == 1 && m != 0
    ensures r.Err? ==> r.error == (if Gcd(a, m) != 1 then NoInverse else ZeroDivision)
    ensures r.Ok? && m > 0 ==> 0 <= r.value < m && Cong(a * r.value, 1, m)
    ensures r.Ok? && m < 0 ==> m < r.value <= 0
  {
    if Gcd(a, m) != 1 then Err(NoInverse)
    else if m == 0 then Err(ZeroDivision)
    else
      var x := ExtendedGcd(PyMod(a, m), m).x;
      var r := PyMod(PyMod(x, m) + m, m);
      if m > 0 then
        BezoutInverse(a, m);
        ShiftedResidue(x, m);
        ReduceInverse(a, x, m);
        Ok(r)
      else
        Ok(r)
  }

  /** (x % m + m) % m == x % m for a positive m. */
  lemma ShiftedResidue(x: int, m: int)
    requires m > 0
    ensures (x % m + m) % m == x % m
  {
    var y := x % m;
    CongMultiple(y, m, 1);
    CongIffMod(y + m, y, m);
    CongMod(y, m);
    CongResidue(y, y % m, m);
  }

  /** mod_inverse returns the unique inverse in [0, m) whenever one exists;
      this is also the contract of sympy.mod_inverse for a positive modulus. */
  lemma ModInverseUnique(a: int, y: int, m: int)
    requires m > 0 && Cong(a * y, 1, m)
    ensures ModInverse(a, m) == Ok(y % m)
  {
    InverseCoprime(a, y, m);
    ReduceInverse(a, y, m);
    var r := ModInverse(a, m);
    InverseUnique(a, r.value, y % m, m);
  }

  // ---------------------------------------------------------------------
  // Text codec

  /** text_to_int: the UTF-8 bytes of the text read big-endian. */
  function TextToInt(text: seq<byte>): (v: nat)
    ensures v < Pow(256, |text|)
    ensures text != [] ==> (text[0] != 0 <==> v >= Pow(256, |text| - 1))
  {
    if text != [] then
      LeadingByteNonzero(text);
      FromBytes(text)
    else
      FromBytes(text)
  }

  /** int_to_text: "" for number <= 0, otherwise the minimal big-endian bytes
      decoded as UTF-8, and "[Invalid characters]" when they are not valid.
      The OverflowError branch cannot be taken, as the minimal length always
      holds the number. */
  function IntToText(number: int, valid: seq<byte> -> bool): (r: seq<byte>)
    ensures number <= 0 ==> r == []
    ensures number > 0 && valid(MinimalBytes(number)) ==> r == MinimalBytes(number) && FromBytes(r) == number
    ensures number > 0 && !valid(MinimalBytes(number)) ==> r == Ascii("[Invalid characters]")
  {
    if number <= 0 then []
    else
      match Decode(MinimalBytes(number), valid)
      case Some(t) => t
      case None => Ascii("[Invalid characters]")
  }

  /** int_to_text inverts text_to_int on valid text exactly when the text is
      empty or does not start with a zero byte. */
  lemma TextRoundTrip(text: seq<byte>, valid: seq<byte> -> bool)
    requires valid(text)
    ensures IntToText(TextToInt(text), valid) == text <==> text == [] || text[0] != 0
  {
    var v := TextToInt(text);
    MinimalBytesRoundTrip(text);
    if text != [] && text[0] != 0 {
      PowPositive(256, |text| - 1);
    } else if text != [] && v > 0 && !valid(MinimalBytes(v)) {
      assert IntToText(v, valid)[0] == '[' as int;
    }
  }

  // ---------------------------------------------------------------------
  // SimpleRSA

  /** SimpleRSA.encrypt once the public key is set: ValueError unless the
      message is below n, then pow(m, e, n). */
  function EncryptWith(key: PublicKey, m: int): (r: Result<int>)
    requires key.n > 0
    ensures r.Ok? <==> m < key.n
    ensures r.Err? ==> r.error == MessageTooLarge
    ensures r.Ok? ==> 0 <= r.value < key.n && r.value == Pow(m, key.e) % key.n
  {
    if m >= key.n then Err(MessageTooLarge) else Ok(RsaEncrypt(key, m))
  }

  /** Every message the key accepts, and no other, comes back from decrypt. */
  lemma EncryptWithRoundTrip(pub: PublicKey, priv: PrivateKey, p: int, q: int, m: int)
    requires Prime(p) && Prime(q) && p != q && DerivedFrom(pub, priv, p, q) && m >= 0
    ensures pub.n > 0
    ensures EncryptWith(pub, m).Ok? <==> m < pub.n
    ensures EncryptWith(pub, m).Ok? ==> RsaDecrypt(priv, EncryptWith(pub, m).value) == m
  {
    RoundTrip(pub, priv, p, q, m);
    if m < pub.n {
      var c := RsaEncrypt(pub, m);
      assert EncryptWith(pub, m) == Ok(c);
      SmallMod(m, pub.n);
    }
  }

  /** The first exponent generate_keypair tries: 65537, or 3 when 65537 is
      not below phi. */
  function InitialExponent(phi: int): int
  {
    if 65537 >= phi then 3 else 65537
  }

  /** A key pair generate_keypair can return for p and q. */
  ghost predicate Generated(pub: PublicKey, priv: PrivateKey, p: int, q: int)
  {
    var phi := (p - 1) * (q - 1);
    Prime(p) && Prime(q) && p != q && pub.n > 0
    && DerivedFrom(pub, priv, p, q) && ExponentSearch(pub.e, InitialExponent(phi), phi)
  }

  /** For distinct primes, phi = (p - 1)(q - 1) is at least 2. */
  lemma PhiAtLeastTwo(p: int, q: int)
    requires Prime(p) && Prime(q) && p != q
    ensures (p - 1) * (q - 1) >= 2 && p * q >= 6
  {
    if p < q {
      MulLeft(p - 1, 2, q - 1);
      MulLeft(p, 3, q);
    } else {
      MulLeft(q - 1, 2, p - 1);
      MulLeft(q, 3, p);
    }
  }

  /** A prime sharing a factor with a positive phi divides it, so it is at most phi. */
  lemma PrimeNotCoprime(e: int, phi: int)
    requires Prime(e) && phi > 0 && Gcd(e, phi) != 1
    ensures e <= phi
  {
    if !Divides(e, phi) {
      PrimeCoprime(e, phi);
    }
    DividesBound(e, phi);
  }

  /** The e-search of generate_keypair: e = 65537, or 3 when 65537 >= phi,
      then e = get_next_prime(e + 1) while math.gcd(e, phi) != 1. It stops
      because a prime sharing a factor with phi is at most phi. */
  method SearchExponent(phi: int) returns (e: int)
    requires phi >= 2
    ensures e >= 3 && ExponentSearch(e, InitialExponent(phi), phi)
  {
    e := 65537;
    if e >= phi {
      e := 3;
    }
    ghost var start := e;
    assert Prime(3);
    while Gcd(e, phi) != 1
      invariant e >= start
      invariant e == start || (Prime(e) && Gcd(start, phi) != 1)
      invariant forall k :: start < k < e && Prime(k) ==> Gcd(k, phi) != 1
      decreases phi - e
    {
      if e == start && start == 65537 {
        assert e < phi;
      } else {
        PrimeNotCoprime(e, phi);
      }
      e := GetNextPrime(e + 1);
    }
  }

  /** d = mod_inverse(e, phi) exists for an e coprime to phi, and gives a key
      pair derived from p and q. */
  lemma KeyFromExponent(n: int, e: nat, p: int, q: int)
    requires Prime(p) && Prime(q) && p != q && n == p * q && Gcd(e, (p - 1) * (q - 1)) == 1
    ensures n > 0 && ModInverse(e, (p - 1) * (q - 1)).Ok? && ModInverse(e, (p - 1) * (q - 1)).value >= 0
    ensures DerivedFrom(PublicKey(n, e), PrivateKey(n, ModInverse(e, (p - 1) * (q - 1)).value), p, q)
  {
    PhiAtLeastTwo(p, q);
  }

  class SimpleRsa {
    var publicKey: Option<PublicKey>
    var privateKey: Option<PrivateKey>
    var n: Option<int>
    var p: Option<int>
    var q: Option<int>

    /** Either nothing is set yet, or all five fields hold a generated key pair. */
    ghost predicate Valid()
      reads this
    {
      (publicKey.None? && privateKey.None? && n.None? && p.None? && q.None?)
      || (publicKey.Some? && privateKey.Some? && n.Some? && p.Some? && q.Some?
          && n.value == p.value * q.value
          && Generated(publicKey.value, privateKey.value, p.value, q.value))
    }

    constructor ()
      ensures Valid()
      ensures publicKey.None? && privateKey.None? && n.None? && p.None? && q.None?
    {
      publicKey := None;
      privateKey := None;
      n := None;
      p := None;
      q := None;
    }

    /** generate_keypair(p, q): ValueError unless both are prime and distinct,
        leaving the object as it was; otherwise p, q, n = p*q, and the key
        pair with the exponent search starting at 65537 (or 3) and
        d = mod_inverse(e, phi). */
    method GenerateKeypair(p0: int, q0: int) returns (r: Result<(PublicKey, PrivateKey)>)
      requires Valid()
      modifies this
      ensures Valid()
      ensures r.Err? <==> !(Prime(p0) && Prime(q0)) || p0 == q0
      ensures r.Err? ==> r.error == (if Prime(p0) && Prime(q0) then EqualPrimes else NotPrime)
      ensures r.Err? ==> publicKey == old(publicKey) && privateKey == old(privateKey)
                         && n == old(n) && p == old(p) && q == old(q)
      ensures r.Ok? ==> p == Some(p0) && q == Some(q0) && n == Some(p0 * q0)
                        && publicKey == Some(r.value.0) && privateKey == Some(r.value.1)
                        && Generated(r.value.0, r.value.1, p0, q0)
    {
      var pOk := IsPrime(p0);
      var qOk := IsPrime(q0);
      if !(pOk && qOk) {
        return Err(NotPrime);
      }
      if p0 == q0 {
        return Err(EqualPrimes);
      }
      p := Some(p0);
      q := Some(q0);
      n := Some(p0 * q0);
      var phi := (p0 - 1) * (q0 - 1);
      PhiAtLeastTwo(p0, q0);

      var e := SearchExponent(phi);
      KeyFromExponent(p0 * q0, e, p0, q0);
      var d := ModInverse(e, phi);
      var pub := PublicKey(p0 * q0, e);
      var priv := PrivateKey(p0 * q0, d.value);
      publicKey := Some(pub);
      privateKey := Some(priv);
      return Ok((pub, priv));
    }

    /** encrypt: unpacking a missing public key is a TypeError. */
    method Encrypt(m: int) returns (r: Result<int>)
      requires Valid()
      ensures publicKey.None? ==> r == Err(KeyMissing)
      ensures publicKey.Some? ==> r == EncryptWith(publicKey.value, m)
    {
      if publicKey.None? {
        return Err(KeyMissing);
      }
      return EncryptWith(publicKey.value, m);
    }

    /** decrypt: pow(c, d, n) with the private key; no range check on c. */
    method Decrypt(c: int) returns (r: Result<int>)
      requires Valid()
      ensures privateKey.None? ==> r == Err(KeyMissing)
      ensures privateKey.Some? ==> r.Ok? && r.value == Pow(c, privateKey.value.d) % privateKey.value.n
    {
      if privateKey.None? {
        return Err(KeyMissing);
      }
      return Ok(RsaDecrypt(privateKey.value, c));
    }
  }

  /** A generated key pair decrypts every message its encrypt accepts. */
  lemma GeneratedRoundTrip(pub: PublicKey, priv: PrivateKey, p: int, q: int, m: int)
    requires Generated(pub, priv, p, q) && 0 <= m < pub.n
    ensures EncryptWith(pub, m).Ok? && RsaDecrypt(priv, EncryptWith(pub, m).value) == m
  {
    EncryptWithRoundTrip(pub, priv, p, q, m);
  }

  // ---------------------------------------------------------------------
  // ClassicalFactorizer. The object only stores n, which the model passes to
  // each attack directly.

  /** A factor pair as the attacks report it: f * g == n with f >= 2, where
      the trivial pair (n, 1) can only be reported for a prime n. */
  ghost predicate FactorPair(n: int, f: int, g: int)
  {
    f >= 2 && f * g == n && (g == 1 ==> Prime(n))
  }

  /** No odd k in [lo, hi) divides n. */
  ghost predicate NoOddDivisorIn(n: int, lo: int, hi: int)
  {
    forall k :: lo <= k < hi && k % 2 == 1 ==> n % k != 0
  }

  /** The limit trial_division scans to: the one given, or
      min(10000, isqrt(n) + 1) (math.sqrt rejects a negative n). */
  function TrialLimit(n: int, limit: Option<int>): int
    requires limit.Some? || n >= 0
  {
    match limit
    case Some(l) => l
    case None => Min(10000, Isqrt(n) + 1)
  }

  /** An odd n >= 3 without an odd divisor in [3, n) is prime. */
  lemma OddPrime(n: int)
    requires n >= 3 && n % 2 != 0 && NoOddDivisorIn(n, 3, n)
    ensures Prime(n)
  {
    forall k | 2 <= k < n
      ensures n % k != 0
    {
      if k % 2 == 0 {
        OddHasNoEvenDivisor(n, k);
      }
    }
  }

  /** trial_division(limit): (2, n // 2) for even n, otherwise the first odd
      i in [3, limit) dividing n with n // i, or None. */
  method TrialDivision(n: int, limit: Option<int>) returns (r: Option<(int, int)>)
    requires limit.Some? || n >= 0
    ensures n % 2 == 0 ==> r == Some((2, n / 2))
    ensures n % 2 != 0 && r.Some? ==>
              3 <= r.value.0 < TrialLimit(n, limit) && r.value.0 % 2 == 1
              && n % r.value.0 == 0 && r.value.1 == n / r.value.0
              && NoOddDivisorIn(n, 3, r.value.0)
    ensures n % 2 != 0 && r.None? ==> NoOddDivisorIn(n, 3, TrialLimit(n, limit))
    ensures r.Some? ==> FactorPair(n, r.value.0, r.value.1)
  {
    var lim := TrialLimit(n, limit);
    if n % 2 == 0 {
      return Some((2, n / 2));
    }
    var i := 3;
    while i < lim
      invariant 3 <= i && i % 2 == 1
      invariant NoOddDivisorIn(n, 3, i)
      decreases lim - i
    {
      if n % i == 0 {
        if n / i == 1 {
          assert n == i;
          OddPrime(n);
        }
        return Some((i, n / i));
      }
      OddStep(i);
      i := i + 2;
    }
    return None;
  }

  /** With the default limit, trial division certifies exactly the odd primes
      below 10^8; above that the cap of 10000 stops it early. */
  lemma TrialDivisionDefaultPrime(n: int)
    requires 3 <= n < 100000000 && n % 2 != 0
    ensures NoOddDivisorIn(n, 3, TrialLimit(n, None)) <==> Prime(n)
  {
    var s := Isqrt(n);
    if s >= 10000 {
      MulLeft(s, 10000, s);
      MulLeft(10000, 10000, s);
    }
    assert TrialLimit(n, None) == s + 1;
    if NoOddDivisorIn(n, 3, s + 1) {
      forall k | 2 <= k <= s
        ensures n % k != 0
      {
        if k % 2 == 0 {
          OddHasNoEvenDivisor(n, k);
        }
      }
      PrimeBySqrt(n, s);
    }
    if Prime(n) && s >= 2 {
      MulLeft(s, 2, s);
    }
  }

  /** pollards_rho(max_iterations) with the random start x = y = seed drawn
      from [2, n - 1]: (2, n // 2) for even n; otherwise at most
      max_iterations rounds of the tortoise and hare, and (d, n // d) only when
      the round that stopped the loop found 1 < d < n. */
  method PollardsRho(n: int, maxIterations: int, seed: int) returns (r: Option<(int, int)>)
    requires n % 2 == 0 || 2 <= seed <= n - 1
    ensures n % 2 == 0 ==> r == Some((2, n / 2))
    ensures n % 2 != 0 && r.Some? ==>
              1 < r.value.0 < n && n % r.value.0 == 0 && r.value.1 == n / r.value.0
              && exists k :: 1 <= k <= maxIterations && FirstMeet(n, seed, k) && r.value.0 == RhoGcd(n, seed, k)
    ensures n % 2 != 0 && r.None? ==>
              (forall k :: 1 <= k <= maxIterations ==> RhoGcd(n, seed, k) == 1)
              || (exists k :: 1 <= k <= maxIterations && FirstMeet(n, seed, k) && RhoGcd(n, seed, k) == n)
    ensures r.Some? ==> FactorPair(n, r.value.0, r.value.1)
  {
    if n % 2 == 0 {
      return Some((2, n / 2));
    }
    var x, y := seed, seed;
    var d := 1;
    var iterations := 0;
    while d == 1 && iterations < maxIterations
      invariant 0 <= iterations
      invariant x == RhoIter(n, seed, iterations) && y == RhoIter(n, seed, 2 * iterations)
      invariant iterations == 0 ==> d == 1
      invariant iterations > 0 ==> d == RhoGcd(n, seed, iterations) && iterations <= maxIterations
      invariant forall j :: 1 <= j < iterations ==> RhoGcd(n, seed, j) == 1
      decreases maxIterations - iterations
    {
      x := RhoStep(n, x);
      y := RhoStep(n, RhoStep(n, y));
      d := Gcd(Abs(x - y), n);
      iterations := iterations + 1;
    }
    if d != 1 {
      assert FirstMeet(n, seed, iterations);
      RhoGcdDivides(n, seed, iterations);
    }
    if d != 1 && d != n {
      ProperDivisorPair(n, d);
      return Some((d, n / d));
    }
    return None;
  }

  /** A divisor strictly between 1 and n pairs with its cofactor. */
  lemma ProperDivisorPair(n: int, d: int)
    requires 1 < d < n && n % d == 0
    ensures FactorPair(n, d, n / d)
  {
    assert d * (n / d) == n;
  }

  /** The rho loop from seed stops within m rounds on a d with 1 < d < n. */
  ghost predicate RhoSucceeds(n: int, seed: int, m: int)
    requires n > 0
  {
    exists k :: 1 <= k <= m && FirstMeet(n, seed, k) && 1 < RhoGcd(n, seed, k) < n
  }

  /** When pollards_rho returns None for an odd n, the rho loop does not
      succeed within that many rounds. */
  lemma RhoFailure(n: int, m: int, seed: int)
    requires n >= 3 && n % 2 != 0
    requires (forall k :: 1 <= k <= m ==> RhoGcd(n, seed, k) == 1)
             || (exists k :: 1 <= k <= m && FirstMeet(n, seed, k) && RhoGcd(n, seed, k) == n)
    ensures !RhoSucceeds(n, seed, m)
  {
    if k1: nat :| 1 <= k1 <= m && FirstMeet(n, seed, k1) && 1 < RhoGcd(n, seed, k1) < n {
      if k0: nat :| 1 <= k0 <= m && FirstMeet(n, seed, k0) && RhoGcd(n, seed, k0) == n {
        FirstMeetUnique(n, seed, k0, k1);
      }
    }
  }

  /** simulated_quantum_factor: Pollard's rho with 50000 iterations; when
      that run succeeds its pair, otherwise the result of trial division up
      to 50000: the least odd divisor in [3, 50000) with its cofactor, or
      None. */
  method SimulatedQuantumFactor(n: int, seed: int) returns (r: Option<(int, int)>)
    requires n % 2 == 0 || 2 <= seed <= n - 1
    ensures n % 2 == 0 ==> r == Some((2, n / 2))
    ensures n % 2 != 0 && RhoSucceeds(n, seed, 50000) ==>
              r.Some? && 1 < r.value.0 < n && r.value.1 == n / r.value.0
              && exists k :: 1 <= k <= 50000 && FirstMeet(n, seed, k) && r.value.0 == RhoGcd(n, seed, k)
    ensures n % 2 != 0 && !RhoSucceeds(n, seed, 50000) && r.Some? ==>
              3 <= r.value.0 < 50000 && r.value.0 % 2 == 1
              && n % r.value.0 == 0 && r.value.1 == n / r.value.0
              && NoOddDivisorIn(n, 3, r.value.0)
    ensures n % 2 != 0 && !RhoSucceeds(n, seed, 50000) && r.None? ==> NoOddDivisorIn(n, 3, 50000)
    ensures r.Some? ==> FactorPair(n, r.value.0, r.value.1)
    ensures r.None? ==> n % 2 != 0 && NoOddDivisorIn(n, 3, 50000)
  {
    r := PollardsRho(n, 50000, seed);
    if r.Some? {
      return r;
    }
    if n % 2 != 0 {
      RhoFailure(n, 50000, seed);
    }
    r := TrialDivision(n, Some(50000));
  }

  // ---------------------------------------------------------------------
  // The attack of main

  /** What main knows when the attack starts: n = p*q for distinct primes,
      an exponent coprime to phi, and the ciphertext of a valid text whose
      integer is below n. */
  ghost predicate Victim(n: int, e: nat, c: int, valid: seq<byte> -> bool, p: int, q: int, text: seq<byte>)
  {
    Prime(p) && Prime(q) && p != q && n == p * q && n > 0
    && Gcd(e, (p - 1) * (q - 1)) == 1
    && valid(text) && (text == [] || text[0] != 0)
    && TextToInt(text) < n && c == PowMod(TextToInt(text), e, n)
  }

  lemma Cancel(a: int, b: int, c: int)
    requires a > 0 && a * b == a * c
    ensures b == c
  {
    if b < c {
      assert a * (c - b) == a * c - a * b;
      MulLeft(a, 1, c - b);
    } else if c < b {
      assert a * (b - c) == a * b - a * c;
      MulLeft(a, 1, b - c);
    }
  }

  /** Any factor pair of a product of two distinct primes is the two primes,
      so the phi it gives is the true phi. */
  lemma FactorPairOfSemiprime(p: int, q: int, f: int, g: int)
    requires Prime(p) && Prime(q) && p != q && FactorPair(p * q, f, g)
    ensures (f - 1) * (g - 1) == (p - 1) * (q - 1)
  {
    var n := p * q;
    SemiprimeNotPrime(p, q);
    if g <= 0 {
      MulLeft(f, g, 0);
    }
    MulLeft(f, 1, g);
    assert f < n by {
      MulLeft(f, 2, g);
    }
    assert Divides(f, n);
    ModZeroIff(n, f);
    SemiprimeCofactor(p, q, f);
    if f == p {
      Cancel(p, g, q);
    } else {
      Cancel(q, g, p);
    }
  }

  /** Lines 245-252 of main once factors (f, g) are known: phi from the
      factors, d = mod_inverse(e, phi), then pow(c, d, n) read back as text.
      The reconstruction fails exactly when e has no inverse modulo that phi. */
  function Recover(n: int, e: nat, c: int, valid: seq<byte> -> bool, f: int, g: int): (r: Result<seq<byte>>)
    requires n >= 1 && f >= 2 && f * g == n
    ensures r.Ok? <==> Gcd(e, (f - 1) * (g - 1)) == 1 && (f - 1) * (g - 1) != 0
  {
    var phi := (f - 1) * (g - 1);
    match ModInverse(e, phi)
    case Err(err) => Err(err)
    case Ok(d) =>
      CofactorPositive(f, g, n);
      Ok(IntToText(PowMod(c, d, n), valid))
  }

  /** The cofactor of a divisor f >= 2 of a positive n is positive, so the
      phi built from the pair is not negative. */
  lemma CofactorPositive(f: int, g: int, n: int)
    requires n >= 1 && f >= 2 && f * g == n
    ensures g >= 1 && (f - 1) * (g - 1) >= 0
  {
    if g <= 0 {
      MulLeft(f, g, 0);
    }
    MulLeft(f - 1, 0, g - 1);
  }

  /** For a victim key, any factor pair an attack reports rebuilds the
      private key and recovers the original text. */
  lemma RecoverVictim(n: int, e: nat, c: int, valid: seq<byte> -> bool, p: int, q: int, text: seq<byte>, f: int, g: int)
    requires Victim(n, e, c, valid, p, q, text) && FactorPair(n, f, g)
    ensures Recover(n, e, c, valid, f, g) == Ok(text)
  {
    FactorPairOfSemiprime(p, q, f, g);
    KeyFromExponent(n, e, p, q);
    var d := ModInverse(e, (p - 1) * (q - 1)).value;
    var pub, priv := PublicKey(n, e), PrivateKey(n, d);
    var m := TextToInt(text);
    RoundTrip(pub, priv, p, q, m);
    SmallMod(m, n);
    assert PowMod(c, d, n) == m;
    TextRoundTrip(text, valid);
  }

  /** The attack of main (trial division, then Pollard's rho with 10000
      iterations, then the simulated quantum factoring) followed by Recover.
      The two random starts of the rho runs are parameters. For a victim key
      a successful attack returns the original text, and the attack always
      succeeds when one of the primes is below 50000. */
  method Attack(n: int, e: nat, c: int, valid: seq<byte> -> bool, seed1: int, seed2: int,
                ghost p: int, ghost q: int, ghost text: seq<byte>)
    returns (r: Result<seq<byte>>)
    requires n >= 2 && (n % 2 == 0 || (2 <= seed1 <= n - 1 && 2 <= seed2 <= n - 1))
    ensures Victim(n, e, c, valid, p, q, text) && r.Ok? ==> r.value == text
    ensures Victim(n, e, c, valid, p, q, text) && Min(p, q) < 50000 ==> r.Ok?
  {
    var factors := TrialDivision(n, None);
    if factors.None? {
      factors := PollardsRho(n, 10000, seed1);
    }
    if factors.None? {
      factors := SimulatedQuantumFactor(n, seed2);
    }
    if factors.None? {
      if Victim(n, e, c, valid, p, q, text) && Min(p, q) < 50000 {
        SmallPrimeFound(p, q);
      }
      return Err(FactoringFailed);
    }
    var (foundP, foundQ) := factors.value;
    r := Recover(n, e, c, valid, foundP, foundQ);
    if Victim(n, e, c, valid, p, q, text) {
      RecoverVictim(n, e, c, valid, p, q, text, foundP, foundQ);
    }
  }

  /** A product of two primes is not prime. */
  lemma SemiprimeNotPrime(p: int, q: int)
    requires Prime(p) && Prime(q)
    ensures !Prime(p * q)
  {
    MulLeft(p, 2, q);
    assert p * q == p * q;
    assert Divides(p, p * q);
    ModZeroIff(p * q, p);
  }

  /** When one prime is below 50000 the final trial division finds a factor. */
  lemma SmallPrimeFound(p: int, q: int)
    requires Prime(p) && Prime(q) && Min(p, q) < 50000 && (p * q) % 2 != 0
    ensures !NoOddDivisorIn(p * q, 3, 50000)
  {
    var s := Min(p, q);
    if s == p {
      assert p * q == s * q;
    } else {
      assert p * q == s * p;
    }
    assert Divides(s, p * q);
    ModZeroIff(p * q, s);
    if s % 2 == 0 {
      ModZeroIff(s, 2);
      DividesTrans(2, s, p * q);
      ModZeroIff(p * q, 2);
    }
    assert s >= 3 && s % 2 == 1;
  }
}
