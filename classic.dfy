/** classic.py: textbook RSA on p = 17, q = 23, e = 3 with the message "I",
    and the two classical attacks that recover d: the brute-force scan for a
    divisor and Pollard's rho started at 2 without an iteration cap. */
module Classic {
  import opened NumberTheory
  import opened Euclid
  import opened Outcomes
  import opened Codec
  import opened Factoring
  import opened Rsa

  /** brute_force(n): (i, n // i) for the least i in [2, n) dividing n, and
      (None, None) exactly when n < 2 or n is prime. The i found is prime. */
  method BruteForce(n: int) returns (r: (Option<int>, Option<int>))
    ensures r.0.None? <==> r.1.None?
    ensures r.0.None? <==> n < 2 || Prime(n)
    ensures r.0.Some? ==>
              2 <= r.0.value < n && n % r.0.value == 0 && r.1.value == n / r.0.value
              && Prime(r.0.value) && forall j :: 2 <= j < r.0.value ==> n % j != 0
  {
    var f := LeastDivisor(n);
    if f.None? {
      return (None, None);
    }
    LeastDivisorIsPrime(n, f.value);
    return (Some(f.value), Some(n / f.value));
  }

  /** pollards_rho(n): (2, n // 2) for even n; otherwise the uncapped loop
      from x = y = 2, with (None, None) when the d it stops with is n itself
      and (d, n // d) otherwise. For n == 1 the loop would never stop, and
      the random-free start 2 needs n >= 3. */
  method PollardsRho(n: int) returns (r: (Option<int>, Option<int>))
    requires n % 2 == 0 || n >= 3
    ensures r.0.None? <==> r.1.None?
    ensures n % 2 == 0 ==> r == (Some(2), Some(n / 2))
    ensures n % 2 != 0 ==>
              exists k :: FirstMeet(n, 2, k) && 1 < RhoGcd(n, 2, k) <= n
                && (if RhoGcd(n, 2, k) == n then r == (None, None)
                    else r == (Some(RhoGcd(n, 2, k) as int), Some(n / RhoGcd(n, 2, k))))
    ensures n % 2 != 0 && r.0.Some? ==>
              1 < r.0.value < n && n % r.0.value == 0 && r.0.value * r.1.value == n
  {
    if n % 2 == 0 {
      return (Some(2), Some(n / 2));
    }
    var d := RhoUncapped(n, 2);
    if d == n {
      return (None, None);
    }
    assert d * (n / d) == n;
    return (Some(d), Some(n / d));
  }

  /** modinv(a, m): egcd(a, m) (the same triple as ExtendedGcd), an error
      unless its g is 1, then x % m; x % 0 raises ZeroDivisionError. */
  function ModInv(a: int, m: int): (r: Result<int>)
    ensures r.Ok? ==> Gcd(a, m) == 1 && m != 0
    ensures a >= 0 && m > 0 ==> (r.Ok? <==> Gcd(a, m) == 1)
    ensures r.Err? && m != 0 ==> r.error == NoInverse
    ensures r.Ok? && m > 0 ==> 0 <= r.value < m && Cong(a * r.value, 1, m)
    ensures r.Ok? && m < 0 ==> m < r.value <= 0
  {
    var t := ExtendedGcd(a, m);
    ExtendedGcdIsGcd(a, m);
    if t.g != 1 then Err(NoInverse)
    else if m == 0 then Err(ZeroDivision)
    else
      if m > 0 then
        assert a * t.x - 1 == m * (-t.y);
        ReduceInverse(a, t.x, m);
        Ok(PyMod(t.x, m))
      else
        Ok(PyMod(t.x, m))
  }

  /** For a nonnegative a and a positive m, modinv returns the unique inverse
      in [0, m) whenever one exists. */
  lemma ModInvUnique(a: int, y: int, m: int)
    requires a >= 0 && m > 0 && Cong(a * y, 1, m)
    ensures ModInv(a, m) == Ok(y % m)
  {
    InverseCoprime(a, y, m);
    ReduceInverse(a, y, m);
    var r := ModInv(a, m);
    InverseUnique(a, r.value, y % m, m);
  }

  /** decrypt(c, d, n): pow(c, d, n) in its minimal big-endian bytes, decoded
      as UTF-8, or "<decode error>" when they are not valid. The plaintext 0
      gives "". */
  function Decrypt(cipher: int, d: nat, n: int, valid: seq<byte> -> bool): (r: seq<byte>)
    requires n > 0
    ensures PowMod(cipher, d, n) == 0 ==> r == []
    ensures valid(MinimalBytes(PowMod(cipher, d, n))) ==>
              r == MinimalBytes(PowMod(cipher, d, n)) && FromBytes(r) == PowMod(cipher, d, n)
    ensures PowMod(cipher, d, n) != 0 && !valid(MinimalBytes(PowMod(cipher, d, n))) ==>
              r == Ascii("<decode error>")
  {
    match Decode(MinimalBytes(PowMod(cipher, d, n)), valid)
    case Some(text) => text
    case None => Ascii("<decode error>")
  }

  /** Decrypting the encryption of a valid text without a leading zero byte
      gives the text back, for a key pair derived from distinct primes. */
  lemma DecryptRoundTrip(pub: PublicKey, priv: PrivateKey, p: int, q: int,
                         text: seq<byte>, valid: seq<byte> -> bool)
    requires Prime(p) && Prime(q) && p != q && DerivedFrom(pub, priv, p, q)
    requires valid(text) && (text == [] || text[0] != 0) && FromBytes(text) < pub.n
    ensures pub.n > 0 && Decrypt(RsaEncrypt(pub, FromBytes(text)), priv.d, priv.n, valid) == text
  {
    var m := FromBytes(text);
    RoundTrip(pub, priv, p, q, m);
    SmallMod(m, pub.n);
    assert PowMod(RsaEncrypt(pub, m), priv.d, priv.n) == m;
    MinimalBytesRoundTrip(text);
  }

  /** The iterates of x <- x*x + 1 mod 391 from 2 meet with gcd 23 in round 4. */
  lemma RhoOn391()
    ensures FirstMeet(391, 2, 4) && RhoGcd(391, 2, 4) == 23
  {
    assert RhoIter(391, 2, 1) == 5;
    assert RhoIter(391, 2, 2) == 26;
    assert RhoIter(391, 2, 3) == 286;
    assert RhoIter(391, 2, 4) == 78;
    assert RhoIter(391, 2, 5) == 220;
    assert RhoIter(391, 2, 6) == 308;
    assert RhoIter(391, 2, 7) == 243;
    assert RhoIter(391, 2, 8) == 9;
    assert RhoGcd(391, 2, 1) == Gcd(21, 391) == 1;
    assert RhoGcd(391, 2, 2) == Gcd(52, 391) == 1;
    assert RhoGcd(391, 2, 3) == Gcd(22, 391) == 1;
    assert RhoGcd(391, 2, 4) == Gcd(69, 391) == 23;
  }

  /** "I" is the integer 73, and 73^3 mod 391 is 363. */
  lemma ExampleCipher()
    ensures FromBytes([73]) == 73 && PowMod(73, 3, 391) == 363
  {
    assert Pow(73, 3) == 389017;
    assert 389017 % 391 == 363;
  }

  /** 17 and 23 are prime. */
  lemma ExamplePrimes()
    ensures Prime(17) && Prime(23)
  {
    forall k | 2 <= k <= 4
      ensures 17 % k != 0 && 23 % k != 0
    {
      if k == 2 {
      } else if k == 3 {
      } else {
      }
    }
    PrimeBySqrt(17, 4);
    PrimeBySqrt(23, 4);
  }

  /** modinv(3, 352) == 235. */
  lemma ExampleInverse()
    ensures ModInv(3, 352) == Ok(235)
  {
    assert 3 * 235 - 1 == 352 * 2;
    ModInvUnique(3, 235, 352);
  }

  /** The key of the module-level run decrypts its ciphertext 363 to "I". */
  lemma ExampleKey(valid: seq<byte> -> bool)
    requires AcceptsAscii(valid)
    ensures Decrypt(363, 235, 391, valid) == Ascii("I")
  {
    var message: seq<byte> := [73];
    ExampleCipher();
    ExamplePrimes();
    var pub, priv := PublicKey(391, 3), PrivateKey(391, 235);
    assert DerivedFrom(pub, priv, 17, 23) by {
      assert 3 * 235 - 1 == 352 * 2;
      assert Gcd(3, 352) == 1;
    }
    assert valid(message);
    DecryptRoundTrip(pub, priv, 17, 23, message, valid);
  }

  /** Lines 79-83: brute_force(391), phi from its factors, d = modinv(3, phi),
      and the decryption. */
  method BruteForceRun(encrypted: int, valid: seq<byte> -> bool)
    returns (factors: (Option<int>, Option<int>), d: Result<int>, decrypted: seq<byte>)
    requires encrypted == 363 && AcceptsAscii(valid)
    ensures factors == (Some(17), Some(23)) && d == Ok(235) && decrypted == Ascii("I")
  {
    var n := 391;
    ExamplePrimes();
    assert !Prime(n) by {
      assert 2 <= 17 < n && n % 17 == 0;
    }
    factors := BruteForce(n);
    var f := factors.0.value;
    ModZeroIff(n, f);
    SemiprimeDivisor(17, 23, f);
    assert n % 17 == 0;
    assert f == 17;
    assert 391 / 17 == 23;
    var phi := (factors.0.value - 1) * (factors.1.value - 1);
    assert phi == 352;
    ExampleInverse();
    d := ModInv(3, phi);
    ExampleKey(valid);
    decrypted := Decrypt(encrypted, d.value, n, valid);
  }

  /** Lines 95-98: the same with pollards_rho(391), which stops in round 4
      with d = 23 and reports the factors the other way round. */
  method RhoRun(encrypted: int, valid: seq<byte> -> bool)
    returns (factors: (Option<int>, Option<int>), d: Result<int>, decrypted: seq<byte>)
    requires encrypted == 363 && AcceptsAscii(valid)
    ensures factors == (Some(23), Some(17)) && d == Ok(235) && decrypted == Ascii("I")
  {
    var n := 391;
    factors := PollardsRho(n);
    RhoOn391();
    ghost var k :| FirstMeet(n, 2, k) && 1 < RhoGcd(n, 2, k) <= n
      && (if RhoGcd(n, 2, k) == n then factors == (None, None)
          else factors == (Some(RhoGcd(n, 2, k) as int), Some(n / RhoGcd(n, 2, k))));
    FirstMeetUnique(n, 2, k, 4);
    assert RhoGcd(n, 2, k) == 23;
    assert 391 / 23 == 17;
    assert factors == (Some(23), Some(17));
    var phi := (factors.0.value - 1) * (factors.1.value - 1);
    assert phi == 352;
    ExampleInverse();
    d := ModInv(3, phi);
    ExampleKey(valid);
    decrypted := Decrypt(encrypted, d.value, n, valid);
  }

  /** The module-level run: encrypt "I" (73) with e = 3 modulo n = 17 * 23,
      break the key by brute force and by Pollard's rho, rebuild d = 235 from
      each factor pair, and decrypt back to "I". */
  method WorkedExample(valid: seq<byte> -> bool)
    returns (encrypted: int, bruteFactors: (Option<int>, Option<int>), dBrute: Result<int>,
             decryptedBrute: seq<byte>, rhoFactors: (Option<int>, Option<int>),
             dRho: Result<int>, decryptedRho: seq<byte>)
    requires AcceptsAscii(valid)
    ensures encrypted == 363
    ensures bruteFactors == (Some(17), Some(23)) && dBrute == Ok(235) && decryptedBrute == Ascii("I")
    ensures rhoFactors == (Some(23), Some(17)) && dRho == Ok(235) && decryptedRho == Ascii("I")
  {
    var message: seq<byte> := [73];
    var p, q := 17, 23;
    var n := p * q;
    var e := 3;
    ExampleCipher();
    encrypted := PowMod(FromBytes(message), e, n);
    bruteFactors, dBrute, decryptedBrute := BruteForceRun(encrypted, valid);
    rhoFactors, dRho, decryptedRho := RhoRun(encrypted, valid);
  }
}
