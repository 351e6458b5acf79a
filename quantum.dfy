/** quantum.py, its functions only: the brute-force scan and Pollard's rho
    returning lists, and the byte-level textbook decryption. Its modinv/egcd
    pair is character for character the one of classic.py and is modelled
    there (Classic.ModInv over Euclid.ExtendedGcd). */
module Quantum {
  import opened NumberTheory
  import opened Codec
  import opened Factoring
  import opened Rsa

  /** bruteForce(n): [i, n // i] for the least i in [2, n) dividing n, and []
      exactly when n < 2 or n is prime. */
  method BruteForce(n: int) returns (r: seq<int>)
    ensures r == [] || |r| == 2
    ensures r == [] <==> n < 2 || Prime(n)
    ensures r != [] ==>
              2 <= r[0] < n && n % r[0] == 0 && r[1] == n / r[0] && r[0] * r[1] == n
              && Prime(r[0]) && forall j :: 2 <= j < r[0] ==> n % j != 0
  {
    var f := LeastDivisor(n);
    if f.None? {
      return [];
    }
    LeastDivisorIsPrime(n, f.value);
    return [f.value, n / f.value];
  }

  /** pollards(n): [2, n // 2] for even n; otherwise the uncapped rho loop
      from x = y = 2, with [] when it stops with d == n and [d, n // d]
      otherwise. */
  method Pollards(n: int) returns (r: seq<int>)
    requires n % 2 == 0 || n >= 3
    ensures r == [] || |r| == 2
    ensures n % 2 == 0 ==> r == [2, n / 2]
    ensures n % 2 != 0 ==>
              exists k :: FirstMeet(n, 2, k) && 1 < RhoGcd(n, 2, k) <= n
                && (if RhoGcd(n, 2, k) == n then r == []
                    else r == [RhoGcd(n, 2, k) as int, n / RhoGcd(n, 2, k)])
    ensures n % 2 != 0 && r != [] ==> 1 < r[0] < n && n % r[0] == 0 && r[0] * r[1] == n
  {
    if n % 2 == 0 {
      return [2, n / 2];
    }
    var d := RhoUncapped(n, 2);
    if d == n {
      return [];
    }
    assert d * (n / d) == n;
    return [d, n / d];
  }

  /** decrypt(bytes, d, n): the ciphertext read big-endian, pow(c, d, n), and
      the result in its minimal big-endian bytes (empty for 0, never a leading
      zero byte). */
  function Decrypt(encrypted: seq<byte>, d: nat, n: int): (r: seq<byte>)
    requires n > 0
    ensures FromBytes(r) == PowMod(FromBytes(encrypted), d, n)
    ensures r == [] <==> PowMod(FromBytes(encrypted), d, n) == 0
    ensures r != [] ==> r[0] != 0
  {
    MinimalBytes(PowMod(FromBytes(encrypted), d, n))
  }

  /** Leading zero bytes of the ciphertext do not change the plaintext. */
  lemma DecryptIgnoresLeadingZero(encrypted: seq<byte>, d: nat, n: int)
    requires n > 0
    ensures Decrypt([0] + encrypted, d, n) == Decrypt(encrypted, d, n)
  {
    var b := [0] + encrypted;
    FromBytesLeading(b);
    assert b[1..] == encrypted;
    assert b[0] * Pow(256, |b| - 1) == 0;
    assert FromBytes(b) == FromBytes(encrypted);
  }

  /** The minimal bytes of the textbook ciphertext of a message without a
      leading zero byte decrypt back to the message, for a key pair derived
      from distinct primes. */
  lemma DecryptRoundTrip(pub: PublicKey, priv: PrivateKey, p: int, q: int, message: seq<byte>)
    requires Prime(p) && Prime(q) && p != q && DerivedFrom(pub, priv, p, q)
    requires (message == [] || message[0] != 0) && FromBytes(message) < pub.n
    ensures pub.n > 0
    ensures Decrypt(MinimalBytes(RsaEncrypt(pub, FromBytes(message))), priv.d, priv.n) == message
  {
    var m := FromBytes(message);
    RoundTrip(pub, priv, p, q, m);
    SmallMod(m, pub.n);
    MinimalBytesRoundTrip(message);
  }
}
