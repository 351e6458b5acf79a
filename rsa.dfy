/** The textbook RSA primitives every RSA class of the repository shares:
    the key pair ((n, e), (n, d)), encryption c = m^e mod n and decryption
    m = c^d mod n (RSAEP and RSADP of section 5.1 of RFC 8017, without the
    range check on the ciphertext), and the round trip for keys derived from
    two distinct primes. */
module Rsa {
  import opened NumberTheory
  import opened Fermat

  /** (n, e) */
  datatype PublicKey = PublicKey(n: int, e: nat)

  /** (n, d) */
  datatype PrivateKey = PrivateKey(n: int, d: nat)

  /** The key pair was derived from p and q: both keys carry n = p*q, e is
      coprime to phi = (p - 1)(q - 1), and d is the inverse of e in [0, phi). */
  ghost predicate DerivedFrom(pub: PublicKey, priv: PrivateKey, p: int, q: int)
  {
    var phi := (p - 1) * (q - 1);
    pub.n == p * q && priv.n == p * q
    && Gcd(pub.e, phi) == 1 && 0 <= priv.d < phi && Cong(pub.e * priv.d, 1, phi)
  }

  /** The exponent search of generate_keypair: starting from `start`, and then
      moving from prime to next prime, e is the first candidate coprime to phi.
      So e is start itself when that is coprime, and otherwise the least prime
      above start that is coprime to phi. */
  ghost predicate ExponentSearch(e: int, start: int, phi: int)
  {
    Gcd(e, phi) == 1 && e >= start
    && (e != start ==>
          Prime(e) && Gcd(start, phi) != 1
          && forall k :: start < k < e && Prime(k) ==> Gcd(k, phi) != 1)
  }

  /** The search has one outcome: the key generation is deterministic. */
  lemma ExponentSearchUnique(e1: int, e2: int, start: int, phi: int)
    requires ExponentSearch(e1, start, phi) && ExponentSearch(e2, start, phi)
    ensures e1 == e2
  {
  }

  /** pow(m, e, n) */
  function RsaEncrypt(key: PublicKey, m: int): (c: int)
    requires key.n > 0
    ensures 0 <= c < key.n
  {
    PowMod(m, key.e, key.n)
  }

  /** pow(c, d, n) */
  function RsaDecrypt(key: PrivateKey, c: int): (m: int)
    requires key.n > 0
    ensures 0 <= m < key.n
  {
    PowMod(c, key.d, key.n)
  }

  /** Decryption undoes encryption modulo n for a key pair derived from two
      distinct primes, whatever integer the message is. */
  lemma RoundTrip(pub: PublicKey, priv: PrivateKey, p: int, q: int, m: int)
    requires Prime(p) && Prime(q) && p != q && DerivedFrom(pub, priv, p, q)
    ensures pub.n > 0 && RsaDecrypt(priv, RsaEncrypt(pub, m)) == m % pub.n
  {
    var n := p * q;
    MulLeft(p, 1, q);
    PowModBase(Pow(m, pub.e), priv.d, n);
    RsaRoundTrip(p, q, pub.e, priv.d, m);
  }
}
