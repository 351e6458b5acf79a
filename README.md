# Textbook RSA and its classical attacks, in Dafny

The repository is a set of Python demonstrations of RSA and of the attacks
that break it by factoring the modulus. This project models their shared
number-theoretic core:

- primality by trial division and the next-prime search;
- the modular inverse built on the extended Euclidean algorithm, in its
  three copies;
- key generation with its deterministic exponent search, in the three
  variants of `low_end_lappy.py`, `test.py` and `magik.py`;
- textbook encryption `pow(m, e, n)` and decryption `pow(c, d, n)`
  (RSAEP and RSADP of section 5.1 of RFC 8017, without the ciphertext range
  check);
- the big-endian text/integer codec with minimal output length;
- the factoring attacks: bounded trial division, the unbounded brute-force
  scan, and Pollard's rho with Floyd cycle detection (capped with a random
  seed, or uncapped from 2);
- the classical pre- and post-processing of the Shor drivers, with the
  `Fraction` convergents.

The shared mathematics lives in modules of its own:

- `NumberTheory`: Python's floor `//` and `%`, `math.gcd`, divisibility and
  congruence, primes, the integer square root;
- `Euclid`: the extended Euclidean algorithm, Bézout, Gauss, and inverse
  uniqueness;
- `Fermat`: the binomial theorem, Fermat's little theorem, and RSA
  correctness through the Chinese remainder step;
- `Codec`: `int.from_bytes`, `int.to_bytes`, `bit_length`, and the minimal
  encoding;
- `Factoring`: the least-divisor scan, the rho sequence, and Floyd's meeting
  point by pigeonhole;
- `Rsa`: keys, encryption, decryption, the exponent search, and the round
  trip;
- `Shor`: a nontrivial square root of 1 splits N;
- `Outcomes`: the exceptions as `Err` values.

Each Python file then has a module of its own, written in the file's own
form:

- `LowEndLappy` models `low_end_lappy.py`;
- `Classic` models `classic.py`;
- `Quantum` models `quantum.py`;
- `TestDemo` models `test.py`;
- `Magik` models `magik.py`.

Within those modules:

- Scanning loops are methods with loop invariants. These are `is_prime`,
  `get_next_prime`, the e-searches, trial division, brute force, rho, the
  convergent loops and the factoring drivers.
- The RSA classes are Dafny classes whose methods assign the key fields.
- Recursion and expressions are functions.

Python `str` values are modelled as their UTF-8 bytes. Whether a byte
string is valid UTF-8 is a predicate passed in as a parameter.

Randomness is also a parameter, and a precondition states the range it is
drawn from. This covers the rho seed, the Shor base and
`sympy.randprime`'s start. The quantum period finder is an oracle input,
constrained only by the checks `find_period` makes on what it returns
(`r < N` and `pow(a, r, N) == 1`).

The sympy functions are given by their mathematical contracts:

- `isprime` is `Prime`;
- `nextprime(e)` is the least prime above `e`;
- `mod_inverse` is the unique inverse in `[0, m)`. `Euclid.InverseUnique`
  proves that `LowEndLappy.ModInverse` returns that same value.

The comment at `magik.py:73` says every key satisfies `1 < e < φ(n)`. The
two key generators differ here:

- `low_end_lappy.py` does not guarantee the bound. It turns an initial
  `e >= φ` into 3, so p = 2, q = 3 gives φ = 2 and e = 3. The model follows
  the code and states `e >= start` and `gcd(e, φ) = 1` with no upper bound.
- `magik.py`'s `nextprime` loop never steps past φ. Each prime it steps from
  shares a factor with φ, so it divides φ, and φ is at least twice that
  prime. By Bertrand's postulate the next prime then lies below φ.
  `Magik.ExponentBelowPhi` proves `1 < e < φ` with Bertrand's postulate as
  a hypothesis. The postulate itself is not proved.

## Model

| member | source | states |
|---|---|---|
| NumberTheory.PyMod | low_end_lappy.py:32-33 | Python's `%` satisfies b = a·(b // a) + b % a; for a positive divisor it lies in `[0, a)` and agrees with the Euclidean remainder; for a negative divisor it lies in `(a, 0]` |
| NumberTheory.GcdDivides | low_end_lappy.py:26 | `math.gcd(a, b)` divides both arguments |
| NumberTheory.GcdGreatest | low_end_lappy.py:26 | every common divisor of a and b divides `math.gcd(a, b)` |
| NumberTheory.Isqrt | low_end_lappy.py:15 | `int(math.sqrt(n))` taken exactly: s·s <= n < (s+1)·(s+1) |
| NumberTheory.PrimeBySqrt | low_end_lappy.py:15-18 | an n >= 2 with no divisor in `[2, isqrt(n)]` is prime, which is why the scan may stop at the square root |
| Euclid.ExtendedGcd | low_end_lappy.py:29-35 | `extended_gcd(a, b)` returns (g, x, y) with a·x + b·y = g and g dividing both a and b; base case a = 0 gives (b, 0, 1) |
| Euclid.ExtendedGcdIsGcd | low_end_lappy.py:29-35 | \|g\| equals `math.gcd(a, b)`, and g itself does for non-negative arguments |
| Euclid.BezoutInverse | low_end_lappy.py:37 | for m > 0 and gcd(a, m) = 1, the x of `extended_gcd(a % m, m)` is an inverse of a modulo m |
| Euclid.InverseUnique | test.py:46 | two inverses of a in `[0, m)` are equal, so `sympy.mod_inverse` and the model's inverse coincide |
| Fermat.RsaRoundTrip | low_end_lappy.py:85-93 | for distinct primes and e·d ≡ 1 (mod (p-1)(q-1)), (m^e)^d ≡ m (mod pq) for every integer m |
| Codec.FromBytes | low_end_lappy.py:41 | `int.from_bytes(b, 'big')` of k bytes is below 256^k |
| Codec.FromToBytes | low_end_lappy.py:49 | `x.to_bytes(k, 'big')` read back with `int.from_bytes` is x whenever x < 256^k |
| Codec.ToFromBytes | low_end_lappy.py:41 | bytes read as an integer and written back with their own length are unchanged |
| Codec.LeadingByteNonzero | low_end_lappy.py:41 | the first byte is nonzero exactly when the value reaches 256^(k-1) |
| Codec.BitLength | low_end_lappy.py:47 | `x.bit_length()` is the least len with x < 2^len |
| Codec.ByteLengthBounds | low_end_lappy.py:47 | `(bit_length + 7) // 8` is the number of base-256 digits: 256^(k-1) <= x < 256^k, and 0 for x = 0 |
| Codec.ByteLengthUnique | low_end_lappy.py:47 | that digit count is the only k with 256^(k-1) <= x < 256^k |
| Codec.MinimalBytes | low_end_lappy.py:47-49 | the minimal `to_bytes` never overflows; it reads back as x, is empty only for 0 and never starts with a zero byte |
| Codec.ShorterThan | low_end_lappy.py:47-49 | a value below 256^k has a minimal encoding of at most k bytes |
| Codec.MinimalBytesRoundTrip | low_end_lappy.py:40-51 | minimal encoding inverts `int.from_bytes` exactly on the byte strings without a leading zero byte (both directions) |
| Codec.Decode | low_end_lappy.py:49 | `.decode('utf-8')` succeeds exactly on valid bytes (and on the empty string) and returns them unchanged |
| Factoring.LeastDivisor | classic.py:33-37 | the scan `for i in range(2, n)` returns the least divisor of n in `[2, n)`, or none when no i in `[2, n)` divides n |
| Factoring.LeastDivisorIsPrime | classic.py:33-36 | the least divisor the scan finds is prime |
| Factoring.RhoStep | classic.py:43 | `f(x) = (x*x + 1) % n` lies in `[0, n)` |
| Factoring.RhoShift | classic.py:46-47 | two equal points of the rho sequence stay equal after the same number of further steps |
| Factoring.RhoPeriodic | classic.py:46-47 | a cycle of length c repeats after every multiple of c |
| Factoring.Pigeonhole | classic.py:45-48 | more than n values in `[0, n)` contain a repeat |
| Factoring.FloydMeet | classic.py:45-48 | for every seed the tortoise x_k and the hare x_2k meet for some k >= 1, so gcd(0, n) = n ends the loop |
| Factoring.FirstMeetExists | classic.py:45-48 | the rho loop has a first step at which the gcd is not 1 |
| Factoring.FirstMeetUnique | classic.py:45-48 | that first stopping step is unique, so the loop's result is determined |
| Factoring.RhoNeverStopsOnOne | classic.py:40-48 | for n = 1 every point after the start is 0 and every step's d is gcd(0, 1) = 1, so no step stops the loop |
| Factoring.RhoGcdDivides | classic.py:48 | a gcd other than 1 at a step is a divisor of n in `(1, n]` |
| Factoring.RhoUncapped | classic.py:44-48 | the uncapped while loop stops, returning the gcd at the first stopping step, a divisor of n in `(1, n]` |
| Factoring.SemiprimeDivisor | low_end_lappy.py:240-245 | a proper divisor of p·q for primes p, q is p or q |
| Factoring.SemiprimeCofactor | low_end_lappy.py:240-245 | a proper divisor f of p·q comes with cofactor (p·q) // f equal to the other prime |
| Rsa.ExponentSearchUnique | magik.py:74-76 | the e-search from a given start has exactly one outcome |
| Rsa.RsaEncrypt | low_end_lappy.py:89 | `pow(m, e, n)` lies in `[0, n)` |
| Rsa.RsaDecrypt | low_end_lappy.py:93 | `pow(c, d, n)` lies in `[0, n)` |
| Rsa.RoundTrip | low_end_lappy.py:85-93 | decrypt(encrypt(m)) = m mod n for every integer m and keys derived from distinct primes |
| LowEndLappy.IsPrime | low_end_lappy.py:7-18 | `is_prime(n)` is true exactly when n is prime (n < 2, 2, even n and the odd scan to isqrt(n) all agree) |
| LowEndLappy.GetNextPrime | low_end_lappy.py:20-23 | returns the least prime >= n, so n itself when n is prime; the loop always stops |
| LowEndLappy.ModInverse | low_end_lappy.py:25-38 | raises `NoInverse` exactly when gcd(a, m) != 1, and `ZeroDivision` for m = 0 with gcd(a, 0) = 1; otherwise, for m > 0, returns x in `[0, m)` with a·x ≡ 1 (mod m) |
| LowEndLappy.ShiftedResidue | low_end_lappy.py:38 | `(x % m + m) % m` equals `x % m` for m > 0 |
| LowEndLappy.ModInverseUnique | low_end_lappy.py:25-38 | whenever a·y ≡ 1 (mod m), `mod_inverse(a, m)` returns y mod m |
| LowEndLappy.TextToInt | low_end_lappy.py:40-41 | the integer of k bytes is below 256^k, and reaches 256^(k-1) exactly when the first byte is nonzero |
| LowEndLappy.IntToText | low_end_lappy.py:43-51 | "" for number <= 0; the minimal big-endian bytes when they decode; "[Invalid characters]" otherwise |
| LowEndLappy.TextRoundTrip | low_end_lappy.py:40-51 | `int_to_text(text_to_int(t)) == t` for valid text exactly when t is empty or does not start with a zero byte |
| LowEndLappy.EncryptWith | low_end_lappy.py:85-89 | raises `MessageTooLarge` exactly when m >= n, otherwise returns m^e mod n in `[0, n)` |
| LowEndLappy.EncryptWithRoundTrip | low_end_lappy.py:85-93 | for keys from distinct primes and 0 <= m, encryption succeeds exactly when m < n, and decryption then returns m |
| LowEndLappy.PhiAtLeastTwo | low_end_lappy.py:70-71 | distinct primes give φ >= 2 and n >= 6 |
| LowEndLappy.PrimeNotCoprime | low_end_lappy.py:76-77 | a prime e sharing a factor with φ is at most φ, which bounds the e-loop |
| LowEndLappy.SearchExponent | low_end_lappy.py:73-77 | the e-loop stops, with e >= 3 the first candidate from 65537 (or 3 when 65537 >= φ) along the next-prime chain that is coprime to φ |
| LowEndLappy.KeyFromExponent | low_end_lappy.py:79-81 | `mod_inverse(e, φ)` succeeds and the two keys share n = p·q with e·d ≡ 1 (mod φ) |
| LowEndLappy.SimpleRsa.constructor | low_end_lappy.py:55-60 | every field starts as None |
| LowEndLappy.SimpleRsa.GenerateKeypair | low_end_lappy.py:62-83 | `NotPrime` unless p and q are prime and `EqualPrimes` when p = q, in both cases with nothing assigned; otherwise sets p, q, n = p·q and the two keys from the e-search and `mod_inverse` |
| LowEndLappy.SimpleRsa.Encrypt | low_end_lappy.py:85-89 | `KeyMissing` before key generation, otherwise the checked encryption |
| LowEndLappy.SimpleRsa.Decrypt | low_end_lappy.py:91-93 | `KeyMissing` before key generation, otherwise c^d mod n |
| LowEndLappy.GeneratedRoundTrip | low_end_lappy.py:62-93 | every generated key pair decrypts every encrypted m in `[0, n)` back to m |
| LowEndLappy.OddPrime | low_end_lappy.py:107-113 | an odd n >= 3 without an odd divisor in `[3, n)` is prime |
| LowEndLappy.TrialDivision | low_end_lappy.py:101-116 | (2, n // 2) for even n; otherwise the least odd i in `[3, limit)` dividing n with n // i, or None when no odd i there divides n; the default limit is min(10000, isqrt(n) + 1) |
| LowEndLappy.TrialDivisionDefaultPrime | low_end_lappy.py:102-103 | below 10^8, default trial division of an odd n finds nothing exactly when n is prime |
| LowEndLappy.PollardsRho | low_end_lappy.py:118-143 | (2, n // 2) for even n; otherwise at most `max_iterations` steps from the seed, a pair (d, n // d) only for 1 < d < n at the first stopping step, and None when no step stops or the gcd is n |
| LowEndLappy.ProperDivisorPair | low_end_lappy.py:138-140 | a divisor 1 < d < n gives the factor pair (d, n // d) |
| LowEndLappy.RhoFailure | low_end_lappy.py:118-143 | when `pollards_rho` returns None for an odd n, no step within the iteration cap stops on a d with 1 < d < n |
| LowEndLappy.SimulatedQuantumFactor | low_end_lappy.py:145-163 | (2, n // 2) for even n; when the 50000-step rho run stops on 1 < d < n, that pair; otherwise the trial division to 50000: the least odd divisor in `[3, 50000)` with its cofactor, or None when there is none |
| LowEndLappy.FactorPairOfSemiprime | low_end_lappy.py:240-245 | any factor pair of p·q found by an attack rebuilds the true φ = (p-1)(q-1) |
| LowEndLappy.Recover | low_end_lappy.py:245-252 | rebuilding d from a factor pair succeeds exactly when e is coprime to the rebuilt φ and φ != 0 |
| LowEndLappy.RecoverVictim | low_end_lappy.py:240-257 | for an honest victim (distinct primes, valid text without leading zero byte, below n), every factor pair recovers the original text |
| LowEndLappy.Attack | low_end_lappy.py:228-265 | the attack chain in main never recovers a wrong text, and it succeeds whenever the smaller prime is below 50000 |
| LowEndLappy.SemiprimeNotPrime | low_end_lappy.py:228-237 | the modulus attacked is never prime |
| LowEndLappy.SmallPrimeFound | low_end_lappy.py:157 | an odd semiprime with a prime factor below 50000 has an odd divisor below 50000 |
| Classic.BruteForce | classic.py:33-37 | (i, n // i) for the least i in `[2, n)` dividing n, which is prime; (None, None) exactly when n < 2 or n is prime |
| Classic.PollardsRho | classic.py:40-51 | (2, n // 2) for even n; otherwise the loop from x = y = 2 stops at its first stopping step with d, giving (None, None) when d = n and (d, n // d) with 1 < d < n otherwise |
| Classic.ModInv | classic.py:55-65 | success implies gcd(a, m) = 1; for a >= 0 and m > 0 it succeeds exactly then, with x % m in `[0, m)` and a·x ≡ 1 (mod m) |
| Classic.ModInvUnique | classic.py:55-65 | for a >= 0, m > 0 and a·y ≡ 1 (mod m), `modinv(a, m)` is y mod m |
| Classic.Decrypt | classic.py:69-74 | c^d mod n as its minimal bytes when they decode (empty for 0), "<decode error>" otherwise |
| Classic.DecryptRoundTrip | classic.py:69-74 | the minimal bytes of a valid text without leading zero byte, encrypted and then decrypted, come back unchanged |
| Classic.RhoOn391 | classic.py:40-51 | from 2 on n = 391, the loop stops at its fourth step with gcd 23 |
| Classic.ExampleCipher | classic.py:11-29 | b"I" is 73 and pow(73, 3, 391) = 363 |
| Classic.ExamplePrimes | classic.py:18-19 | 17 and 23 are prime |
| Classic.ExampleInverse | classic.py:82 | `modinv(3, 352)` is 235 |
| Classic.ExampleKey | classic.py:83 | decrypting 363 with d = 235 gives back "I" |
| Classic.BruteForceRun | classic.py:79-90 | the brute-force run finds (17, 23), d = 235 and "I" |
| Classic.RhoRun | classic.py:94-104 | the rho run finds (23, 17), d = 235 and "I" |
| Classic.WorkedExample | classic.py:11-105 | the whole script: ciphertext 363 and both attacks recover "I" |
| Quantum.BruteForce | quantum.py:53-57 | [i, n // i] for the least, prime, i in `[2, n)` dividing n; [] exactly when n < 2 or n is prime |
| Quantum.Pollards | quantum.py:60-72 | [2, n // 2] for even n; otherwise the loop from 2 stops with d and returns [] when d = n, else [d, n // d] with 1 < d < n |
| Quantum.Decrypt | quantum.py:91-94 | the bytes read big-endian, c^d mod n, written back in minimal bytes: empty exactly for 0, never a leading zero byte |
| Quantum.DecryptIgnoresLeadingZero | quantum.py:92 | a leading zero byte of the ciphertext does not change the plaintext |
| Quantum.DecryptRoundTrip | quantum.py:91-94 | a message without leading zero byte, encrypted textbook-style, decrypts back to itself |
| Shor.HalfPowerSquare | test.py:145-147 | for an even period with a^r ≡ 1 (mod N), s = a^(r/2) mod N squares to 1 modulo N |
| Shor.ShorSplit | magik.py:221-231 | a square root of 1 modulo N other than 1 and N - 1 gives gcd(s - 1, N) strictly between 1 and N |
| Shor.PeriodSplits | test.py:145-152 | an even period whose half power is neither 1 nor N - 1 always yields a proper factor through delta = -1 |
| TestDemo.ConsecutiveCoprime | test.py:42-44 | gcd(φ - 1, φ) = 1, so the e-loop always finds an e when φ >= 4 |
| TestDemo.FirstCoprime | test.py:42-44 | for φ >= 4 the loop breaks at the least e in `[3, φ)` coprime to φ |
| TestDemo.EncryptWithKey | test.py:54-58 | for n > 0 the message is reduced mod n first and pow(m mod n, e, n) returned, never an error; n = 0 raises |
| TestDemo.DecryptWithKey | test.py:61-63 | c^d mod n in `[0, n)` for n > 0; pow with modulus 0 raises |
| TestDemo.RsaDemo.constructor | test.py:25-30 | every field starts as None |
| TestDemo.RsaDemo.GenerateKeypair | test.py:33-51 | p, q default to 3, 7 when either is missing, with no primality or distinctness check; n and p, q are set first; for φ <= 3, e is never bound and the keys are unchanged; otherwise keys (n, e), (n, d) with e the least coprime in `[3, φ)` and d its inverse |
| TestDemo.RsaDemo.Encrypt | test.py:54-58 | `KeyMissing` before key generation, otherwise the reducing encryption |
| TestDemo.RsaDemo.Decrypt | test.py:61-63 | `KeyMissing` before key generation, otherwise c^d mod n |
| TestDemo.DemoKeysDerived | test.py:42-48 | the demo keys are derived keys: e coprime to φ, d its inverse in `[0, φ)` |
| TestDemo.DemoRoundTrip | test.py:54-63 | for prime p != q, decrypt(encrypt(m)) = m mod n for every integer m |
| TestDemo.DefaultKeys | test.py:33-48 | the default keys are exactly n = 21, e = 5, d = 5 |
| TestDemo.DefaultExponent | test.py:42-44 | with φ = 12 the e-loop stops at 5 |
| TestDemo.DemoMessage | test.py:166-169 | main's message 433482738923745 encrypts to 0 under (21, 5) and decrypts to 0, its residue mod 21 |
| TestDemo.SmallFactor | test.py:132-134 | the trial scan returns the first small prime dividing N, or none exactly when no small prime from the start index divides N |
| TestDemo.SmallPrimesPrime | test.py:132 | every listed trial divisor is prime |
| TestDemo.BaseFactor | test.py:139-141 | a shared factor gcd(a, N) > 1 of a base in `[2, N)` is below N and pairs with N // gcd |
| TestDemo.ProperFactor | test.py:150-152 | a divisor 1 < f < N pairs with N // f to give N |
| TestDemo.TrialOutcome | test.py:138-152 | what an attempt returns is [f, N // f] with 1 < f < N and product N |
| TestDemo.UsablePeriodSplits | test.py:145-152 | a confident even period whose half power is not ±1 always succeeds, at delta = -1 |
| TestDemo.TryDeltas | test.py:149-152 | the delta loop returns gcd(s - 1, N) when proper, else gcd(s + 1, N) when proper, else nothing |
| TestDemo.RunTrial | test.py:138-152 | one loop iteration computes exactly the attempt outcome |
| TestDemo.FactorNumber | test.py:126-154 | [2, N // 2] for even N; [p, N // p] for the first small prime p dividing N; otherwise the outcome of the first successful attempt, or [] when all fail; every result multiplies to N, and its first entry is N only for prime N |
| TestDemo.EvenFactor | test.py:130-131 | the even answer multiplies to N and is trivial only for N = 2 |
| TestDemo.SmallFactorBound | test.py:132-134 | a small-prime answer multiplies to N and is trivial only when N is that prime |
| TestDemo.PrimeHasNoProperFactor | test.py:150-152 | a number with a proper divisor is not prime |
| TestDemo.FactorExamples | test.py:191-195 | main's test cases: 15 gives [3, 5], 21 gives [3, 7], 35 gives [5, 7], whatever the attempts draw |
| TestDemo.FactorBySmallPrime | test.py:132-134 | an odd N with a first small prime p is answered [p, N // p] before any attempt |
| Magik.WrittenFoldFails | magik.py:49-50 | a division by zero inside the fold makes the whole convergent fail |
| Magik.Convergents | magik.py:44-52 | as written: one entry per coefficient, the first being coeffs[0], each the fold that starts at coeffs[k-1] and applies 1/(c_i + frac) down to i = 0; `ZeroDivisionError` exactly when some fold divides by zero |
| Magik.TextbookFoldFails | magik.py:49-50 | a division by zero inside the corrected fold makes the whole convergent fail |
| Magik.TextbookConvergents | magik.py:44-52 | corrected: the same loops computing c_0 + 1/(c_1 + ...), one entry per coefficient, the first being coeffs[0] |
| Magik.TermsPositive | magik.py:160-161 | with coefficients >= 1 after the first, the convergent's denominator is at least 1 |
| Magik.TermsCoprime | magik.py:160-161 | the numerator and denominator built from the back are coprime |
| Magik.TermsValue | magik.py:44-52 | the corrected fold never divides by zero and equals P / Q |
| Magik.ConvergentsInLowestTerms | magik.py:158-161 | every corrected convergent exists and is P / Q in lowest terms with Q >= 1, so `frac.denominator` is Q |
| Magik.ConvergentsCounterexample | magik.py:44-52 | for [0, 2, 3] the code as written yields 5 where the continued fraction is 3/7 |
| Magik.SearchFrom | magik.py:74-76 | the nextprime loop from a prime start in `[3, φ)` stops at the first prime coprime to φ |
| Magik.CoprimePrimeBelow | magik.py:74-76 | under Bertrand's postulate, a prime below φ can be climbed, each prime to one between it and its double, to a prime below φ that is coprime to φ |
| Magik.ExponentBelowPhi | magik.py:73-76 | under Bertrand's postulate, the e the loop stops at satisfies `1 < e < φ`, as the comment promises |
| Magik.RsaDemo.constructor | magik.py:58-63 | every field starts as None |
| Magik.RsaDemo.GenerateKeypair | magik.py:65-87 | as written: `NotPrime` unless both are prime, with nothing assigned; then p, q and n = p·q are set; `NoPrimeInRange` when φ <= 3; otherwise keys from the e-search and d the inverse in `[0, φ)`; under Bertrand's postulate `1 < e < φ`; equal primes are accepted |
| Magik.RsaDemo.GenerateKeypairDistinct | magik.py:65-87 | corrected: equal primes are refused too, and every generated pair decrypts every m in `[0, n)` back to m |
| Magik.RsaDemo.Encrypt | magik.py:89-95 | `KeyMissing` before key generation; `MessageTooLarge` exactly when message >= n; otherwise message^e mod n |
| Magik.RsaDemo.Decrypt | magik.py:97-100 | `KeyMissing` before key generation, otherwise c^d mod n |
| Magik.MagikRoundTrip | magik.py:65-100 | keys from distinct primes decrypt every m in `[0, n)` back to m |
| Magik.EqualPrimesBreakRoundTrip | magik.py:65-100 | with p = q the message p encrypts to 0, which decrypts to 0 != p |
| Magik.ShorModulus | magik.py:170-173 | the constructor raises `ModulusTooSmall` exactly when N < 2 and keeps N otherwise |
| Magik.Sorted | magik.py:231 | `sorted([a, b])` is a permutation of [a, b] in ascending order |
| Magik.AttemptOutcome | magik.py:198-234 | what an attempt returns has two entries strictly between 1 and N whose product is N |
| Magik.PeriodYieldsFirstGcd | magik.py:221-231 | a coprime base with an even period whose half power is not ±1 always returns sorted [gcd(s - 1, N), N // gcd(s - 1, N)] |
| Magik.SecondGcdUnused | magik.py:226-234 | for odd N, when gcd(s - 1, N) is not proper neither is gcd(s + 1, N), so the second check never returns |
| Magik.RunAttempt | magik.py:198-234 | one loop iteration computes exactly the attempt outcome |
| Magik.FactorNumber | magik.py:181-237 | [2, N // 2] for even N; None for prime N; otherwise the outcome of the first successful attempt, or None when all fail; every result multiplies to N with both entries in `(1, N)` for odd N |

## Left out

- Console I/O, `print`, the interactive `main` loops, `time.time` and the
  module-level pip installs: process input and output, not computation.
- Quantum circuits, simulators and sampling with pennylane/qiskit,
  `find_period`'s phase estimation and `n_count = ceil(2·log2 N)`. These are
  third-party and nondeterministic. The period finder is an oracle input
  constrained by the checks `find_period` applies to its answer.
- `continued_fraction` and test.py's phase matching: floating point with an
  epsilon.
- The `cryptography` OAEP key pair and the 1024-bit brute-force run of
  quantum.py: a foreign library and an infeasible computation.
- The randomness of `random.randint` and `sympy.randprime`. Each draw is a
  parameter, and a precondition states its range.
- `math.sqrt` is modelled as the exact integer square root `Isqrt`; float
  rounding above 2^52 is not modelled.
- UTF-8 validity is an abstract predicate on byte strings. The literal
  messages of the source are ASCII and are stated for every predicate that
  accepts ASCII.
- `ClassicalFactorizer` only stores n, so its methods take n as a
  parameter; the class itself is not modelled.
- quantum.py's `modinv`/`egcd` is the same code as classic.py's and is
  modelled once, by `Classic.ModInv`.
- `int_to_text`'s `OverflowError` branch cannot be reached
  (`Codec.MinimalBytes` never overflows), so it has no model of its own.
- Fractions are modelled as real numbers. The corrected convergents also
  carry their integer numerator and denominator, which pins down
  `Fraction.denominator`.
- LowEndLappy.ModInverse: for a negative modulus only the range `(m, 0]` of
  the result is stated. The egcd gcd can then be -1, and the result need
  not be an inverse.
- Classic.ModInv: for negative a or m only "success implies coprime" and
  the range are stated. `egcd(a, m)` on a negative a can return g = -1 and
  raise although an inverse exists.
- TestDemo.EncryptWithKey: for a negative n only the range `(n, 0]` of the
  result is stated.
- TestDemo.DecryptWithKey: for a negative n only the range `(n, 0]` of the
  result is stated.
- Classic.PollardsRho: odd n <= 1 is excluded by the requires. For n = 1
  and n = -1 the source loop never stops, because every point after the
  start is 0 and gcd(0, n) = 1 (`Factoring.RhoNeverStopsOnOne` for n = 1).
  For a negative odd n such as -3 the source returns a pair, here (3, -1).
  The module only calls it on n = 391.
- Quantum.Pollards: the same exclusion and the same behaviour of the source
  for odd n <= 1 as `Classic.PollardsRho`. Its call site passes the
  modulus of the generated key pair, a product of two large primes.
- LowEndLappy.TrialDivision: a negative n with the default limit is
  excluded (also in `LowEndLappy.TrialLimit`); there `math.sqrt` raises
  `ValueError`. The factorizer is only built on a product of two primes.
- Classic.Decrypt: n <= 0 is excluded. The source's `pow(c, d, 0)` raises
  `ValueError`, and a negative n gives a residue in `(n, 0]`. Its call
  sites use n = 391.
- Quantum.Decrypt: n <= 0 is excluded, as for `Classic.Decrypt`. Its call
  sites pass the modulus of a generated key.
- Magik.RsaDemo.GenerateKeypair: `1 < e < φ` is stated only under
  Bertrand's postulate, taken as the hypothesis `Magik.BertrandBelow`.
  Proving the postulate is outside this model.
- LowEndLappy.PollardsRho: with n = 1 the draw `random.randint(2, 0)` raises.
  The model instead requires a seed in `[2, n - 1]` for odd n.
- LowEndLappy.TrialDivisionDefaultPrime: the equivalence is stated below
  10^8 only. Above that, the cap of 10000 makes default trial division give
  up on composites too.
- LowEndLappy.Attack: it states that no attack in the chain yields a wrong
  text, and that one succeeds when a prime is below 50000. It does not
  state which attack succeeds.

## Findings

| source | as written | input that shows it | evidently intended | confidence | as-written member | corrected member |
|---|---|---|---|---|---|---|
| magik.py:44-52 | `convergents` starts each fold from the last coefficient itself and takes a reciprocal at every index, i = 0 included, so entry k is 1/(c_0 + 1/(c_1 + ... + 1/(c_(k-2) + c_(k-1)))) | coefficients [0, 2, 3]: the third entry is 5 instead of 0 + 1/(2 + 1/3) = 3/7 | the k-th convergent c_0 + 1/(c_1 + ... + 1/c_(k-1)), whose denominator is the period candidate | not executed | Magik.Convergents, Magik.ConvergentsCounterexample | Magik.TextbookConvergents, Magik.ConvergentsInLowestTerms |
| magik.py:65-81 | `generate_keypair` checks that p and q are prime but not that they differ, so φ = (p-1)² is not the order of the units modulo p² | p = q = 3 with start e = 3: n = 9, φ = 4, e = 3, d = 3, and the message 3 encrypts to 0, which decrypts to 0 | refuse p = q, as low_end_lappy.py:65-66 does | not executed | Magik.RsaDemo.GenerateKeypair, Magik.EqualPrimesBreakRoundTrip | Magik.RsaDemo.GenerateKeypairDistinct |
