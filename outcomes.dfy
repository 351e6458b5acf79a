/** Results of the operations that raise an exception in the source: the
    exception becomes an `Err` carrying the kind of error, so callers branch on
    it instead of unwinding. */
module Outcomes {

  /** The exceptions the core raises, one constructor per distinct cause. */
  datatype Error =
    | NoInverse        // "modular inverse does not exist" (ValueError / Exception)
    | ZeroDivision     // ZeroDivisionError: a modulus or divisor of 0
    | NotPrime         // ValueError: p or q fails the primality test
    | EqualPrimes      // ValueError: p and q must be different
    | MessageTooLarge  // ValueError: the message integer is not below n
    | NoPrimeInRange   // ValueError from sympy.randprime(3, phi): no prime in [3, phi)
    | ExponentUnbound  // UnboundLocalError: the e-loop ran over an empty range
    | ModulusTooSmall  // ValueError: the number to factor must be greater than 1
    | KeyMissing       // TypeError: a key is unpacked before generate_keypair set it
    | FactoringFailed  // no attack found a factor of n ("ATTACK FAILED")
    | PowModulusZero   // ValueError: pow(b, e, 0)
    | EmptyRange       // ValueError: random.randint(2, N - 1) with N < 3

  datatype Result<T> = Ok(value: T) | Err(error: Error)

  /** Python's None next to a value. */
  datatype Option<T> = None | Some(value: T)
}
