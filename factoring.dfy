/** What the classical attacks have in common: the trial scan for the least
    divisor (brute_force / bruteForce), the iteration x <- x*x + 1 mod n of
    Pollard's rho with Floyd's tortoise and hare, the fact that the hare always
    catches the tortoise (which is why the uncapped loops terminate), and the
    fact that a nontrivial divisor of p*q is p or q (which is why recovering d
    from any factor the attacks report is sound). */
module Factoring {
  import opened NumberTheory
  import opened Euclid
  import opened Outcomes

  // ---------------------------------------------------------------------
  // Least divisor

  /** The scan `for i in range(2, n): if n % i == 0: return i`; None when the
      range holds no divisor. Python's % agrees with Dafny's for i > 0. */
  method LeastDivisor(n: int) returns (f: Option<int>)
    ensures f.Some? ==> 2 <= f.value < n && n % f.value == 0
    ensures f.Some? ==> forall j :: 2 <= j < f.value ==> n % j != 0
    ensures f.None? ==> forall j :: 2 <= j < n ==> n % j != 0
  {
    var i := 2;
    while i < n
      invariant 2 <= i
      invariant forall j :: 2 <= j < i && j < n ==> n % j != 0
    {
      if n % i == 0 {
        return Some(i);
      }
      i := i + 1;
    }
    return None;
  }

  /** The least divisor found by the scan is prime, and the scan finds none
      exactly when n is prime (for n >= 2). */
  lemma LeastDivisorIsPrime(n: int, f: int)
    requires 2 <= f < n && n % f == 0
    requires forall j :: 2 <= j < f ==> n % j != 0
    ensures Prime(f)
  {
    forall k | 2 <= k < f
      ensures f % k != 0
    {
      if f % k == 0 {
        ModZeroIff(f, k);
        ModZeroIff(n, f);
        DividesTrans(k, f, n);
        ModZeroIff(n, k);
      }
    }
  }

  // ---------------------------------------------------------------------
  // Pollard's rho

  /** f(x) = (x * x + 1) % n. */
  function RhoStep(n: int, x: int): (r: int)
    requires n > 0
    ensures 0 <= r < n
  {
    (x * x + 1) % n
  }

  /** The i-th value of the sequence started at x0. The tortoise x holds
      RhoIter(n, x0, i) and the hare y holds RhoIter(n, x0, 2 * i) after i
      rounds. */
  function RhoIter(n: int, x0: int, i: nat): int
    requires n > 0
  {
    if i == 0 then x0 else RhoStep(n, RhoIter(n, x0, i - 1))
  }

  /** The d computed in round k: math.gcd(abs(x - y), n). */
  function RhoGcd(n: int, x0: int, k: nat): nat
    requires n > 0
  {
    Gcd(Abs(RhoIter(n, x0, k) - RhoIter(n, x0, 2 * k)), n)
  }

  /** For n == 1 every point after the start is 0 and every round's d is
      gcd(0, 1) == 1: no round stops the loop, which then never ends. */
  lemma RhoNeverStopsOnOne(x0: int, k: nat)
    requires k >= 1
    ensures RhoIter(1, x0, k) == 0 && RhoGcd(1, x0, k) == 1 && !FirstMeet(1, x0, k)
  {
  }

  /** Round k is the first whose d differs from 1, so the loop stops there. */
  ghost predicate FirstMeet(n: int, x0: int, k: nat)
    requires n > 0
  {
    k >= 1 && RhoGcd(n, x0, k) != 1 && forall j :: 1 <= j < k ==> RhoGcd(n, x0, j) == 1
  }

  lemma {:induction false} RhoShift(n: int, x0: int, i: nat, j: nat, t: nat)
    requires n > 0 && RhoIter(n, x0, i) == RhoIter(n, x0, j)
    ensures RhoIter(n, x0, i + t) == RhoIter(n, x0, j + t)
  {
    if t > 0 {
      RhoShift(n, x0, i, j, t - 1);
    }
  }

  /** Once the sequence repeats with period c from index i on, every multiple
      of c is a period from i on. */
  lemma {:induction false} RhoPeriodic(n: int, x0: int, i: nat, c: nat, m: nat)
    requires n > 0 && RhoIter(n, x0, i) == RhoIter(n, x0, i + c)
    ensures RhoIter(n, x0, i) == RhoIter(n, x0, i + m * c)
  {
    if m > 0 {
      RhoPeriodic(n, x0, i, c, m - 1);
      var t: nat := (m - 1) * c;
      assert m * c == t + c;
      RhoShift(n, x0, i, i + c, t);
      assert i + c + t == i + m * c;
    }
  }

  function Elements(s: seq<int>): set<int>
  {
    set i | 0 <= i < |s| :: s[i]
  }

  ghost predicate Distinct(s: seq<int>)
  {
    forall i, j :: 0 <= i < j < |s| ==> s[i] != s[j]
  }

  lemma {:induction false} DistinctElements(s: seq<int>)
    requires Distinct(s)
    ensures |Elements(s)| == |s|
  {
    if s != [] {
      var init := s[..|s| - 1];
      DistinctElements(init);
      assert Elements(s) == Elements(init) + {s[|s| - 1]};
      assert s[|s| - 1] !in Elements(init);
    }
  }

  /** The set {0, ..., n - 1}. */
  function Below(n: nat): (r: set<int>)
    ensures forall v :: v in r <==> 0 <= v < n
  {
    if n == 0 then {} else Below(n - 1) + {n - 1}
  }

  lemma {:induction false} BelowCard(n: nat)
    ensures |Below(n)| == n
  {
    if n > 0 {
      BelowCard(n - 1);
      var prev := Below(n - 1);
      assert n - 1 !in prev;
      assert |prev + {n - 1}| == |prev| + 1;
    }
  }

  lemma SubsetCard(a: set<int>, b: set<int>)
    requires a <= b
    ensures |a| <= |b|
  {
    assert b == a + (b - a);
    assert a * (b - a) == {};
  }

  /** More than n values in [0, n) repeat one. */
  lemma Pigeonhole(s: seq<int>, n: nat) returns (i: nat, j: nat)
    requires |s| > n && forall k :: 0 <= k < |s| ==> 0 <= s[k] < n
    ensures i < j < |s| && s[i] == s[j]
  {
    if Distinct(s) {
      DistinctElements(s);
      BelowCard(n);
      SubsetCard(Elements(s), Below(n));
      assert false;
    }
    i, j :| 0 <= i < j < |s| && s[i] == s[j];
  }

  /** Floyd: for n >= 1 the hare meets the tortoise, x_k == x_2k for some k >= 1. */
  lemma FloydMeet(n: int, x0: int) returns (k: nat)
    requires n >= 1
    ensures k >= 1 && RhoIter(n, x0, k) == RhoIter(n, x0, 2 * k)
  {
    var s := seq(n + 1, t requires 0 <= t <= n => RhoIter(n, x0, t + 1));
    var a, b := Pigeonhole(s, n);
    var i, c := a + 1, b - a;
    assert RhoIter(n, x0, i) == RhoIter(n, x0, i + c);
    k := c * i;
    RhoPeriodic(n, x0, i, c, i);
    assert k == i + (c - 1) * i;
    assert 2 * k == i + (c - 1) * i + i * c;
    RhoShift(n, x0, i, i + i * c, (c - 1) * i);
  }

  /** For n >= 2 some round stops the uncapped loop: the first round whose d
      is not 1 exists. */
  lemma FirstMeetExists(n: int, x0: int) returns (k: nat)
    requires n >= 2
    ensures FirstMeet(n, x0, k)
  {
    var m := FloydMeet(n, x0);
    assert RhoGcd(n, x0, m) == n by {
      GcdZero(0, n);
      GcdDivides(0, n);
      DividesRefl(n);
      DividesZero(n);
      GcdGreatest(0, n, n);
      DividesAntisym(Gcd(0, n), n);
    }
    k := 1;
    while RhoGcd(n, x0, k) == 1
      invariant 1 <= k <= m
      invariant forall j :: 1 <= j < k ==> RhoGcd(n, x0, j) == 1
      decreases m - k
    {
      k := k + 1;
    }
  }

  /** The round that stops the loop is unique. */
  lemma FirstMeetUnique(n: int, x0: int, k1: nat, k2: nat)
    requires n > 0 && FirstMeet(n, x0, k1) && FirstMeet(n, x0, k2)
    ensures k1 == k2
  {
  }

  /** The d the loop stops with is a divisor of n greater than 1. */
  lemma RhoGcdDivides(n: int, x0: int, k: nat)
    requires n >= 2 && RhoGcd(n, x0, k) != 1
    ensures 1 < RhoGcd(n, x0, k) <= n && n % RhoGcd(n, x0, k) == 0
  {
    var d := RhoGcd(n, x0, k);
    var a := Abs(RhoIter(n, x0, k) - RhoIter(n, x0, 2 * k));
    GcdDivides(a, n);
    GcdZero(a, n);
    DividesBound(d, n);
    ModZeroIff(n, d);
  }

  /** The loop `while d == 1: x = f(x); y = f(f(y)); d = gcd(abs(x - y), n)`
      started from x = y = x0. It always stops for n >= 2, at the first round
      whose d differs from 1. */
  method RhoUncapped(n: int, x0: int) returns (d: int)
    requires n >= 2
    ensures exists k :: FirstMeet(n, x0, k) && d == RhoGcd(n, x0, k)
    ensures 1 < d <= n && n % d == 0
  {
    ghost var bound := FirstMeetExists(n, x0);
    var x, y := x0, x0;
    d := 1;
    ghost var i: nat := 0;
    while d == 1
      invariant i <= bound
      invariant x == RhoIter(n, x0, i) && y == RhoIter(n, x0, 2 * i)
      invariant i == 0 ==> d == 1
      invariant i > 0 ==> d == RhoGcd(n, x0, i)
      invariant forall j :: 1 <= j < i ==> RhoGcd(n, x0, j) == 1
      decreases bound - i
    {
      x := RhoStep(n, x);
      y := RhoStep(n, RhoStep(n, y));
      d := Gcd(Abs(x - y), n);
      i := i + 1;
    }
    RhoGcdDivides(n, x0, i);
  }

  // ---------------------------------------------------------------------
  // Factors of a product of two primes

  /** A divisor of p*q strictly between 1 and p*q is p or q. */
  lemma SemiprimeDivisor(p: int, q: int, f: int)
    requires Prime(p) && Prime(q) && 1 < f < p * q && Divides(f, p * q)
    ensures f == p || f == q
  {
    var t :| p * q == f * t;
    if Divides(p, f) {
      var u :| f == p * u;
      assert p * q == p * (u * t);
      assert q == u * t;
      MulLeft(p, 2, u);
      assert u > 0 by {
        if u <= 0 {
          MulLeft(p, u, 0);
        }
      }
      assert Divides(u, q);
      MulLeft(p, q, u);
      PrimeDivisor(q, u);
    } else {
      PrimeCoprime(p, f);
      GcdSym(p, f);
      assert Divides(f, p * q);
      Gauss(f, p, q);
      PrimeDivisor(q, f);
    }
  }

  /** The cofactor of such a divisor is the other prime. */
  lemma SemiprimeCofactor(p: int, q: int, f: int)
    requires Prime(p) && Prime(q) && 1 < f < p * q && (p * q) % f == 0
    ensures (f == p && (p * q) / f == q) || (f == q && (p * q) / f == p)
  {
    ModZeroIff(p * q, f);
    SemiprimeDivisor(p, q, f);
  }
}
