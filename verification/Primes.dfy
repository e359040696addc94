/** Prime numbers: trial division, and that there is always a larger one. */
module Primes {
  import opened Remainders

  ghost predicate Prime(n: nat) {
    n >= 2 && forall d: nat :: 2 <= d < n ==> n % d != 0
  }

  lemma DivisorPair(n: nat, d: nat)
    requires 2 <= d < n && n % d == 0
    ensures 2 <= n / d < n && n == d * (n / d)
  {
  }

  lemma Larger(d: nat, q: nat)
    requires d >= 2
    ensures d * q >= 2 * q
  {
  }

  lemma Quotient(n: nat, d: nat, q: nat)
    requires d > 0 && n == d * q
    ensures n % d == 0
  {
    RemainderOfSum(0, q, d);
  }

  /** Trial division up to the square root is enough. */
  lemma TrialDivision(n: nat, limit: nat)
    requires n >= 2 && limit * limit > n && forall d: nat :: 2 <= d < limit ==> n % d != 0
    ensures Prime(n)
  {
    forall d: nat | 2 <= d < n
      ensures n % d != 0
    {
      if n % d == 0 {
        DivisorPair(n, d);
        var q := n / d;
        assert n == q * d;
        Quotient(n, q, d);
        assert d >= limit && q >= limit;
        Squares(limit, d, q);
      }
    }
  }

  lemma Squares(l: nat, d: nat, q: nat)
    requires l <= d && l <= q
    ensures l * l <= d * q
  {
  }

  // ----- There is always a larger prime -----

  function Factorial(n: nat): (f: nat)
    ensures f >= 1
  {
    if n == 0 then 1 else n * Factorial(n - 1)
  }

  lemma {:induction false} DividesFactorial(n: nat, d: nat)
    requires 1 <= d <= n
    ensures Factorial(n) % d == 0
  {
    if d == n {
      Quotient(Factorial(n), d, Factorial(n - 1));
    } else {
      DividesFactorial(n - 1, d);
      var q := Factorial(n - 1) / d;
      assert Factorial(n - 1) == d * q;
      assert n * (d * q) == d * (n * q);
      Quotient(Factorial(n), d, n * q);
    }
  }

  /** The smallest divisor above one is prime. */
  lemma {:induction false} PrimeDivisor(n: nat, d: nat) returns (p: nat)
    requires 2 <= d <= n && forall e: nat :: 2 <= e < d ==> n % e != 0
    ensures Prime(p) && n % p == 0
    decreases n - d
  {
    if n % d != 0 {
      Itself(n);
      p := PrimeDivisor(n, d + 1);
    } else {
      p := d;
      forall e: nat | 2 <= e < d
        ensures d % e != 0
      {
        if d % e == 0 {
          var q, r := d / e, n / d;
          assert d == e * q && n == d * r;
          assert (e * q) * r == e * (q * r);
          Quotient(n, e, q * r);
        }
      }
    }
  }

  lemma Itself(n: nat)
    requires n > 0
    ensures n % n == 0
  {
  }

  lemma LargerPrime(n: nat) returns (p: nat)
    ensures Prime(p) && p > n
  {
    var f := Factorial(n);
    p := PrimeDivisor(f + 1, 2);
    if p <= n {
      DividesFactorial(n, p);
      assert f == p * (f / p);
      RemainderOfSum(1, f / p, p);
      assert false;
    }
  }

  /** The smallest prime above twice `n`, looked for among the odd numbers. */
  method NextSize(n: nat) returns (size: nat)
    requires n > 0
    ensures Prime(size) && size > 2 * n
    ensures forall q: nat :: 2 * n < q < size ==> !Prime(q)
  {
    hide Prime;
    size := 2 * n + 1;
    ghost var bound := LargerPrime(size);
    OddPrime(bound);
    while true
      invariant size % 2 == 1 && 2 * n < size <= bound
      invariant forall q: nat :: 2 * n < q < size ==> !Prime(q)
      decreases bound - size
    {
      var prime := IsPrime(size);
      if prime {
        return;
      }
      EvenIsNotPrime(size + 1);
      size := size + 2;
    }
  }

  /** Trial division up to the square root. */
  method IsPrime(n: nat) returns (prime: bool)
    requires n >= 2
    ensures prime <==> Prime(n)
  {
    var j := 2;
    while j * j <= n && n % j != 0
      invariant 2 <= j && forall d: nat :: 2 <= d < j ==> n % d != 0
      decreases n - j
    {
      Larger(j, j);
      j := j + 1;
    }
    prime := j * j > n;
    if prime {
      TrialDivision(n, j);
    } else {
      NotPrime(n, j);
    }
  }

  lemma EvenIsNotPrime(n: nat)
    requires n > 2 && n % 2 == 0
    ensures !Prime(n)
  {
  }

  lemma OddPrime(p: nat)
    requires Prime(p) && p > 2
    ensures p % 2 == 1
  {
  }

  lemma NotPrime(n: nat, d: nat)
    requires d >= 2 && d * d <= n && n % d == 0
    ensures !Prime(n)
  {
  }

  /** The numbers of slots of the levels of a dictionary. */
  method SlotSizes(initial: nat, levels: nat) returns (sizes: seq<nat>)
    requires initial > 0 && levels > 0
    ensures |sizes| == levels && sizes[0] == initial
    ensures forall i :: 0 < i < levels ==> Prime(sizes[i]) && sizes[i] > 2 * sizes[i - 1]
  {
    sizes := [initial];
    for i := 1 to levels
      invariant |sizes| == i && sizes[0] == initial && sizes[i - 1] > 0
      invariant forall k :: 0 < k < i ==> Prime(sizes[k]) && sizes[k] > 2 * sizes[k - 1]
    {
      var size := NextSize(sizes[i - 1]);
      sizes := sizes + [size];
    }
  }
}
