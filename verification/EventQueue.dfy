/**
 One event queue between a module thread (the producer) and the scheduler (the consumer): a
 ring buffer with free-running 32-bit counters, and a condition variable on which a producer
 waits while the queue is full. The two threads are interleaved step by step; a step is one
 access to shared memory or one call to a mutex or condition variable.
 */
module EventQueue {
  import opened Remainders
  import opened PowersOfTwo

  datatype Event = IoEvent(inPipe: nat, outPipe: nat) | TaskEvent(loop: nat, task: nat)

  // ----- The size of a queue -----

  ghost predicate IsPow2(n: nat) {
    exists e: nat :: Pow2(e) == n
  }

  /** The queue size for a requested size, in 32-bit arithmetic. */
  method QueueSize(size: nat) returns (q: nat)
    requires 0 < size < WORD
    ensures size <= 0x8000_0000 ==> IsPow2(q) && WORD % q == 0 && size <= q < 2 * size && q <= 0x8000_0000
    ensures size <= 0x8000_0000 ==> exists e: nat :: q == Pow2(e)
    ensures size > 0x8000_0000 ==> q == 0
  {
    hide Pow2, Brackets, Double, IsPow2;
    q := 1;
    var tmp := size;
    ghost var e: nat := 0;
    Pow2Step(0);
    BracketsAtOne(1, size);
    while tmp > 1
      invariant 0 < tmp && q == Pow2(e) && Brackets(q, tmp, size)
    {
      Halve(q, tmp, size);
      NextPower(e);
      tmp := tmp / 2;
      q := Double(q);
      e := e + 1;
    }
    BracketsAtOne(q, size);
    LastDoubling(e, size);
    if q < size {
      q := Double(q);
    }
  }

  /** A shift to the left by one. */
  function Double(q: nat): nat {
    q * 2 % WORD
  }

  lemma NextPower(e: nat)
    requires Pow2(e) * 2 < WORD
    ensures Double(Pow2(e)) == Pow2(e) * 2 == Pow2(e + 1)
  {
  }

  lemma LastDoubling(e: nat, size: nat)
    requires Pow2(e) <= size < 2 * Pow2(e) && size < WORD
    ensures IsPow2(Pow2(e)) && WORD % Pow2(e) == 0 && Pow2(e) <= 0x8000_0000
    ensures size <= 0x8000_0000 && Pow2(e) < size ==>
              Double(Pow2(e)) == 2 * Pow2(e) <= 0x8000_0000 && IsPow2(Double(Pow2(e))) && WORD % Double(Pow2(e)) == 0
    ensures size > 0x8000_0000 ==> Pow2(e) < size && Double(Pow2(e)) == 0
  {
    Pow2Bound(e);
    Pow2Bound(e + 1);
    assert Pow2(e + 1) == 2 * Pow2(e);
  }

  lemma Pow2Step(e: nat)
    ensures Pow2(0) == 1 && Pow2(e + 1) == 2 * Pow2(e)
  {
  }

  /** `tmp` is the quotient of `size` by `q`. */
  predicate Brackets(q: nat, tmp: nat, size: nat) {
    q * tmp <= size < q * (tmp + 1)
  }

  lemma BracketsAtOne(q: nat, size: nat)
    ensures Brackets(q, 1, size) <==> q <= size < 2 * q
    ensures Brackets(1, size, size)
  {
  }

  lemma Halve(q: nat, tmp: nat, size: nat)
    requires 1 < tmp && Brackets(q, tmp, size) && size < WORD
    ensures Brackets(q * 2, tmp / 2, size) && q * 2 < WORD
  {
    var half := tmp / 2;
    assert tmp == 2 * half || tmp == 2 * half + 1;
    assert q * 2 * half == q * (2 * half);
    assert q * 2 * (half + 1) == q * (2 * half) + 2 * q;
    assert q * (2 * half + 1) == q * (2 * half) + q;
    assert q * (2 * half + 2) == q * (2 * half) + 2 * q;
    assert q * 2 <= q * tmp;
  }

  /** The powers of two below 2^32 divide 2^32, and the largest of them is 2^31. */
  lemma Pow2Bound(e: nat)
    ensures Pow2(e) < WORD ==> WORD % Pow2(e) == 0
    ensures Pow2(e) < WORD ==> Pow2(e) == 0x8000_0000 || 2 * Pow2(e) <= 0x8000_0000
  {
    hide Pow2;
    Pow2Values();
    if e < 32 {
      Pow2Times(e, 32 - e);
      Divides(Pow2(e), Pow2(32 - e));
      if e < 31 {
        Pow2Times(e + 1, 30 - e);
        Pow2Step(e);
        Product(Pow2(e + 1), Pow2(30 - e));
      }
    } else {
      Pow2Times(32, e - 32);
      Product(Pow2(32), Pow2(e - 32));
    }
  }

  lemma Product(a: nat, b: nat)
    requires b > 0
    ensures a <= a * b
  {
  }

  lemma Pow2Values()
    ensures Pow2(31) == 0x8000_0000 && Pow2(32) == WORD
  {
    assert Pow2(8) == 256;
    assert Pow2(16) == 65536;
    assert Pow2(24) == 0x100_0000;
    assert Pow2(31) == 0x8000_0000;
  }

  lemma {:induction false} Pow2Times(a: nat, b: nat)
    ensures Pow2(a) * Pow2(b) == Pow2(a + b)
  {
    if b > 0 {
      Pow2Times(a, b - 1);
      assert Pow2(a) * Pow2(b) == 2 * (Pow2(a) * Pow2(b - 1));
    }
  }

  lemma Divides(n: nat, k: nat)
    requires n > 0
    ensures (n * k) % n == 0
  {
    RemainderOfSum(0, k, n);
  }

  /** A counter reduced to 32 bits. */
  function Wrap(x: int): nat {
    x % WORD
  }

  /** The slot of a counter. */
  function Slot(x: nat, size: nat): (k: nat)
    requires size > 0
    ensures k < size
  {
    x % size
  }

  lemma WrapAdd(x: nat, d: nat)
    ensures Wrap(Wrap(x) + d) == Wrap(x + d)
  {
  }

  lemma WrapZero()
    ensures Wrap(0) == 0
  {
  }

  /** Tests on wrapped counters are exact as long as the counters are less than 2^32 apart. */
  lemma WrapEqual(f: nat, r: nat, d: nat)
    requires f <= r < f + WORD && d < WORD
    ensures Wrap(r) == Wrap(Wrap(f) + d) <==> r == f + d
  {
  }

  lemma WrapMinus(f: nat, r: nat, d: nat)
    requires f + d <= r < f + WORD
    ensures Wrap(Wrap(r) - Wrap(f) - d) == r - f - d
  {
  }

  lemma WrapPlus(f: nat, r: nat, d: nat)
    requires f <= r && r - f + d <= WORD
    ensures Wrap(Wrap(r) - Wrap(f) + d) == if r - f + d < WORD then r - f + d else 0
  {
  }

  /** Reducing a counter to 32 bits first does not change its slot. */
  lemma SlotOfWrapped(x: nat, size: nat)
    requires 0 < size && WORD % size == 0
    ensures Slot(Wrap(x), size) == Slot(x, size)
  {
    var k, m := x / WORD, WORD / size;
    assert WORD == size * m;
    assert x == x % WORD + WORD * k;
    assert WORD * k == size * (m * k);
    RemainderOfSum(x % WORD, m * k, size);
  }

  /** Different counters less than a queue size apart have different slots. */
  lemma SlotsDiffer(k: nat, r: nat, size: nat)
    requires 0 < size && k < r < k + size
    ensures Slot(k, size) != Slot(r, size)
  {
    var d := r / size - k / size;
    assert r - k == size * d + (r % size - k % size);
    if k % size == r % size {
      SmallMultiple(size, d);
      assert false;
    }
  }
}
