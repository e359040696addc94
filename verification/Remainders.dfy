/** Remainders of sums, which the solver does not find by itself. */
module Remainders {
  lemma {:induction false} RemainderOfSum(r: nat, k: nat, n: nat)
    requires n > 0
    ensures (r + n * k) % n == r % n
  {
    if k > 0 {
      RemainderOfSum(r, k - 1, n);
      assert r + n * k == (r + n * (k - 1)) + n;
      AddOne(r + n * (k - 1), n);
    }
  }

  lemma AddOne(x: nat, n: nat)
    requires n > 0
    ensures (x + n) % n == x % n
  {
    var d := (x + n) / n - x / n - 1;
    assert n * d == x % n - (x + n) % n;
    SmallMultiple(n, d);
  }

  lemma SmallMultiple(n: int, d: int)
    requires n > 0 && -n < n * d < n
    ensures d == 0
  {
  }

  lemma AddRemainder(x: nat, y: nat, n: nat)
    requires n > 0
    ensures (x % n + y) % n == (x + y) % n
  {
    assert x + y == x % n + y + n * (x / n);
    RemainderOfSum(x % n + y, x / n, n);
  }

  /** Going on to the next multiple of `n`. */
  lemma FillUp(x: nat, y: nat, n: nat)
    requires n > 0 && x % n == 0
    ensures (x + y + (n - y % n) % n) % n == 0
  {
    var gap := (n - y % n) % n;
    AddRemainder(x, y + gap, n);
    AddRemainder(y, gap, n);
    UpToMultiple(y % n, n);
    assert x + (y + gap) == x + y + gap;
  }

  lemma UpToMultiple(r: nat, n: nat)
    requires r < n
    ensures (r + (n - r) % n) % n == 0
  {
  }
}
