/** Numbers as lists of digits, lowest digit first. */
module PositionalNumbers {
  import opened Remainders

  function Pow(b: nat, k: nat): nat {
    if k == 0 then 1 else b * Pow(b, k - 1)
  }

  /** The number that a list of digits stands for. */
  function Num(b: nat, digits: seq<nat>): nat {
    if |digits| == 0 then 0 else digits[0] + b * Num(b, digits[1..])
  }

  /** The lowest `k` digits of a number. */
  function Digits(b: nat, v: nat, k: nat): (digits: seq<nat>)
    requires b > 0
    ensures |digits| == k
    decreases k
  {
    if k == 0 then [] else [v % b] + Digits(b, v / b, k - 1)
  }

  ghost predicate InBase(b: nat, digits: seq<nat>) {
    forall i :: 0 <= i < |digits| ==> digits[i] < b
  }

  lemma Lowest(b: nat, d: nat, rest: nat)
    requires d < b
    ensures (d + b * rest) % b == d && (d + b * rest) / b == rest
  {
    var v := d + b * rest;
    var q := v / b - rest;
    assert b * q == d - v % b;
    SmallMultiple(b, q);
  }

  lemma {:induction false} DigitsOfNum(b: nat, digits: seq<nat>)
    requires b > 0 && InBase(b, digits)
    ensures Digits(b, Num(b, digits), |digits|) == digits
    decreases |digits|
  {
    if |digits| > 0 {
      Lowest(b, digits[0], Num(b, digits[1..]));
      DigitsOfNum(b, digits[1..]);
    }
  }

  lemma NumFirst(b: nat, d: nat, rest: seq<nat>)
    ensures Num(b, [d] + rest) == d + b * Num(b, rest)
  {
    assert ([d] + rest)[1..] == rest;
  }

  lemma PowNext(b: nat, k: nat)
    ensures Pow(b, k + 1) == b * Pow(b, k)
  {
  }

  lemma Recompose(b: nat, v: nat)
    requires b > 0
    ensures v % b + b * (v / b) == v
  {
  }

  lemma {:induction false} NumOfDigits(b: nat, v: nat, k: nat)
    requires b > 0 && v < Pow(b, k)
    ensures Num(b, Digits(b, v, k)) == v
    decreases k
  {
    if k > 0 {
      hide Num, Digits, Pow;
      PowNext(b, k - 1);
      QuotientBound(b, v, Pow(b, k - 1));
      NumOfDigits(b, v / b, k - 1);
      FirstDigit(b, v, k);
      NumFirst(b, v % b, Digits(b, v / b, k - 1));
      Recompose(b, v);
    }
  }

  lemma QuotientBound(b: nat, v: nat, p: nat)
    requires b > 0 && v < b * p
    ensures v / b < p
  {
  }

  lemma Scale(x: nat, y: nat, b: nat)
    requires x <= y
    ensures x * b <= y * b
  {
  }

  lemma {:induction false} NumBound(b: nat, digits: seq<nat>)
    requires b > 0 && InBase(b, digits)
    ensures Num(b, digits) < Pow(b, |digits|)
    decreases |digits|
  {
    if |digits| > 0 {
      NumBound(b, digits[1..]);
      Scale(Num(b, digits[1..]) + 1, Pow(b, |digits| - 1), b);
    }
  }

  /** The digits of a number made of two parts. */
  lemma {:induction false} DigitsSplit(b: nat, low: nat, high: nat, k: nat, m: nat)
    requires b > 0 && low < Pow(b, k)
    ensures Digits(b, low + Pow(b, k) * high, k + m) == Digits(b, low, k) + Digits(b, high, m)
    decreases k
  {
    hide Digits;
    var v := low + Pow(b, k) * high;
    if k == 0 {
      assert Digits(b, low, 0) == [];
    } else {
      var p := Pow(b, k - 1);
      QuotientBound(b, low, p);
      Regroup(b, low, p, high);
      Lowest(b, low % b, low / b + p * high);
      DigitsSplit(b, low / b, high, k - 1, m);
      FirstDigit(b, v, k + m);
      FirstDigit(b, low, k);
    }
  }

  lemma FirstDigit(b: nat, v: nat, k: nat)
    requires b > 0 && k > 0
    ensures Digits(b, v, k) == [v % b] + Digits(b, v / b, k - 1)
  {
  }

  lemma Regroup(b: nat, low: nat, p: nat, high: nat)
    requires b > 0
    ensures low + (b * p) * high == low % b + b * (low / b + p * high)
  {
  }

  lemma {:induction false} DigitsInBase(b: nat, v: nat, k: nat)
    requires b > 0
    ensures InBase(b, Digits(b, v, k))
    decreases k
  {
    if k > 0 {
      DigitsInBase(b, v / b, k - 1);
    }
  }

  lemma Distribute(b: nat, d: nat, x: nat, p: nat, y: nat)
    ensures d + b * (x + p * y) == (d + b * x) + (b * p) * y
  {
    assert (b * p) * y == b * (p * y);
  }

  lemma {:induction false} NumSplit(b: nat, low: seq<nat>, high: seq<nat>)
    ensures Num(b, low + high) == Num(b, low) + Pow(b, |low|) * Num(b, high)
    decreases |low|
  {
    if |low| == 0 {
      assert low + high == high;
    } else {
      hide Num, Pow;
      var rest := low[1..];
      NumSplit(b, rest, high);
      assert low == [low[0]] + rest && low + high == [low[0]] + (rest + high);
      NumFirst(b, low[0], rest);
      NumFirst(b, low[0], rest + high);
      PowNext(b, |rest|);
      Distribute(b, low[0], Num(b, rest), Pow(b, |rest|), Num(b, high));
    }
  }
}
