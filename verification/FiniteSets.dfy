/** Facts about finite sets of numbers that several models need. */
module FiniteSets {

  /** The numbers below `n`. */
  function Below(n: nat): (s: set<nat>)
    ensures forall v: nat :: v in s <==> v < n
    ensures |s| == n
  {
    if n == 0 then {} else Below(n - 1) + {n - 1}
  }

  lemma SubsetSize<T>(s: set<T>, t: set<T>)
    requires s <= t
    ensures |s| <= |t|
  {
    assert t == s + (t - s);
  }

  /** Sets that agree but for `x` differ in size by one at most. */
  lemma DifferInOne<T>(s: set<T>, t: set<T>, x: T)
    requires s - {x} == t - {x}
    ensures |t| == |s| - (if x in s then 1 else 0) + if x in t then 1 else 0
  {
    var others := s - {x};
    assert s == if x in s then others + {x} else others;
    assert t == if x in t then others + {x} else others;
  }

  /** A set with at most one element does not hold two different ones. */
  lemma AtMostOne(s: set<nat>, x: nat, y: nat)
    requires x in s && y in s && |s| <= 1
    ensures x == y
  {
    assert |s - {x}| == |s| - 1;
    assert y !in s - {x};
  }

  /** There is always a positive number outside a finite set. */
  lemma FreshNumber(s: set<nat>) returns (n: nat)
    ensures n > 0 && n !in s
  {
    var candidates := Below(|s| + 2) - {0};
    if candidates <= s {
      SubsetSize(candidates, s);
      assert false;
    }
    n :| n in candidates && n !in s;
  }
}
