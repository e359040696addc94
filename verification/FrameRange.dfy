/**
 The register ranges of a copy-on-write frame. Registers 0..65534 are the nodes of a perfect
 binary search tree; the search for a register halves the range [0, 65535) until the middle
 of the range is the register.
 */
module FrameRange {

  /** The end of the root range: the 16-bit register id with all bits set. */
  const REGISTERS: nat := 0xFFFF

  /** The number of registers in a perfect subtree of height `h`, that is 2^h - 1. */
  function Width(h: nat): nat {
    if h == 0 then 0 else 2 * Width(h - 1) + 1
  }

  const HEIGHT: nat := 16

  lemma RootWidth()
    ensures Width(HEIGHT) == REGISTERS
  {
    assert Width(4) == 15;
    assert Width(8) == 255;
    assert Width(12) == 4095;
  }

  function Middle(l: nat, r: nat): nat {
    (l + r) / 2
  }

  /** The range that the search for `t` has narrowed down to after `i` steps. */
  function Range(t: nat, i: nat): (nat, nat) {
    if i == 0 then (0, REGISTERS)
    else
      var (l, r) := Range(t, i - 1);
      var mid := Middle(l, r);
      if t < mid then (l, mid) else if mid < t then (mid + 1, r) else (l, r)
  }

  function Mid(t: nat, i: nat): nat {
    Middle(Range(t, i).0, Range(t, i).1)
  }

  /** The search for `t` has not ended before step `i`. */
  predicate OnTheWay(t: nat, i: nat) {
    t < REGISTERS && forall j :: 0 <= j < i ==> Mid(t, j) != t
  }

  /** The range [l, r) is a perfect subtree of height `h`. */
  predicate Perfect(l: nat, r: nat, h: nat) {
    h > 0 && r == l + Width(h) && l % 2 == 0
  }

  /** Both halves of a perfect range are perfect; the middle is odd exactly if there are halves. */
  lemma HalvesArePerfect(l: nat, r: nat, h: nat)
    requires Perfect(l, r, h)
    ensures Middle(l, r) == l + Width(h - 1) && l <= Middle(l, r) < r
    ensures Middle(l, r) % 2 == 1 <==> h > 1
    ensures r - l == 1 <==> h == 1
    ensures r - l > 1 <==> h > 1
    ensures r - l == 3 <==> h == 2
    ensures h > 1 ==> Perfect(l, Middle(l, r), h - 1) && Perfect(Middle(l, r) + 1, r, h - 1)
  {
  }

  /** Every range that a search visits is a perfect subtree around the register, of height 16 - i. */
  lemma {:induction false} RangesArePerfect(t: nat, i: nat)
    requires OnTheWay(t, i)
    ensures i < HEIGHT
    ensures Perfect(Range(t, i).0, Range(t, i).1, HEIGHT - i)
    ensures Range(t, i).0 <= t < Range(t, i).1
  {
    if i == 0 {
      RootWidth();
    } else {
      RangesArePerfect(t, i - 1);
      var (l, r) := Range(t, i - 1);
      HalvesArePerfect(l, r, HEIGHT - (i - 1));
      assert Mid(t, i - 1) != t;
    }
  }

  /** The step at which the search for `t` ends. */
  function Depth(t: nat): (d: nat)
    requires t < REGISTERS
    ensures OnTheWay(t, d) && Mid(t, d) == t && d < HEIGHT
  {
    DepthFrom(t, 0)
  }

  function DepthFrom(t: nat, i: nat): (d: nat)
    requires OnTheWay(t, i)
    ensures OnTheWay(t, d) && Mid(t, d) == t && d < HEIGHT
    decreases HEIGHT - i
  {
    RangesArePerfect(t, i);
    if Mid(t, i) == t then i else
      assert OnTheWay(t, i + 1);
      RangesArePerfect(t, i + 1);
      DepthFrom(t, i + 1)
  }

  lemma DepthIsUnique(t: nat, i: nat)
    requires OnTheWay(t, i) && Mid(t, i) == t
    ensures i == Depth(t)
  {
  }

  /** One step of a search: what the tests on the range mean, and the next range. */
  lemma RangeStep(t: nat, i: nat)
    requires OnTheWay(t, i)
    ensures i < HEIGHT
    ensures var (l, r) := Range(t, i);
            var mid := Middle(l, r);
            && Perfect(l, r, HEIGHT - i)
            && mid == Mid(t, i)
            && (mid % 2 == 1 <==> HEIGHT - i > 1)
            && (r - l == 1 <==> HEIGHT - i == 1) && (r - l == 3 <==> HEIGHT - i == 2)
            && (mid != t ==>
                  && OnTheWay(t, i + 1) && i + 1 < HEIGHT
                  && Range(t, i + 1) == if t < mid then (l, mid) else (mid + 1, r))
  {
    RangesArePerfect(t, i);
    HalvesArePerfect(Range(t, i).0, Range(t, i).1, HEIGHT - i);
    if Mid(t, i) != t {
      StayOnTheWay(t, i);
      RangesArePerfect(t, i + 1);
    }
  }

  lemma StayOnTheWay(t: nat, i: nat)
    requires OnTheWay(t, i) && Mid(t, i) != t
    ensures OnTheWay(t, i + 1)
  {
  }
}
