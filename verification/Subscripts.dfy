/** Row-major subscripts: where the part of an array picked by some leading subscripts starts. */
module Subscripts {
  import opened ProtoType

  ghost predicate InBounds(dims: seq<nat>, index: seq<nat>) {
    |index| <= |dims| && forall k :: 0 <= k < |index| ==> index[k] < dims[k]
  }

  /** The number of elements before the picked part, which is itself preceded by `before` whole arrays. */
  function ElementsBefore(before: nat, dims: seq<nat>, index: seq<nat>): nat
    requires |index| <= |dims|
    decreases |index|
  {
    if |index| == 0 then before * Product(dims)
    else ElementsBefore(Next(before, dims[0], index[0]), dims[1..], index[1..])
  }

  function Next(before: nat, d: nat, i: nat): nat {
    before * d + i
  }

  lemma ProductSplit(dims: seq<nat>, x: nat)
    requires |dims| > 0
    ensures x * Product(dims) == (x * dims[0]) * Product(dims[1..])
  {
    Associate(x, dims[0], Product(dims[1..]));
  }

  lemma Associate(x: nat, y: nat, z: nat)
    ensures x * (y * z) == (x * y) * z
  {
  }

  lemma Grows(x: nat, y: nat, p: nat)
    requires x <= y
    ensures x * p <= y * p
  {
  }

  lemma OneStep(before: nat, d: nat, i: nat)
    requires i < d
    ensures before * d <= before * d + i && before * d + i + 1 <= (before + 1) * d
  {
  }

  /** The picked part lies inside the array. */
  lemma {:induction false} PartInside(before: nat, dims: seq<nat>, index: seq<nat>)
    requires InBounds(dims, index)
    ensures before * Product(dims) <= ElementsBefore(before, dims, index)
    ensures ElementsBefore(before, dims, index) + Product(dims[|index|..]) <= (before + 1) * Product(dims)
    decreases |index|
  {
    if |index| == 0 {
      assert dims[0..] == dims;
    } else {
      var next, p := before * dims[0] + index[0], Product(dims[1..]);
      PartInside(next, dims[1..], index[1..]);
      assert dims[1..][|index[1..]|..] == dims[|index|..];
      OneStep(before, dims[0], index[0]);
      ProductSplit(dims, before);
      ProductSplit(dims, before + 1);
      Grows(before * dims[0], next, p);
      Grows(next + 1, (before + 1) * dims[0], p);
    }
  }

  ghost predicate Apart(x: nat, y: nat, size: nat) {
    x + size <= y || y + size <= x
  }

  /** Different subscripts of the same length pick parts that do not overlap. */
  lemma {:induction false} PartsApart(before: nat, dims: seq<nat>, one: seq<nat>, other: seq<nat>)
    requires InBounds(dims, one) && InBounds(dims, other) && |one| == |other| && one != other
    ensures Apart(ElementsBefore(before, dims, one), ElementsBefore(before, dims, other), Product(dims[|one|..]))
    decreases |one|
  {
    if one[0] == other[0] {
      assert one == [one[0]] + one[1..] && other == [other[0]] + other[1..];
      assert dims[1..][|one[1..]|..] == dims[|one|..];
      PartsApart(before * dims[0] + one[0], dims[1..], one[1..], other[1..]);
    } else if one[0] < other[0] {
      FirstSmaller(before, dims, one, other);
    } else {
      FirstSmaller(before, dims, other, one);
    }
  }

  lemma FirstSmaller(before: nat, dims: seq<nat>, one: seq<nat>, other: seq<nat>)
    requires InBounds(dims, one) && InBounds(dims, other) && |one| == |other| > 0 && one[0] < other[0]
    ensures ElementsBefore(before, dims, one) + Product(dims[|one|..]) <= ElementsBefore(before, dims, other)
  {
    hide Product, ElementsBefore, Next;
    OneSubscript(before, dims, one);
    OneSubscript(before, dims, other);
    assert dims[1..][|one[1..]|..] == dims[|one|..];
    NextGrows(before, dims[0], one[0], other[0]);
    PartAfter(Next(before, dims[0], one[0]), Next(before, dims[0], other[0]), dims[1..], one[1..], other[1..]);
  }

  lemma NextGrows(before: nat, d: nat, i: nat, j: nat)
    requires i < j
    ensures Next(before, d, i) < Next(before, d, j)
  {
  }

  /** A part of one array ends before a part of a later array starts. */
  lemma PartAfter(x: nat, y: nat, dims: seq<nat>, one: seq<nat>, other: seq<nat>)
    requires x < y && InBounds(dims, one) && InBounds(dims, other)
    ensures ElementsBefore(x, dims, one) + Product(dims[|one|..]) <= ElementsBefore(y, dims, other)
  {
    hide Product, ElementsBefore;
    PartInside(x, dims, one);
    PartInside(y, dims, other);
    Grows(x + 1, y, Product(dims));
  }

  lemma OneSubscript(before: nat, dims: seq<nat>, index: seq<nat>)
    requires 0 < |index| <= |dims|
    ensures ElementsBefore(before, dims, index) == ElementsBefore(Next(before, dims[0], index[0]), dims[1..], index[1..])
  {
  }

  lemma {:induction false} ProductPositive(dims: seq<nat>)
    requires AllPositive(dims)
    ensures Product(dims) > 0
  {
    if |dims| > 0 {
      ProductPositive(dims[1..]);
    }
  }

  // ----- The strides -----

  lemma Distribute(x: nat, y: nat, p: nat)
    ensures (x + y) * p == x * p + y * p
  {
  }

  /** Whole arrays before an array move all its parts. */
  lemma {:induction false} ArraysBefore(before: nat, dims: seq<nat>, index: seq<nat>)
    requires |index| <= |dims|
    ensures ElementsBefore(before, dims, index) == before * Product(dims) + ElementsBefore(0, dims, index)
    decreases |index|
  {
    if |index| > 0 {
      var p := Product(dims[1..]);
      ArraysBefore(Next(before, dims[0], index[0]), dims[1..], index[1..]);
      ArraysBefore(Next(0, dims[0], index[0]), dims[1..], index[1..]);
      ProductSplit(dims, before);
      Distribute(before * dims[0], index[0], p);
    }
  }

  /** A subscript moves by that many of the parts that it picks from. */
  lemma OneStride(dims: seq<nat>, index: seq<nat>)
    requires |index| <= |dims|
    ensures ElementsBefore(0, dims, index) ==
            if |index| == 0 then 0 else index[0] * Product(dims[1..]) + ElementsBefore(0, dims[1..], index[1..])
  {
    if |index| > 0 {
      ArraysBefore(index[0], dims[1..], index[1..]);
    }
  }

  /** Picking a part of a part. */
  lemma {:induction false} StridesConcat(dims: seq<nat>, one: seq<nat>, other: seq<nat>)
    requires |one + other| <= |dims|
    ensures ElementsBefore(0, dims, one + other) == ElementsBefore(0, dims, one) + ElementsBefore(0, dims[|one|..], other)
    decreases |one|
  {
    hide ElementsBefore, Product;
    OneStride(dims, one + other);
    OneStride(dims, one);
    if |one| == 0 {
      assert one + other == other && dims[0..] == dims;
    } else {
      assert (one + other)[1..] == one[1..] + other && dims[1..][|one[1..]|..] == dims[|one|..];
      StridesConcat(dims[1..], one[1..], other);
    }
  }
}
