/**
 A set of small numbers kept as bits of 64-bit words: bit `n % 64` of word `n / 64`.
 */
module Bitmap {
  import opened FiniteSets

  function WordCount(n: nat): nat {
    (n + 63) / 64
  }

  /** A shift distance put together from its binary digits. */
  function FromBits(b0: bool, b1: bool, b2: bool, b3: bool, b4: bool, b5: bool): bv6 {
    (if b0 then 1 else 0) | (if b1 then 2 else 0) | (if b2 then 4 else 0)
    | (if b3 then 8 else 0) | (if b4 then 16 else 0) | (if b5 then 32 else 0)
  }

  /** A number below 64 as a shift distance. */
  function Distance(k: nat): bv6
    requires k < 64
  {
    FromBits(k % 2 == 1, k / 2 % 2 == 1, k / 4 % 2 == 1, k / 8 % 2 == 1, k / 16 % 2 == 1, k / 32 == 1)
  }

  /** The number that a shift distance stands for. */
  function Number(d: bv6): nat {
    (if d & 1 != 0 then 1 else 0) + (if d & 2 != 0 then 2 else 0) + (if d & 4 != 0 then 4 else 0)
    + (if d & 8 != 0 then 8 else 0) + (if d & 16 != 0 then 16 else 0) + (if d & 32 != 0 then 32 else 0)
  }

  /** The word with only bit `k` set. */
  function Mask(k: nat): bv64
    requires k < 64
  {
    1 << Distance(k)
  }

  /** Bit `k` of a word is set. */
  predicate BitIn(w: bv64, k: nat)
    requires k < 64
  {
    w & Mask(k) != 0
  }

  /** A word with bit `k` toggled. */
  function Flipped(w: bv64, k: nat): bv64
    requires k < 64
  {
    w ^ Mask(k)
  }

  predicate BitOf(words: seq<bv64>, n: nat)
    requires n < 64 * |words|
  {
    BitIn(words[n / 64], n % 64)
  }

  /** The numbers below `n` whose bit is set. */
  function Bits(words: seq<bv64>, n: nat): set<nat>
    requires |words| == WordCount(n)
  {
    set v | v in Below(n) && BitOf(words, v)
  }

  function SymmetricDifference(a: set<nat>, b: set<nat>): set<nat> {
    (a - b) + (b - a)
  }

  lemma MaskFlipBits(w: bv64, i: bv6, j: bv6)
    ensures (((w ^ (1 << i)) & (1 << j)) != 0) == ((w & (1 << j) != 0) != (i == j))
  {
  }

  lemma NumberOfBits(b0: bool, b1: bool, b2: bool, b3: bool, b4: bool, b5: bool)
    ensures Number(FromBits(b0, b1, b2, b3, b4, b5)) ==
            (if b0 then 1 else 0) + (if b1 then 2 else 0) + (if b2 then 4 else 0)
            + (if b3 then 8 else 0) + (if b4 then 16 else 0) + (if b5 then 32 else 0)
  {
  }

  lemma NumberOfDistance(k: nat)
    requires k < 64
    ensures Number(Distance(k)) == k
  {
    hide Number, FromBits;
    NumberOfBits(k % 2 == 1, k / 2 % 2 == 1, k / 4 % 2 == 1, k / 8 % 2 == 1, k / 16 % 2 == 1, k / 32 == 1);
    BinaryDigits(k);
  }

  lemma BinaryDigits(k: nat)
    requires k < 64
    ensures k == k % 2 + 2 * (k / 2 % 2) + 4 * (k / 4 % 2) + 8 * (k / 8 % 2) + 16 * (k / 16 % 2) + 32 * (k / 32)
    ensures k / 32 < 2
  {
    assert k / 4 == k / 2 / 2 && k / 8 == k / 4 / 2 && k / 16 == k / 8 / 2 && k / 32 == k / 16 / 2;
  }

  lemma FlippedBit(w: bv64, i: nat, j: nat)
    requires i < 64 && j < 64
    ensures BitIn(Flipped(w, i), j) == (BitIn(w, j) != (i == j))
  {
    hide Distance, Number;
    MaskFlipBits(w, Distance(i), Distance(j));
    NumberOfDistance(i);
    NumberOfDistance(j);
  }

  lemma FlipOneBit(before: seq<bv64>, after: seq<bv64>, n: nat, v: nat)
    requires n < 64 * |before| && v < 64 * |before|
    requires after == before[n / 64 := Flipped(before[n / 64], n % 64)]
    ensures BitOf(after, v) == (BitOf(before, v) != (v == n))
  {
    hide BitIn, Flipped;
    if v / 64 == n / 64 {
      assert v == n <==> v % 64 == n % 64;
      FlippedBit(before[n / 64], n % 64, v % 64);
    }
  }

  lemma FlipChangesSet(before: seq<bv64>, after: seq<bv64>, n: nat, size: nat)
    requires |before| == WordCount(size) && n < size
    requires after == before[n / 64 := Flipped(before[n / 64], n % 64)]
    ensures Bits(after, size) == SymmetricDifference(Bits(before, size), {n})
  {
    hide BitOf, Flipped;
    forall v | v in Below(size)
      ensures v in Bits(after, size) <==> v in SymmetricDifference(Bits(before, size), {n})
    {
      FlipOneBit(before, after, n, v);
    }
  }

  lemma MemberIsBit(words: seq<bv64>, size: nat, n: nat)
    requires |words| == WordCount(size) && n < size
    ensures n in Bits(words, size) <==> BitOf(words, n)
  {
    hide BitOf;
  }

  /** Flipping two disjoint sets one after the other flips their union. */
  lemma FlipTwice(a: set<nat>, x: set<nat>, y: set<nat>)
    requires x !! y
    ensures SymmetricDifference(SymmetricDifference(a, x), y) == SymmetricDifference(a, x + y)
  {
  }

  /** A bitmap over the numbers below `size`; `bits` is the set it stands for. */
  class BitSet {
    const size: nat
    const words: array<bv64>
    ghost var bits: set<nat>

    ghost predicate Valid()
      reads this, words
    {
      words.Length == WordCount(size) && bits == Bits(words[..], size)
    }

    constructor (size: nat)
      ensures Valid() && fresh(words) && this.size == size && bits == {}
    {
      this.size := size;
      words := new bv64[WordCount(size)](i => 0);
      bits := {};
    }

    method Get(n: nat) returns (b: bool)
      requires Valid() && n < size
      ensures b <==> n in bits
    {
      hide BitIn;
      b := BitIn(words[n / 64], n % 64);
      assert words[..][n / 64] == words[n / 64];
      MemberIsBit(words[..], size, n);
    }

    /** Toggle the membership of `n` and of no other number. */
    method Flip(n: nat)
      requires Valid() && n < size
      modifies this, words
      ensures Valid() && bits == SymmetricDifference(old(bits), {n})
    {
      hide Bits, Flipped;
      var flipped := Flipped(words[n / 64], n % 64);
      FlipChangesSet(words[..], words[..][n / 64 := flipped], n, size);
      words[n / 64] := flipped;
      assert words[..] == old(words[..])[n / 64 := flipped];
      bits := SymmetricDifference(bits, {n});
    }

    /** memset to zero. */
    method Clear()
      requires Valid()
      modifies this, words
      ensures Valid() && bits == {}
    {
      for i := 0 to words.Length
        invariant forall j :: 0 <= j < i ==> words[j] == 0
        modifies words
      {
        words[i] := 0;
      }
      bits := {};
    }
  }
}
