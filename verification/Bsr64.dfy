/**
 The 64-character text form of binary data: six bits per character, lowest bits first. Both
 directions only change the base in which one number is written.
 */
module Bsr64 {
  import opened PositionalNumbers
  import opened PowersOfTwo

  /** The alphabet: capital letters, small letters, digits, plus and minus. */
  function ValueChar(v: nat): char
    requires v < 64
  {
    if v < 26 then 'A' + v as char
    else if v < 52 then 'a' + (v - 26) as char
    else if v < 62 then '0' + (v - 52) as char
    else if v == 62 then '+'
    else '-'
  }

  /** The value of a character, 64 if it has none. */
  function CharValue(c: char): (v: nat)
    ensures v <= 64
  {
    if 'A' <= c <= 'Z' then c as int - 'A' as int
    else if 'a' <= c <= 'z' then c as int - 'a' as int + 26
    else if '0' <= c <= '9' then c as int - '0' as int + 52
    else if c == '+' then 62
    else if c == '-' then 63
    else 64
  }

  lemma ValueOfChar(v: nat)
    requires v < 64
    ensures CharValue(ValueChar(v)) == v
  {
  }

  function Text(digits: seq<nat>): (text: string)
    requires InBase(64, digits)
    ensures |text| == |digits|
  {
    seq(|digits|, i requires 0 <= i < |digits| => ValueChar(digits[i]))
  }

  /** The number of characters for `n` bytes. */
  function Chars(n: nat): nat {
    (8 * n + 5) / 6
  }

  /** The text of binary data: its number, written in base 64. */
  function Encode(bin: seq<nat>): (digits: seq<nat>)
    ensures InBase(64, digits)
  {
    DigitsInBase(64, Num(256, bin), Chars(|bin|));
    Digits(64, Num(256, bin), Chars(|bin|))
  }

  /** Binary data from base-64 digits: their number, written in base 256, without incomplete bytes. */
  function Decode(digits: seq<nat>): seq<nat> {
    Digits(256, Num(64, digits), 6 * |digits| / 8)
  }

  // ----- The round trip -----

  lemma {:induction false} PowersGrow(n: nat)
    ensures Pow(256, n) <= Pow(64, Chars(n))
  {
    if n == 1 {
      assert Pow(256, 1) == 256 * Pow(256, 0) && Pow(64, 2) == 64 * Pow(64, 1) && Pow(64, 1) == 64 * Pow(64, 0);
    } else if n == 2 {
      assert Pow(256, 2) == 256 * Pow(256, 1) && Pow(256, 1) == 256 * Pow(256, 0);
      assert Pow(64, 3) == 64 * Pow(64, 2) && Pow(64, 2) == 64 * Pow(64, 1) && Pow(64, 1) == 64 * Pow(64, 0);
    } else if n >= 3 {
      PowersGrow(n - 3);
      Pow4(64, Chars(n) - 4);
      Pow3(256, n - 3);
    }
  }

  lemma Pow3(b: nat, k: nat)
    ensures Pow(b, k + 3) == b * (b * (b * Pow(b, k)))
  {
    assert Pow(b, k + 2) == b * Pow(b, k + 1);
  }

  lemma Pow4(b: nat, k: nat)
    ensures Pow(b, k + 4) == b * (b * (b * (b * Pow(b, k))))
  {
    Pow3(b, k);
  }

  /** Decoding the digits of binary data gives the data back. */
  lemma DecodeEncode(bin: seq<nat>)
    requires InBase(256, bin)
    ensures Decode(Encode(bin)) == bin
  {
    NumBound(256, bin);
    PowersGrow(|bin|);
    NumOfDigits(64, Num(256, bin), Chars(|bin|));
    DigitsOfNum(256, bin);
  }

  // ----- The encoder -----

  lemma TextMore(digits: seq<nat>, d: nat)
    requires InBase(64, digits) && d < 64
    ensures InBase(64, digits + [d]) && Text(digits + [d]) == Text(digits) + [ValueChar(d)]
  {
  }

  lemma TextJoined(one: seq<nat>, other: seq<nat>)
    requires InBase(64, one) && InBase(64, other)
    ensures InBase(64, one + other) && Text(one + other) == Text(one) + Text(other)
  {
  }

  lemma NoText()
    ensures InBase(64, []) && Text([]) == ""
  {
  }

  /** The lowest `k` digits of a number as text. */
  function Written(v: nat, k: nat): string {
    DigitsInBase(64, v, k);
    Text(Digits(64, v, k))
  }

  /** Six bytes are exactly eight characters, whatever follows. */
  lemma SixBytes(bin: seq<nat>)
    requires InBase(256, bin) && |bin| >= 6
    ensures Num(256, bin[..6]) < Pow(64, 8)
    ensures Encode(bin) == Digits(64, Num(256, bin[..6]), 8) + Encode(bin[6..])
  {
    NumBound(256, bin[..6]);
    Pow3(256, 3);
    Pow3(256, 0);
    Pow4(64, 4);
    Pow4(64, 0);
    assert Pow(256, 6) == 0x1_0000_0000_0000 == Pow(64, 8);
    assert bin == bin[..6] + bin[6..];
    NumSplit(256, bin[..6], bin[6..]);
    DigitsSplit(64, Num(256, bin[..6]), Num(256, bin[6..]), 8, Chars(|bin| - 6));
  }

  lemma SixBytesText(bin: seq<nat>)
    requires InBase(256, bin) && |bin| >= 6
    ensures Text(Encode(bin)) == Written(Num(256, bin[..6]), 8) + Text(Encode(bin[6..]))
  {
    hide Digits, Num, Encode, Text;
    SixBytes(bin);
    DigitsInBase(64, Num(256, bin[..6]), 8);
    TextJoined(Digits(64, Num(256, bin[..6]), 8), Encode(bin[6..]));
  }

  /** What becomes of an encoding: the text, a refusal, or writing past the end of the buffer. */
  datatype Encoding = Encoded(text: string) | TooSmall | Overrun

  /** The blocks of 48 bits that are written at once. */
  function Blocks(n: nat): nat {
    if n < 8 then 0 else 1 + Blocks(n - 6)
  }

  /**
   The text of binary data: blocks of 48 bits first, then bit by bit. The room in the buffer is only
   counted for the blocks.
   */
  method FromBin(bin: seq<nat>, capacity: nat) returns (r: Encoding)
    requires InBase(256, bin)
    ensures r == if capacity > Chars(|bin|) then Encoded(Text(Encode(bin)))
                 else if capacity <= 8 * Blocks(|bin|) then TooSmall
                 else Overrun
  {
    hide Num, Digits, Text, Encode, Written;
    var text := "";
    var begin, room := 0, capacity;
    assert bin[0..] == bin;
    BlocksFit(|bin|);
    while |bin| - begin >= 8 && room > 0
      invariant 0 <= begin <= |bin| && 0 <= room
      invariant room > 0 ==> text + Text(Encode(bin[begin..])) == Text(Encode(bin))
      invariant room > 0 ==> Chars(|bin|) - Chars(|bin| - begin) == capacity - room == 8 * (Blocks(|bin|) - Blocks(|bin| - begin))
      invariant room == 0 ==> capacity <= 8 * Blocks(|bin|)
    {
      SixBytes(bin[begin..]);
      SixBytesText(bin[begin..]);
      assert bin[begin..][..6] == bin[begin..begin + 6] && bin[begin..][6..] == bin[begin + 6..];
      text, room := Block(bin[begin..begin + 6], text, room);
      begin := begin + 6;
    }
    if room == 0 {
      return TooSmall;
    }
    text := Tail(bin[begin..], text);
    TextSize(bin);
    r := if |text| < capacity then Encoded(text) else Overrun;
  }

  lemma TextSize(bin: seq<nat>)
    ensures |Text(Encode(bin))| == Chars(|bin|)
  {
  }

  /** Blocks are taken while eight bytes or more are left, and take six of them. */
  lemma {:induction false} BlocksAre(n: nat)
    ensures Blocks(n) == if n < 8 then 0 else (n - 2) / 6
  {
    if n >= 8 {
      BlocksAre(n - 6);
    }
  }

  lemma BlocksFit(n: nat)
    ensures 8 * Blocks(n) <= Chars(n)
  {
  }

  lemma BlockStep(x: nat, k: nat)
    requires x < Pow(64, k)
    ensures k == 0 <==> 0xffff * Pow(64, k) + x == 0xffff
    ensures k > 0 ==>
              var v := 0xffff * Pow(64, k) + x;
              && v % 64 == x % 64 && v / 64 == 0xffff * Pow(64, k - 1) + x / 64
              && x / 64 < Pow(64, k - 1)
  {
  }

  /** One block of 48 bits, marked by 16 set bits above it. */
  method Block(bin: seq<nat>, text: string, room: nat) returns (more: string, left: nat)
    requires |bin| == 6 && InBase(256, bin) && Num(256, bin) < Pow(64, 8)
    ensures left == if room >= 8 then room - 8 else 0
    ensures room >= 8 ==> more == text + Written(Num(256, bin), 8)
  {
    hide Pow, Num, Digits, InBase, Text, ValueChar;
    var v48 := 0xffff * 0x1_0000_0000_0000 + Num(256, bin);
    more, left := text, room;
    ghost var all: seq<nat>, k: nat, x: nat := [], 8, Num(256, bin);
    assert Pow(64, 8) == 0x1_0000_0000_0000 by { Pow64(); }
    NoText();
    while v48 != 0xffff && left > 0
      invariant x < Pow(64, k) && v48 == 0xffff * Pow(64, k) + x && k <= 8 && left == room - (8 - k)
      invariant InBase(64, all) && more == text + Text(all)
      invariant all + Digits(64, x, k) == Digits(64, Num(256, bin), 8)
      decreases k
    {
      BlockStep(x, k);
      TextMore(all, x % 64);
      FirstDigit(64, x, k);
      assert all + ([x % 64] + Digits(64, x / 64, k - 1)) == (all + [x % 64]) + Digits(64, x / 64, k - 1);
      more := more + [ValueChar(v48 % 64)];
      all := all + [x % 64];
      v48, left := v48 / 64, left - 1;
      x, k := x / 64, k - 1;
    }
    BlockStep(x, k);
    assert all + [] == all;
  }

  lemma Pow64()
    ensures Pow(64, 8) == 0x1_0000_0000_0000
  {
  }

  // ----- The bits after the last block -----

  lemma Pow2Table()
    ensures Pow2(0) == 1 && Pow2(2) == 4 && Pow2(4) == 16 && Pow2(6) == 64 && Pow2(8) == 256
  {
  }

  /** The number made of the `rem` bits left in a byte and of what follows the byte. */
  function RestOf(byte: nat, rem: nat, after: nat): nat
    requires rem <= 8
  {
    Over(byte, Pow2(8 - rem)) + Pow2(rem) * after
  }

  /** What is still to be written: the bits collected, the rest of the current byte, the bytes after it. */
  function Pending(val: nat, collected: nat, bin: seq<nat>, rem: nat): nat
    requires rem <= 8
  {
    if |bin| == 0 then val
    else val + Pow2(collected) * RestOf(bin[0], rem, Num(256, bin[1..]))
  }

  /** How many bits are still to be written. */
  function PendingBits(collected: nat, bin: seq<nat>, rem: nat): nat {
    if |bin| == 0 then collected else collected + rem + 8 * (|bin| - 1)
  }

  /** The states that the loop goes through: bits still required for a character, bits left in the byte. */
  predicate Phase(required: nat, rem: nat) {
    (required == 6 && rem in {2, 4, 6, 8}) || (required in {2, 4} && rem == 8)
  }

  /** The bits of the current byte that go into the current character. */
  function Chunk(byte: nat, rem: nat, toRead: nat): nat
    requires toRead <= rem <= 8
  {
    byte / Pow2(8 - rem) % Pow2(toRead)
  }

  lemma PendingAtByte(bin: seq<nat>)
    ensures Pending(0, 0, bin, 8) == Num(256, bin)
  {
  }

  lemma Lowest6(b: nat, n: nat)
    ensures (b + 256 * n) % 64 == b % 64 && (b + 256 * n) / 64 == b / 64 + 4 * n
  {
  }

  lemma Lowest4(val: nat, b: nat, n: nat)
    requires val < 4
    ensures (val + 4 * (b + 256 * n)) % 64 == val + 4 * (b % 16) && (val + 4 * (b + 256 * n)) / 64 == b / 16 + 16 * n
  {
  }

  lemma Lowest2(val: nat, b: nat, n: nat)
    requires val < 16
    ensures (val + 16 * (b + 256 * n)) % 64 == val + 16 * (b % 4) && (val + 16 * (b + 256 * n)) / 64 == b / 4 + 64 * n
  {
  }

  lemma RestValues(b: nat, n: nat)
    ensures RestOf(b, 8, n) == b + 256 * n && RestOf(b, 6, n) == b / 4 + 64 * n
    ensures RestOf(b, 4, n) == b / 16 + 16 * n && RestOf(b, 2, n) == b / 64 + 4 * n
  {
  }

  /** A character is complete: it is the lowest digit of what was pending. */
  lemma CharDone(val: nat, required: nat, bin: seq<nat>, rem: nat)
    requires Phase(required, rem) && required <= rem && |bin| > 0 && bin[0] < 256 && val < Pow2(6 - required)
    ensures var v := Pending(val, 6 - required, bin, rem);
            && val + Chunk(bin[0], rem, required) * Pow2(6 - required) == v % 64
            && v / 64 == if rem > required then Pending(0, 0, bin, rem - required) else Pending(0, 0, bin[1..], 8)
  {
    hide Num, Pow2, RestOf, Chunk;
    Pow2Table();
    PendingAtByte(bin[1..]);
    if required == 6 {
      WholeChar(bin[0], rem, Num(256, bin[1..]));
    } else {
      RestOfChar(val, required, bin[0], Num(256, bin[1..]));
    }
  }

  lemma WholeChar(b: nat, rem: nat, n: nat)
    requires rem in {6, 8} && b < 256
    ensures Chunk(b, rem, 6) == RestOf(b, rem, n) % 64
    ensures RestOf(b, rem, n) / 64 == if rem > 6 then RestOf(b, rem - 6, n) else n
  {
    hide Pow2, RestOf;
    Pow2Table();
    RestValues(b, n);
    if rem == 8 {
      Lowest6(b, n);
    } else {
      Lowest0(b, n);
    }
  }

  lemma RestOfChar(val: nat, required: nat, b: nat, n: nat)
    requires required in {2, 4} && val < Pow2(6 - required)
    ensures var v := val + Pow2(6 - required) * RestOf(b, 8, n);
            && val + Chunk(b, 8, required) * Pow2(6 - required) == v % 64
            && v / 64 == RestOf(b, 8 - required, n)
  {
    hide Pow2, RestOf;
    Pow2Table();
    RestValues(b, n);
    if required == 4 {
      Lowest4(val, b, n);
    } else {
      Lowest2(val, b, n);
    }
  }

  lemma Lowest0(b: nat, n: nat)
    requires b < 256
    ensures (b / 4 + 64 * n) % 64 == b / 4 == b / 4 % 64 && (b / 4 + 64 * n) / 64 == n
  {
  }

  /** A byte is used up without completing a character. */
  lemma ByteDone(bin: seq<nat>, rem: nat)
    requires Phase(6, rem) && 6 > rem && |bin| > 0 && bin[0] < 256
    ensures var next := Chunk(bin[0], rem, rem);
            && next < Pow2(rem)
            && Pending(next, rem, bin[1..], 8) == Pending(0, 0, bin, rem)
  {
    hide Pow2, RestOf;
    Pow2Table();
    RestValues(bin[0], Num(256, bin[1..]));
    if |bin| > 1 {
      RestValues(bin[1], Num(256, bin[1..][1..]));
    }
  }

  /** The characters still to be written. */
  ghost function Remaining(val: nat, required: nat, bin: seq<nat>, rem: nat): seq<nat>
    requires required <= 6 && rem <= 8
  {
    Digits(64, Pending(val, 6 - required, bin, rem), (PendingBits(6 - required, bin, rem) + 5) / 6)
  }

  lemma CharWritten(val: nat, required: nat, bin: seq<nat>, rem: nat)
    requires Phase(required, rem) && required <= rem && |bin| > 0 && bin[0] < 256 && val < Pow2(6 - required)
    ensures var d := val + Chunk(bin[0], rem, required) * Pow2(6 - required);
            && d < 64
            && Remaining(val, required, bin, rem) ==
               [d] + if rem > required then Remaining(0, 6, bin, rem - required) else Remaining(0, 6, bin[1..], 8)
  {
    hide Pow2, Chunk, Pending, Digits;
    CharDone(val, required, bin, rem);
    FirstDigit(64, Pending(val, 6 - required, bin, rem), (PendingBits(6 - required, bin, rem) + 5) / 6);
  }

  lemma ByteUsed(bin: seq<nat>, rem: nat)
    requires Phase(6, rem) && 6 > rem && |bin| > 0 && bin[0] < 256
    ensures var next := Chunk(bin[0], rem, rem);
            next < Pow2(rem) && Remaining(next, 6 - rem, bin[1..], 8) == Remaining(0, 6, bin, rem)
  {
    hide Pow2, Chunk, Pending, Digits;
    ByteDone(bin, rem);
  }

  lemma AllRemains(bin: seq<nat>)
    ensures Remaining(0, 6, bin, 8) == Encode(bin)
  {
    PendingAtByte(bin);
  }

  /** The last, incomplete character. */
  lemma LastChar(val: nat, required: nat)
    requires required in {2, 4, 6} && val < Pow2(6 - required)
    ensures Remaining(val, required, [], 8) == if required == 6 then [] else [val]
    ensures val < 64
  {
    Pow2Table();
  }

  /** The bytes after the last block, collected bit by bit into characters. */
  method Tail(bin: seq<nat>, text: string) returns (more: string)
    requires InBase(256, bin)
    ensures more == text + Text(Encode(bin))
  {
    hide Text, ValueChar, Chunk, Pow2, Remaining, Encode;
    more := text;
    var begin, rem: nat, val: nat, required: nat := 0, 8, 0, 6;
    ghost var all: seq<nat> := [];
    NoText();
    assert bin[0..] == bin;
    AllRemains(bin);
    Pow2Table();
    while begin < |bin|
      invariant 0 <= begin <= |bin| && Phase(required, rem) && val < Pow2(6 - required)
      invariant begin == |bin| ==> rem == 8
      invariant InBase(64, all) && more == text + Text(all)
      invariant all + Remaining(val, required, bin[begin..], rem) == Encode(bin)
      decreases |bin| - begin, rem
    {
      var toRead := if required > rem then rem else required;
      assert bin[begin..][0] == bin[begin] && bin[begin..][1..] == bin[begin + 1..];
      if required > rem {
        ByteUsed(bin[begin..], rem);
      } else {
        CharWritten(val, required, bin[begin..], rem);
      }
      val := val + Chunk(bin[begin], rem, toRead) * Pow2(6 - required);
      rem := rem - toRead;
      required := required - toRead;
      if rem == 0 {
        rem, begin := 8, begin + 1;
      }
      if required == 0 {
        TextMore(all, val);
        more := more + [ValueChar(val)];
        all := all + [val];
        val, required := 0, 6;
      }
    }
    assert bin[begin..] == [];
    LastChar(val, required);
    if required != 6 {
      TextMore(all, val);
      more := more + [ValueChar(val)];
      all := all + [val];
    }
    assert all + [] == all;
  }

  // ----- The decoder -----

  function Values(text: string): (digits: seq<nat>)
    ensures |digits| == |text|
  {
    seq(|text|, i requires 0 <= i < |text| => CharValue(text[i]))
  }

  /** What the decoder has read: complete bytes and `begin` bits of the next one. */
  ghost predicate ReadSoFar(digits: seq<nat>, out: seq<nat>, cur: nat, begin: nat) {
    && 6 * |digits| == 8 * |out| + begin && cur < Pow2(begin) && InBase(256, out)
    && Pow(64, |digits|) == Pow(256, |out|) * Pow2(begin)
    && Num(64, digits) == Num(256, out) + Pow(256, |out|) * cur
  }

  lemma NumMore(b: nat, digits: seq<nat>, d: nat)
    ensures Num(b, digits + [d]) == Num(b, digits) + Pow(b, |digits|) * d
  {
    NumSplit(b, digits, [d]);
    assert [d][1..] == [];
  }

  /** Six more bits. */
  lemma DigitRead(digits: seq<nat>, out: seq<nat>, cur: nat, begin: nat, val: nat)
    requires ReadSoFar(digits, out, cur, begin) && val < 64
    ensures Pow2(begin + 6) == 64 * Pow2(begin)
    ensures ReadSoFar(digits + [val], out, cur + Pow2(begin) * val, begin + 6)
  {
    hide Num, InBase, Pow2, Pow;
    NumMore(64, digits, val);
    SixMore(begin);
    Shift6(cur, Pow2(begin), val);
    AddDigit(Pow(256, |out|), Pow2(begin), cur, val);
    NextPow(64, |digits|);
    assert |digits + [val]| == |digits| + 1;
  }

  lemma AddDigit(p: nat, t: nat, cur: nat, val: nat)
    ensures p * cur + (p * t) * val == p * (cur + t * val)
    ensures 64 * (p * t) == p * (64 * t)
  {
  }

  lemma SixMore(k: nat)
    ensures Pow2(k + 6) == 64 * Pow2(k)
  {
    assert Pow2(k + 6) == 2 * Pow2(k + 5) && Pow2(k + 4) == 2 * Pow2(k + 3) && Pow2(k + 2) == 2 * Pow2(k + 1);
  }

  lemma Shift6(cur: nat, t: nat, val: nat)
    requires cur < t && val < 64
    ensures cur + t * val < 64 * t
  {
  }

  /** Eight bits make a byte. */
  lemma ByteRead(digits: seq<nat>, out: seq<nat>, x: nat, begin: nat)
    requires ReadSoFar(digits, out, x, begin) && begin >= 8
    ensures ReadSoFar(digits, out + [x % 256], x / 256, begin - 8)
  {
    hide Num, Pow2, Pow;
    NumMore(256, out, x % 256);
    EightMore(begin - 8, x);
    TakeByte(Pow(256, |out|), x, Pow2(begin - 8));
    NextPow(256, |out|);
  }

  lemma NextPow(b: nat, k: nat)
    ensures Pow(b, k + 1) == b * Pow(b, k)
  {
  }

  lemma EightMore(k: nat, x: nat)
    ensures Pow2(k + 8) == 256 * Pow2(k)
    ensures x < Pow2(k + 8) ==> x / 256 < Pow2(k)
  {
    SixMore(k);
    assert Pow2(k + 8) == 2 * Pow2(k + 7) && Pow2(k + 7) == 2 * Pow2(k + 6);
  }

  lemma TakeByte(p: nat, x: nat, t: nat)
    ensures p * x == p * (x % 256) + (256 * p) * (x / 256)
    ensures p * (256 * t) == (256 * p) * t
  {
  }

  /** When less than a byte is left over, the complete bytes are the decoded data. */
  lemma AllRead(digits: seq<nat>, out: seq<nat>, cur: nat, begin: nat)
    requires ReadSoFar(digits, out, cur, begin) && begin < 8
    ensures out == Decode(digits)
  {
    hide Num, Digits;
    NumBound(256, out);
    DigitsSplit(256, Num(256, out), cur, |out|, 0);
    DigitsOfNum(256, out);
    assert |Digits(256, cur, 0)| == 0;
  }

  /** The bits of a byte completed by the low bits of the next value. */
  function Completed(cur: nat, begin: nat, val: nat): nat
    requires begin <= 8
  {
    if begin < 8 then cur + val % Pow2(8 - begin) * Pow2(begin) else cur
  }

  /** The bits of a value that are left for the next byte. */
  function Carried(begin: nat, val: nat): nat
    requires begin <= 8
  {
    Over(val, Pow2(8 - begin))
  }

  function Over(v: nat, b: nat): nat
    requires b > 0
  {
    v / b
  }

  /** A value put above the bits collected. */
  function Stacked(cur: nat, begin: nat, val: nat): nat {
    cur + val * Pow2(begin)
  }

  /** What the next character does to the bits collected. */
  lemma CharRead(digits: seq<nat>, out: seq<nat>, cur: nat, begin: nat, val: nat)
    requires ReadSoFar(digits, out, cur, begin) && val < 64 && begin in {0, 2, 4, 6, 8}
    ensures begin <= 2 ==> ReadSoFar(digits + [val], out, Stacked(cur, begin, val), begin + 6)
    ensures begin > 2 ==>
              ReadSoFar(digits + [val], out + [Completed(cur, begin, val)], Carried(begin, val), begin - 2)
  {
    hide Num, Pow2, Pow, InBase;
    DigitRead(digits, out, cur, begin, val);
    Pow2Table();
    if begin > 2 {
      ByteRead(digits + [val], out, cur + Pow2(begin) * val, begin + 6);
      SplitByte(cur, begin, val);
    }
  }

  lemma SplitByte(cur: nat, begin: nat, val: nat)
    requires cur < Pow2(begin) && val < 64 && begin in {4, 6, 8}
    ensures var x := cur + Pow2(begin) * val;
            x % 256 == Completed(cur, begin, val) && x / 256 == Carried(begin, val)
  {
    hide Pow2;
    Pow2Table();
    if begin == 4 {
      Split4(cur, val);
    } else if begin == 6 {
      Split6(cur, val);
    }
  }

  lemma Split4(cur: nat, val: nat)
    requires cur < 16
    ensures (cur + 16 * val) % 256 == cur + val % 16 * 16 && (cur + 16 * val) / 256 == val / 16
  {
  }

  lemma Split6(cur: nat, val: nat)
    requires cur < 64
    ensures (cur + 64 * val) % 256 == cur + val % 4 * 64 && (cur + 64 * val) / 256 == val / 4
  {
  }

  /** Binary data from text, into a buffer. A foreign character or a buffer that is too small leaves nothing. */
  method ToBin(text: string, capacity: nat) returns (bin: seq<nat>)
    ensures bin == if InBase(64, Values(text)) && capacity >= 6 * |text| / 8 then Decode(Values(text)) else []
  {
    hide Num, ReadSoFar, Decode, Values, InBase, CharValue, Completed, Carried, Stacked;
    bin := [];
    var left, cur: nat, begin: nat, i := capacity, 0, 0, 0;
    NothingRead();
    while i < |text| && left > 0
      invariant 0 <= i <= |text| && begin in {0, 2, 4, 6, 8} && (begin == 0 ==> i == 0)
      invariant 0 <= left == capacity - |bin| && 6 * i == 8 * |bin| + begin && (begin == 8 ==> left > 0)
      invariant InBase(64, Values(text[..i])) && ReadSoFar(Values(text[..i]), bin, cur, begin)
    {
      var val := CharValue(text[i]);
      ValuesMore(text, i);
      if val == 64 {
        return [];
      }
      CharRead(Values(text[..i]), bin, cur, begin, val);
      if begin > 2 {
        bin, left := bin + [Completed(cur, begin, val)], left - 1;
        cur := Carried(begin, val);
        begin := begin - 2;
      } else {
        cur := Stacked(cur, begin, val);
        begin := begin + 6;
      }
      i := i + 1;
    }
    assert text[..|text|] == text;
    if i < |text| {
      OneCharIsNothing(text);
      return [];
    }
    if begin == 8 && left > 0 {
      LastByte(Values(text), bin, cur);
      bin, cur, begin := bin + [cur], 0, 0;
    }
    AllRead(Values(text), bin, cur, begin);
  }

  lemma LastByte(digits: seq<nat>, out: seq<nat>, cur: nat)
    requires ReadSoFar(digits, out, cur, 8)
    ensures ReadSoFar(digits, out + [cur], 0, 0)
  {
    hide Num, Pow, Pow2;
    Pow2Table();
    ByteRead(digits, out, cur, 8);
    assert cur / 256 == 0 && cur % 256 == cur;
  }

  lemma NothingRead()
    ensures Values("") == [] && InBase(64, []) && ReadSoFar([], [], 0, 0)
  {
  }

  lemma ValuesMore(text: string, i: nat)
    requires i < |text|
    ensures Values(text[..i + 1]) == Values(text[..i]) + [CharValue(text[i])]
    ensures CharValue(text[i]) == 64 ==> !InBase(64, Values(text))
    ensures CharValue(text[i]) < 64 && InBase(64, Values(text[..i])) ==> InBase(64, Values(text[..i + 1]))
  {
    assert Values(text)[i] == CharValue(text[i]);
  }

  lemma OneCharIsNothing(text: string)
    ensures |text| == 1 ==> Decode(Values(text)) == []
  {
  }

  /** The decoder undoes the encoder. */
  lemma ToBinOfFromBin(bin: seq<nat>)
    requires InBase(256, bin)
    ensures InBase(64, Values(Text(Encode(bin)))) && Decode(Values(Text(Encode(bin)))) == bin
    ensures 6 * |Text(Encode(bin))| / 8 == |bin|
  {
    var digits := Encode(bin);
    forall i | 0 <= i < |digits|
      ensures CharValue(Text(digits)[i]) == digits[i]
    {
      ValueOfChar(digits[i]);
    }
    assert Values(Text(digits)) == digits;
    DecodeEncode(bin);
  }
}
