/** The binary form of a name: a kind byte, then a terminated symbol or a 32-bit subscript. */
module NameDump {
  import opened Wrappers
  import opened PowersOfTwo
  import opened ProtoType

  type byte = x: int | 0 <= x < 256

  const SYMBOL: byte := 0
  const SUBSCRIPT: byte := 1
  /** What a name can hold in memory: non-empty terminated symbols of bytes and 32-bit subscripts. */
  ghost predicate Storable(s: Segment) {
    match s
    case Symbol(name) => |name| > 0 && forall i :: 0 <= i < |name| ==> 0 < name[i] as int < 256
    case Subscript(index) => index < WORD
  }

  ghost predicate AllStorable(segments: seq<Segment>) {
    forall i :: 0 <= i < |segments| ==> Storable(segments[i])
  }

  function Word(v: nat): (b: seq<byte>)
    ensures |b| == 4
  {
    [v % 0x100, v / 0x100 % 0x100, v / 0x1_0000 % 0x100, v / 0x100_0000 % 0x100]
  }

  function Value(b: seq<byte>): (v: nat)
    requires |b| >= 4
    ensures v < WORD
  {
    var b0: nat, b1: nat, b2: nat, b3: nat := b[0], b[1], b[2], b[3];
    b0 + 0x100 * b1 + 0x1_0000 * b2 + 0x100_0000 * b3
  }

  lemma ValueOfWord(v: nat, rest: seq<byte>)
    requires v < WORD
    ensures Value(Word(v) + rest) == v
  {
    var b := Word(v) + rest;
    assert b[0] == v % 0x100 && b[1] == v / 0x100 % 0x100;
    assert b[2] == v / 0x1_0000 % 0x100 && b[3] == v / 0x100_0000 % 0x100;
    assert v / 0x1_0000 == v / 0x100 / 0x100 && v / 0x100_0000 == v / 0x1_0000 / 0x100;
  }

  function CharByte(c: char): byte {
    c as int % 256
  }

  function ByteChar(b: byte): char {
    b as char
  }

  function SymbolBytes(name: string): (b: seq<byte>)
    ensures |b| == |name| + 1
  {
    if |name| == 0 then [0] else [CharByte(name[0])] + SymbolBytes(name[1..])
  }

  function DumpSegment(s: Segment): seq<byte> {
    match s
    case Symbol(name) => [SYMBOL] + SymbolBytes(name)
    case Subscript(index) => [SUBSCRIPT] + Word(index)
  }

  function Dump(segments: seq<Segment>): seq<byte> {
    if |segments| == 0 then [] else DumpSegment(segments[0]) + Dump(segments[1..])
  }

  /** The number of bytes that a name takes, counted without writing it. */
  method DumpSize(segments: seq<Segment>) returns (size: nat)
    ensures size == |Dump(segments)|
  {
    size := 0;
    assert segments[0..] == segments;
    for i := 0 to |segments|
      invariant size + |Dump(segments[i..])| == |Dump(segments)|
    {
      assert segments[i..][1..] == segments[i + 1..];
      size := size + 1;
      match segments[i] {
        case Symbol(name) => size := size + |name| + 1;
        case Subscript(_) => size := size + 4;
      }
    }
  }

  // ----- Reading it back -----

  /** The reader: the segments so far, and the symbol being read. */
  datatype Reader = Reader(segments: seq<Segment>, symbol: Option<string>)

  /** The segments in `b`. An unfinished symbol at the end is dropped; an empty one is an error. */
  function Read(r: Reader, b: seq<byte>): Option<seq<Segment>>
    decreases |b|
  {
    if |b| == 0 then Some(r.segments)
    else if r.symbol.Some? then
      if b[0] != 0 then Read(r.(symbol := Some(r.symbol.value + [ByteChar(b[0])])), b[1..])
      else if |r.symbol.value| == 0 then None
      else Read(Reader(r.segments + [Symbol(r.symbol.value)], None), b[1..])
    else if b[0] == SUBSCRIPT then
      if |b| < 5 then None else Read(Reader(r.segments + [Subscript(Value(b[1..]))], None), b[5..])
    else if b[0] == SYMBOL then Read(r.(symbol := Some("")), b[1..])
    else None
  }

  /** Load a name that takes `size` bytes from a stream, byte by byte. */
  method Load(stream: seq<byte>, size: nat) returns (r: Option<seq<Segment>>)
    ensures r == if |stream| < size then None else Read(Reader([], None), stream[..size])
  {
    if |stream| < size {
      return None;
    }
    var segments: seq<Segment>, symbol: Option<string>, i := [], None, 0;
    ghost var b := stream[..size];
    assert b[0..] == b;
    while i < size
      invariant i <= size && Read(Reader([], None), b) == Read(Reader(segments, symbol), b[i..])
    {
      var ch := stream[i];
      assert b[i..][0] == ch && b[i..][1..] == b[i + 1..];
      if symbol.Some? {
        if ch != 0 {
          symbol := Some(symbol.value + [ByteChar(ch)]);
        } else {
          if |symbol.value| == 0 {
            return None;
          }
          segments, symbol := segments + [Symbol(symbol.value)], None;
        }
      } else if ch == SUBSCRIPT {
        if size - i - 1 < 4 {
          return None;
        }
        assert b[i..][5..] == b[i + 5..] && forall k :: 0 <= k < 4 ==> b[i..][1..][k] == stream[i + 1..i + 5][k];
        segments := segments + [Subscript(Value(stream[i + 1..i + 5]))];
        i := i + 4;
      } else if ch == SYMBOL {
        symbol := Some("");
      } else {
        return None;
      }
      i := i + 1;
    }
    r := Some(segments);
  }

  lemma {:induction false} ReadSymbol(r: Reader, name: string, rest: seq<byte>)
    requires r.symbol.Some? && |r.symbol.value + name| > 0 && forall i :: 0 <= i < |name| ==> 0 < name[i] as int < 256
    ensures Read(r, SymbolBytes(name) + rest) == Read(Reader(r.segments + [Symbol(r.symbol.value + name)], None), rest)
    decreases |name|
  {
    var b := SymbolBytes(name) + rest;
    if |name| == 0 {
      assert b[1..] == rest && r.symbol.value + name == r.symbol.value;
    } else {
      assert b[1..] == SymbolBytes(name[1..]) + rest;
      var next := r.(symbol := Some(r.symbol.value + [name[0]]));
      assert next.symbol.value + name[1..] == r.symbol.value + name;
      ReadSymbol(next, name[1..], rest);
    }
  }

  lemma ReadSegment(done: seq<Segment>, s: Segment, rest: seq<byte>)
    requires Storable(s)
    ensures Read(Reader(done, None), DumpSegment(s) + rest) == Read(Reader(done + [s], None), rest)
  {
    hide Read, Word, SymbolBytes;
    var b := DumpSegment(s) + rest;
    match s
    case Symbol(name) =>
      assert b == [SYMBOL] + (SymbolBytes(name) + rest);
      assert "" + name == name;
      ReadKind(done, SymbolBytes(name) + rest);
      ReadSymbol(Reader(done, Some("")), name, rest);
    case Subscript(index) =>
      ReadSubscript(done, index, rest);
  }

  lemma ReadKind(done: seq<Segment>, rest: seq<byte>)
    ensures Read(Reader(done, None), [SYMBOL] + rest) == Read(Reader(done, Some("")), rest)
  {
    assert ([SYMBOL] + rest)[1..] == rest;
  }

  lemma ReadSubscript(done: seq<Segment>, index: nat, rest: seq<byte>)
    requires index < WORD
    ensures Read(Reader(done, None), [SUBSCRIPT] + Word(index) + rest) == Read(Reader(done + [Subscript(index)], None), rest)
  {
    hide Word, Value;
    var b := [SUBSCRIPT] + Word(index) + rest;
    assert b[1..] == Word(index) + rest && b[5..] == rest;
    ValueOfWord(index, rest);
  }

  lemma ReadEnd(done: seq<Segment>)
    ensures Read(Reader(done, None), []) == Some(done)
  {
  }

  lemma {:induction false} ReadAll(done: seq<Segment>, segments: seq<Segment>)
    requires AllStorable(segments)
    ensures Read(Reader(done, None), Dump(segments)) == Some(done + segments)
    decreases |segments|
  {
    hide Read, DumpSegment, Storable;
    if |segments| == 0 {
      ReadEnd(done);
      assert done + segments == done;
    } else {
      ReadSegment(done, segments[0], Dump(segments[1..]));
      ReadAll(done + [segments[0]], segments[1..]);
      assert done + [segments[0]] + segments[1..] == done + segments;
    }
  }

  /** A dumped name, read back with its own size from a stream that goes on, is the same name. */
  lemma LoadDumped(segments: seq<Segment>, more: seq<byte>)
    requires AllStorable(segments)
    ensures Read(Reader([], None), (Dump(segments) + more)[..|Dump(segments)|]) == Some(segments)
  {
    assert (Dump(segments) + more)[..|Dump(segments)|] == Dump(segments);
    ReadAll([], segments);
    assert [] + segments == segments;
  }
}
