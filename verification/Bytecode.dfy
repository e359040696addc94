/**
 The binary form of script bytecode modules: tables of registers, strings and instructions whose
 length depends on the opcode.
 */
module Bytecode {
  import opened Wrappers
  import opened PositionalNumbers

  type Bytes = seq<nat>

  /** What is known about an opcode: whether a constant follows it, and how many registers. */
  datatype Desc = Desc(opcode: nat, hasConst: bool, numRegs: nat)

  datatype Kind = StringTable | RegisterTable | InstructionTable

  /** An element of a table. An instruction holds only what its opcode calls for. */
  datatype Item =
    | Str(text: Bytes)
    | Reg(id: nat)
    | Inst(opcode: nat, num: Option<nat>, regs: seq<nat>)

  datatype Segment = Segment(args: seq<Item>, strings: seq<Item>, code: seq<Item>)

  datatype Module = Module(entry: nat, segments: seq<Segment>)

  const MAGIC: nat := 0x646f_6d73_7370_ff00

  /** Segments with more arguments cannot be loaded. */
  const MAX_ARGS: nat := 256

  // ----- What a module in memory looks like -----

  /** Values of `k` bytes. */
  ghost predicate Fits(v: nat, k: nat) {
    v < Pow(256, k)
  }

  function KindOf(item: Item): Kind {
    match item
    case Str(_) => StringTable
    case Reg(_) => RegisterTable
    case Inst(_, _, _) => InstructionTable
  }

  /** The instruction has what the description of its opcode calls for. */
  ghost predicate Fitting(d: Desc, item: Item)
    requires item.Inst?
  {
    d.opcode == item.opcode && d.hasConst == item.num.Some? && d.numRegs == |item.regs|
  }

  /** The element matches the description of its opcode, wherever that is, and the widths of the fields. */
  ghost predicate GoodItem(table: seq<Desc>, kind: Kind, item: Item) {
    && KindOf(item) == kind
    && match item
       case Str(text) => Fits(|text|, 4)
       case Reg(id) => Fits(id, 2)
       case Inst(opcode, num, regs) =>
         && (exists d :: d in table && Fitting(d, item))
         && Fits(opcode, 4) && (num.Some? ==> Fits(num.value, 8)) && (forall i :: 0 <= i < |regs| ==> Fits(regs[i], 2))
  }

  ghost predicate GoodTable(table: seq<Desc>, kind: Kind, items: seq<Item>) {
    Fits(|items|, 4) && forall i :: 0 <= i < |items| ==> GoodItem(table, kind, items[i])
  }

  ghost predicate GoodSegment(table: seq<Desc>, s: Segment) {
    && GoodTable(table, RegisterTable, s.args) && GoodTable(table, StringTable, s.strings)
    && GoodTable(table, InstructionTable, s.code)
  }

  ghost predicate GoodModule(table: seq<Desc>, m: Module) {
    && Fits(m.entry, 4) && Fits(|m.segments|, 4)
    && forall i :: 0 <= i < |m.segments| ==> GoodSegment(table, m.segments[i])
  }

  /** Each opcode is the index of its description. */
  ghost predicate Indexed(table: seq<Desc>) {
    forall i :: 0 <= i < |table| ==> table[i].opcode == i
  }

  lemma DescribedByIndex(table: seq<Desc>, item: Item)
    requires Indexed(table) && item.Inst? && GoodItem(table, InstructionTable, item)
    ensures item.opcode < |table| && Fitting(table[item.opcode], item)
    ensures Fits(item.opcode, 4) && (item.num.Some? ==> Fits(item.num.value, 8))
    ensures forall i :: 0 <= i < |item.regs| ==> Fits(item.regs[i], 2)
  {
    hide Fits;
    var d :| d in table && Fitting(d, item);
    var i :| 0 <= i < |table| && table[i] == d;
  }

  // ----- Writing -----

  function Word(v: nat, k: nat): Bytes {
    Digits(256, v, k)
  }

  function DumpRegs(regs: seq<nat>): Bytes {
    if |regs| == 0 then [] else Word(regs[0], 2) + DumpRegs(regs[1..])
  }

  function DumpItem(item: Item): Bytes {
    match item
    case Str(text) => Word(|text|, 4) + text
    case Reg(id) => Word(id, 2)
    case Inst(opcode, num, regs) => Word(opcode, 4) + ((if num.Some? then Word(num.value, 8) else []) + DumpRegs(regs))
  }

  function DumpItems(items: seq<Item>): Bytes {
    if |items| == 0 then [] else DumpItem(items[0]) + DumpItems(items[1..])
  }

  function KindCode(kind: Kind): nat {
    match kind case StringTable => 0 case RegisterTable => 1 case InstructionTable => 2
  }

  function DumpTable(kind: Kind, items: seq<Item>): Bytes {
    Word(KindCode(kind), 4) + (Word(|items|, 4) + DumpItems(items))
  }

  function DumpSegment(s: Segment): Bytes {
    DumpTable(RegisterTable, s.args) + (DumpTable(StringTable, s.strings) + DumpTable(InstructionTable, s.code))
  }

  function DumpSegments(segments: seq<Segment>): Bytes {
    if |segments| == 0 then [] else DumpSegment(segments[0]) + DumpSegments(segments[1..])
  }

  function DumpModule(m: Module): Bytes {
    Word(MAGIC, 8) + (Word(|m.segments|, 4) + (Word(m.entry, 4) + DumpSegments(m.segments)))
  }

  // ----- Reading -----

  /**
   Something read from the front of a stream, and the rest; or nothing, cleanly; or nothing, after a
   cleanup that frees memory twice.
   */
  datatype Read<T> = Got(value: T, rest: Bytes) | Refused | Corrupted

  /** A failure is passed on. */
  function Fail<S, T>(r: Read<S>): Read<T>
    requires !r.Got?
  {
    if r.Refused? then Refused else Corrupted
  }

  function TakeWord(b: Bytes, k: nat): Read<nat> {
    if |b| < k then Refused else Got(Num(256, b[..k]), b[k..])
  }

  function TakeBytes(b: Bytes, n: nat): Read<Bytes> {
    if |b| < n then Refused else Got(b[..n], b[n..])
  }

  function LoadRegs(b: Bytes, n: nat): Read<seq<nat>>
    decreases n
  {
    if n == 0 then Got([], b)
    else
      var reg := TakeWord(b, 2);
      if !reg.Got? then Fail(reg) else Prepended([reg.value], LoadRegs(reg.rest, n - 1))
  }

  /** What was read before, followed by what is read next. */
  function Prepended<T>(done: seq<T>, next: Read<seq<T>>): Read<seq<T>> {
    if next.Got? then Got(done + next.value, next.rest) else next
  }

  function LoadInst(table: seq<Desc>, b: Bytes): Read<Item> {
    var opcode := TakeWord(b, 4);
    if !opcode.Got? then Fail(opcode)
    else if opcode.value >= |table| then Refused
    else if table[opcode.value].hasConst then
      var num := TakeWord(opcode.rest, 8);
      if !num.Got? then Fail(num)
      else WithRegs(opcode.value, Some(num.value), LoadRegs(num.rest, table[opcode.value].numRegs))
    else WithRegs(opcode.value, None, LoadRegs(opcode.rest, table[opcode.value].numRegs))
  }

  function WithRegs(opcode: nat, num: Option<nat>, regs: Read<seq<nat>>): Read<Item> {
    if regs.Got? then Got(Inst(opcode, num, regs.value), regs.rest) else Fail(regs)
  }

  function LoadItem(table: seq<Desc>, kind: Kind, b: Bytes): Read<Item> {
    match kind
    case StringTable =>
      var size := TakeWord(b, 4);
      if !size.Got? then Fail(size)
      else
        var text := TakeBytes(size.rest, size.value);
        if text.Got? then Got(Str(text.value), text.rest) else Fail(text)
    case RegisterTable =>
      var id := TakeWord(b, 2);
      if id.Got? then Got(Reg(id.value), id.rest) else Fail(id)
    case InstructionTable => LoadInst(table, b)
  }

  function LoadItems(table: seq<Desc>, kind: Kind, b: Bytes, n: nat): Read<seq<Item>>
    decreases n
  {
    if n == 0 then Got([], b)
    else
      var item := LoadItem(table, kind, b);
      if !item.Got? then Fail(item) else Prepended([item.value], LoadItems(table, kind, item.rest, n - 1))
  }

  /**
   A table. When a string cannot be read, the strings before it are freed, and then all strings of the
   table are freed: twice those before it, and whatever is in memory for those after it.
   */
  function LoadTable(table: seq<Desc>, kind: Kind, b: Bytes): Read<seq<Item>> {
    var code := TakeWord(b, 4);
    if !code.Got? then Fail(code)
    else
      var size := TakeWord(code.rest, 4);
      if !size.Got? then Fail(size)
      else if code.value != KindCode(kind) then Refused
      else
        var items := LoadItems(table, kind, size.rest, size.value);
        if !items.Got? && kind.StringTable? && size.value > 1 then Corrupted else items
  }

  function LoadSegment(table: seq<Desc>, b: Bytes): Read<Segment> {
    var args := LoadTable(table, RegisterTable, b);
    if !args.Got? then Fail(args)
    else if |args.value| > MAX_ARGS then Refused
    else
      var strings := LoadTable(table, StringTable, args.rest);
      if !strings.Got? then Fail(strings)
      else
        var code := LoadTable(table, InstructionTable, strings.rest);
        if code.Got? then Got(Segment(args.value, strings.value, code.value), code.rest) else Fail(code)
  }

  /**
   The segments from the `i`-th of `n` on. When a segment other than the first cannot be loaded, the
   cleanup counts the wrong variable and frees the first segment's tables over and over.
   */
  function LoadSegments(table: seq<Desc>, b: Bytes, i: nat, n: nat): Read<seq<Segment>>
    requires i <= n
    decreases n - i
  {
    if i == n then Got([], b)
    else
      var s := LoadSegment(table, b);
      if s.Got? then Prepended([s.value], LoadSegments(table, s.rest, i + 1, n))
      else if i > 0 then Corrupted
      else Fail(s)
  }

  function LoadModule(table: seq<Desc>, b: Bytes): Read<Module> {
    var magic := TakeWord(b, 8);
    if !magic.Got? then Fail(magic)
    else
      var nseg := TakeWord(magic.rest, 4);
      if !nseg.Got? then Fail(nseg)
      else
        var entry := TakeWord(nseg.rest, 4);
        if !entry.Got? then Fail(entry)
        else if magic.value != MAGIC then Refused
        else
          var segments := LoadSegments(table, entry.rest, 0, nseg.value);
          if segments.Got? then Got(Module(entry.value, segments.value), segments.rest) else Fail(segments)
  }

  // ----- The round trip -----

  lemma WordBack(v: nat, k: nat, rest: Bytes)
    requires Fits(v, k)
    ensures TakeWord(Word(v, k) + rest, k) == Got(v, rest)
  {
    var b := Word(v, k) + rest;
    assert b[..k] == Word(v, k) && b[k..] == rest;
    NumOfDigits(256, v, k);
  }

  lemma {:induction false} RegsBack(regs: seq<nat>, rest: Bytes)
    requires forall i :: 0 <= i < |regs| ==> Fits(regs[i], 2)
    ensures LoadRegs(DumpRegs(regs) + rest, |regs|) == Got(regs, rest)
    decreases |regs|
  {
    hide Word, Fits, TakeWord;
    if |regs| == 0 {
      assert DumpRegs(regs) + rest == rest;
    } else {
      var more := DumpRegs(regs[1..]) + rest;
      assert DumpRegs(regs) + rest == Word(regs[0], 2) + more;
      WordBack(regs[0], 2, more);
      RegsBack(regs[1..], rest);
      assert [regs[0]] + regs[1..] == regs;
    }
  }

  lemma InstBack(table: seq<Desc>, item: Item, rest: Bytes)
    requires Indexed(table) && item.Inst? && GoodItem(table, InstructionTable, item)
    ensures LoadInst(table, DumpItem(item) + rest) == Got(item, rest)
  {
    hide Word, Fits, TakeWord, DumpRegs, LoadRegs, GoodItem, Indexed;
    DescribedByIndex(table, item);
    var tail := DumpRegs(item.regs) + rest;
    RegsBack(item.regs, rest);
    if item.num.Some? {
      assert DumpItem(item) + rest == Word(item.opcode, 4) + (Word(item.num.value, 8) + tail);
      WordBack(item.num.value, 8, tail);
      WordBack(item.opcode, 4, Word(item.num.value, 8) + tail);
    } else {
      assert DumpItem(item) + rest == Word(item.opcode, 4) + tail;
      WordBack(item.opcode, 4, tail);
    }
  }

  lemma ItemBack(table: seq<Desc>, kind: Kind, item: Item, rest: Bytes)
    requires Indexed(table) && GoodItem(table, kind, item)
    ensures LoadItem(table, kind, DumpItem(item) + rest) == Got(item, rest)
  {
    hide Word, Fits, TakeWord, LoadInst;
    match item
    case Str(text) =>
      assert DumpItem(item) + rest == Word(|text|, 4) + (text + rest);
      WordBack(|text|, 4, text + rest);
    case Reg(id) => WordBack(id, 2, rest);
    case Inst(_, _, _) => InstBack(table, item, rest);
  }

  lemma {:induction false} ItemsBack(table: seq<Desc>, kind: Kind, items: seq<Item>, rest: Bytes)
    requires Indexed(table) && forall i :: 0 <= i < |items| ==> GoodItem(table, kind, items[i])
    ensures LoadItems(table, kind, DumpItems(items) + rest, |items|) == Got(items, rest)
    decreases |items|
  {
    hide DumpItem, LoadItem, GoodItem;
    if |items| == 0 {
      assert DumpItems(items) + rest == rest;
    } else {
      var more := DumpItems(items[1..]) + rest;
      assert DumpItems(items) + rest == DumpItem(items[0]) + more;
      ItemBack(table, kind, items[0], more);
      ItemsBack(table, kind, items[1..], rest);
      assert [items[0]] + items[1..] == items;
    }
  }

  lemma SmallFits(v: nat)
    requires v < 256
    ensures Fits(v, 4)
  {
  }

  lemma TableBack(table: seq<Desc>, kind: Kind, items: seq<Item>, rest: Bytes)
    requires Indexed(table) && GoodTable(table, kind, items)
    ensures LoadTable(table, kind, DumpTable(kind, items) + rest) == Got(items, rest)
  {
    hide Word, Fits, TakeWord, DumpItems, LoadItems;
    var body := DumpItems(items) + rest;
    var sized := Word(|items|, 4) + body;
    assert DumpTable(kind, items) + rest == Word(KindCode(kind), 4) + sized;
    SmallFits(KindCode(kind));
    WordBack(KindCode(kind), 4, sized);
    WordBack(|items|, 4, body);
    ItemsBack(table, kind, items, rest);
  }

  /** A table of one kind is not read as one of another. */
  lemma WrongKindRefused(table: seq<Desc>, kind: Kind, other: Kind, items: seq<Item>, rest: Bytes)
    requires kind != other && Fits(|items|, 4)
    ensures LoadTable(table, other, DumpTable(kind, items) + rest) == Refused
  {
    hide Word, Fits, TakeWord, DumpItems, LoadItems;
    var body := DumpItems(items) + rest;
    var sized := Word(|items|, 4) + body;
    assert DumpTable(kind, items) + rest == Word(KindCode(kind), 4) + sized;
    SmallFits(KindCode(kind));
    WordBack(KindCode(kind), 4, sized);
    WordBack(|items|, 4, body);
  }

  /** What happens when a table of strings cannot be read to its end: one string alone is refused, several are freed twice. */
  lemma BrokenStrings(table: seq<Desc>, n: nat, body: Bytes)
    requires Fits(n, 4) && !LoadItems(table, StringTable, body, n).Got?
    ensures LoadTable(table, StringTable, Word(KindCode(StringTable), 4) + (Word(n, 4) + body)) ==
            if n == 1 then LoadItems(table, StringTable, body, n) else Corrupted
  {
    hide Word, Fits, TakeWord;
    SmallFits(KindCode(StringTable));
    WordBack(KindCode(StringTable), 4, Word(n, 4) + body);
    WordBack(n, 4, body);
  }

  /** A segment comes back, unless it has too many arguments. */
  lemma SegmentBack(table: seq<Desc>, s: Segment, rest: Bytes)
    requires Indexed(table) && GoodSegment(table, s)
    ensures LoadSegment(table, DumpSegment(s) + rest) == if |s.args| <= MAX_ARGS then Got(s, rest) else Refused
  {
    hide LoadTable, DumpTable, GoodTable;
    var code := DumpTable(InstructionTable, s.code) + rest;
    var strings := DumpTable(StringTable, s.strings) + code;
    assert DumpSegment(s) + rest == DumpTable(RegisterTable, s.args) + strings;
    TableBack(table, RegisterTable, s.args, strings);
    TableBack(table, StringTable, s.strings, code);
    TableBack(table, InstructionTable, s.code, rest);
  }

  ghost predicate Loadable(segments: seq<Segment>) {
    forall i :: 0 <= i < |segments| ==> |segments[i].args| <= MAX_ARGS
  }

  lemma LoadableStep(segments: seq<Segment>)
    requires |segments| > 0
    ensures Loadable(segments) <==> |segments[0].args| <= MAX_ARGS && Loadable(segments[1..])
  {
  }

  lemma NoneLoadable(segments: seq<Segment>)
    requires |segments| == 0
    ensures Loadable(segments)
  {
  }

  /** Segments come back until the first one with too many arguments, which is fatal unless it is the very first. */
  lemma {:induction false} SegmentsBack(table: seq<Desc>, segments: seq<Segment>, i: nat, n: nat, rest: Bytes)
    requires Indexed(table) && forall k :: 0 <= k < |segments| ==> GoodSegment(table, segments[k])
    requires n == i + |segments|
    ensures LoadSegments(table, DumpSegments(segments) + rest, i, n) ==
            if Loadable(segments) then Got(segments, rest)
            else if i == 0 && |segments[0].args| > MAX_ARGS then Refused
            else Corrupted
    decreases |segments|
  {
    hide LoadSegment, DumpSegment, GoodSegment, Loadable, Indexed;
    if |segments| == 0 {
      assert DumpSegments(segments) + rest == rest;
      NoneLoadable(segments);
    } else {
      var more := DumpSegments(segments[1..]) + rest;
      assert DumpSegments(segments) + rest == DumpSegment(segments[0]) + more;
      SegmentBack(table, segments[0], more);
      SegmentsBack(table, segments[1..], i + 1, n, rest);
      LoadableStep(segments);
      assert [segments[0]] + segments[1..] == segments;
    }
  }

  lemma MagicFits()
    ensures Fits(MAGIC, 8)
  {
  }

  /**
   Loading a dumped module gives the module back iff no segment has too many arguments. It is refused
   iff the first segment has, and corrupts memory iff only a later one has.
   */
  lemma ModuleBack(table: seq<Desc>, m: Module)
    requires Indexed(table) && GoodModule(table, m)
    ensures var r := LoadModule(table, DumpModule(m));
            && (r.Got? <==> Loadable(m.segments)) && (r.Got? ==> r.value == m)
            && (r.Refused? <==> |m.segments| > 0 && |m.segments[0].args| > MAX_ARGS)
            && (r.Corrupted? <==> !Loadable(m.segments) && |m.segments[0].args| <= MAX_ARGS)
  {
    hide Word, Fits, TakeWord, DumpSegments, LoadSegments, Indexed;
    var b3 := DumpSegments(m.segments);
    var b2 := Word(m.entry, 4) + b3;
    var b1 := Word(|m.segments|, 4) + b2;
    MagicFits();
    WordBack(MAGIC, 8, b1);
    WordBack(|m.segments|, 4, b2);
    WordBack(m.entry, 4, b3);
    assert b3 + [] == b3;
    SegmentsBack(table, m.segments, 0, |m.segments|, []);
    assert |m.segments| > 0 && |m.segments[0].args| > MAX_ARGS ==> !Loadable(m.segments);
  }

  /** A segment with 257 arguments. */
  lemma LargeSegment(table: seq<Desc>) returns (s: Segment)
    ensures GoodSegment(table, s) && |s.args| > MAX_ARGS
  {
    var args := seq(MAX_ARGS + 1, _ => Reg(0));
    s := Segment(args, [], []);
    SmallFits(0);
    Fits257();
    assert GoodTable(table, RegisterTable, args) && GoodTable(table, StringTable, []);
  }

  /** Modules that can be dumped: one is refused, and one corrupts memory. */
  lemma TooManyArguments(table: seq<Desc>) returns (refused: Module, fatal: Module)
    requires Indexed(table)
    ensures GoodModule(table, refused) && LoadModule(table, DumpModule(refused)).Refused?
    ensures GoodModule(table, fatal) && LoadModule(table, DumpModule(fatal)).Corrupted?
  {
    hide GoodSegment, LoadModule, DumpModule;
    var large := LargeSegment(table);
    var small := Segment([], [], []);
    SmallFits(0);
    SmallFits(1);
    SmallFits(2);
    assert GoodSegment(table, small) by { EmptySegment(table); }
    refused, fatal := Module(0, [large]), Module(0, [small, large]);
    assert |fatal.segments[1].args| > MAX_ARGS;
    ModuleBack(table, refused);
    ModuleBack(table, fatal);
  }

  lemma EmptySegment(table: seq<Desc>)
    ensures GoodSegment(table, Segment([], [], []))
  {
    SmallFits(0);
  }

  lemma Fits257()
    ensures Fits(MAX_ARGS + 1, 4) && Fits(0, 2)
  {
  }

  // ----- The table of opcodes -----

  ghost predicate SortedUpTo(a: seq<Desc>, n: nat)
    requires n <= |a|
  {
    forall i, j :: 0 <= i < n && i < j < |a| ==> a[i].opcode <= a[j].opcode
  }

  /** Every opcode below the number of descriptions is described once. */
  ghost predicate Complete(a: seq<Desc>) {
    && (forall i :: 0 <= i < |a| ==> a[i].opcode < |a|)
    && (forall i, j :: 0 <= i < j < |a| ==> a[i].opcode != a[j].opcode)
  }

  lemma {:induction false} AtLeastIndex(a: seq<Desc>, i: nat)
    requires Complete(a) && SortedUpTo(a, |a|) && i < |a|
    ensures a[i].opcode >= i
  {
    if i > 0 {
      AtLeastIndex(a, i - 1);
    }
  }

  lemma {:induction false} AtMostIndex(a: seq<Desc>, i: nat)
    requires Complete(a) && SortedUpTo(a, |a|) && i < |a|
    ensures a[i].opcode <= i
    decreases |a| - i
  {
    if i + 1 < |a| {
      AtMostIndex(a, i + 1);
    }
  }

  ghost predicate SmallestUpTo(a: seq<Desc>, i: nat, n: nat)
    requires i < n <= |a|
  {
    forall k :: i < k < n ==> a[i].opcode <= a[k].opcode
  }

  lemma Exchanged(s: seq<Desc>, i: nat, j: nat)
    requires i < j < |s| && SortedUpTo(s, i) && SmallestUpTo(s, i, j) && s[i].opcode > s[j].opcode
    ensures var t := s[i := s[j]][j := s[i]]; SortedUpTo(t, i) && SmallestUpTo(t, i, j + 1)
  {
  }

  lemma NextSorted(s: seq<Desc>, i: nat)
    requires i < |s| && SortedUpTo(s, i) && SmallestUpTo(s, i, |s|)
    ensures SortedUpTo(s, i + 1)
  {
  }

  /** Sort the descriptions in place by exchanges. Each opcode is then the index of its description. */
  method SortDescs(a: array<Desc>)
    requires Complete(a[..])
    modifies a
    ensures multiset(a[..]) == multiset(old(a[..]))
    ensures Indexed(a[..])
  {
    hide Complete, SortedUpTo, SmallestUpTo, Indexed;
    NothingSorted(a[..]);
    var i := 0;
    while i < a.Length
      invariant 0 <= i <= a.Length && SortedUpTo(a[..], i) && Complete(a[..])
      invariant multiset(a[..]) == multiset(old(a[..]))
    {
      NothingSmaller(a[..], i);
      var j := i + 1;
      while j < a.Length
        invariant i < j <= a.Length && SortedUpTo(a[..], i) && Complete(a[..]) && SmallestUpTo(a[..], i, j)
        invariant multiset(a[..]) == multiset(old(a[..]))
      {
        if a[i].opcode > a[j].opcode {
          Exchanged(a[..], i, j);
          Exchange(a, i, j);
        } else {
          NoExchange(a[..], i, j);
        }
        j := j + 1;
      }
      NextSorted(a[..], i);
      i := i + 1;
    }
    SortedIsIndexed(a[..]);
  }

  lemma SortedIsIndexed(s: seq<Desc>)
    requires Complete(s) && SortedUpTo(s, |s|)
    ensures Indexed(s)
  {
    hide Complete, SortedUpTo;
    forall k | 0 <= k < |s|
      ensures s[k].opcode == k
    {
      AtLeastIndex(s, k);
      AtMostIndex(s, k);
    }
  }

  lemma NothingSorted(s: seq<Desc>)
    ensures SortedUpTo(s, 0)
  {
  }

  lemma NothingSmaller(s: seq<Desc>, i: nat)
    requires i < |s|
    ensures SmallestUpTo(s, i, i + 1)
  {
  }

  lemma NoExchange(s: seq<Desc>, i: nat, j: nat)
    requires i < j < |s| && SmallestUpTo(s, i, j) && s[i].opcode <= s[j].opcode
    ensures SmallestUpTo(s, i, j + 1)
  {
  }

  method Exchange(a: array<Desc>, i: nat, j: nat)
    requires i < j < a.Length && Complete(a[..])
    modifies a
    ensures a[..] == old(a[..])[i := old(a[j])][j := old(a[i])]
    ensures multiset(a[..]) == multiset(old(a[..])) && Complete(a[..])
  {
    a[i], a[j] := a[j], a[i];
  }

  // ----- The writer -----

  class Output {
    var bytes: Bytes

    constructor ()
      ensures bytes == []
    {
      bytes := [];
    }

    method WriteWord(v: nat, k: nat)
      modifies this
      ensures bytes == old(bytes) + Word(v, k)
    {
      bytes := bytes + Word(v, k);
    }

    method WriteItem(table: seq<Desc>, ghost kind: Kind, item: Item)
      requires Indexed(table) && GoodItem(table, kind, item)
      modifies this
      ensures bytes == old(bytes) + DumpItem(item)
    {
      hide Word, DumpRegs, Fits;
      match item {
        case Str(text) =>
          WriteWord(|text|, 4);
          bytes := bytes + text;
        case Reg(id) =>
          WriteWord(id, 2);
        case Inst(_, _, _) =>
          WriteInst(table, item);
      }
    }

    method WriteInst(table: seq<Desc>, item: Item)
      requires Indexed(table) && item.Inst? && GoodItem(table, InstructionTable, item)
      modifies this
      ensures bytes == old(bytes) + DumpItem(item)
    {
      hide Word, DumpRegs, Fits;
      DescribedByIndex(table, item);
      var info := table[item.opcode];
      WriteWord(item.opcode, 4);
      if info.hasConst {
        WriteWord(item.num.value, 8);
      }
      WriteRegs(item.regs, info.numRegs);
    }

    method WriteRegs(regs: seq<nat>, n: nat)
      requires n == |regs|
      modifies this
      ensures bytes == old(bytes) + DumpRegs(regs)
    {
      assert regs[0..] == regs;
      for i := 0 to n
        invariant bytes + DumpRegs(regs[i..]) == old(bytes) + DumpRegs(regs)
      {
        assert regs[i..][1..] == regs[i + 1..];
        WriteWord(regs[i], 2);
      }
      assert bytes + [] == bytes;
    }

    method WriteTable(table: seq<Desc>, kind: Kind, items: seq<Item>)
      requires Indexed(table) && GoodTable(table, kind, items)
      modifies this
      ensures bytes == old(bytes) + DumpTable(kind, items)
    {
      hide DumpItem, Word, GoodItem, Indexed;
      WriteWord(KindCode(kind), 4);
      WriteWord(|items|, 4);
      ghost var head := bytes;
      assert items[0..] == items;
      for i := 0 to |items|
        invariant bytes + DumpItems(items[i..]) == head + DumpItems(items)
      {
        assert items[i..][1..] == items[i + 1..];
        WriteItem(table, kind, items[i]);
      }
      assert bytes + [] == bytes;
    }

    method WriteSegment(table: seq<Desc>, s: Segment)
      requires Indexed(table) && GoodSegment(table, s)
      modifies this
      ensures bytes == old(bytes) + DumpSegment(s)
    {
      hide DumpTable, GoodTable, Indexed;
      WriteTable(table, RegisterTable, s.args);
      WriteTable(table, StringTable, s.strings);
      WriteTable(table, InstructionTable, s.code);
    }

    method WriteModule(table: seq<Desc>, m: Module)
      requires Indexed(table) && GoodModule(table, m)
      modifies this
      ensures bytes == old(bytes) + DumpModule(m)
    {
      hide DumpSegment, Word, GoodSegment, Indexed;
      WriteWord(MAGIC, 8);
      WriteWord(|m.segments|, 4);
      WriteWord(m.entry, 4);
      ghost var head := bytes;
      assert m.segments[0..] == m.segments;
      for i := 0 to |m.segments|
        invariant bytes + DumpSegments(m.segments[i..]) == head + DumpSegments(m.segments)
      {
        assert m.segments[i..][1..] == m.segments[i + 1..];
        WriteSegment(table, m.segments[i]);
      }
      assert bytes + [] == bytes;
    }
  }

  // ----- The reader -----

  datatype Answer<T> = Value(value: T) | Nothing | Broken

  /** An answer and the bytes left over are what reading from the front of the stream gives. */
  ghost predicate Gives<T>(spec: Read<T>, r: Answer<T>, left: Bytes) {
    match spec
    case Got(v, rest) => r == Value(v) && left == rest
    case Refused => r.Nothing?
    case Corrupted => r.Broken?
  }

  class Input {
    var left: Bytes

    constructor (bytes: Bytes)
      ensures left == bytes
    {
      left := bytes;
    }

    method ReadWord(k: nat) returns (r: Answer<nat>)
      modifies this
      ensures Gives(TakeWord(old(left), k), r, left) && !r.Broken?
    {
      if |left| < k {
        return Nothing;
      }
      r := Value(Num(256, left[..k]));
      left := left[k..];
    }

    method ReadRegs(n: nat) returns (r: Answer<seq<nat>>)
      modifies this
      ensures Gives(LoadRegs(old(left), n), r, left) && !r.Broken?
    {
      hide TakeWord;
      var regs: seq<nat> := [];
      PrependNothing(LoadRegs(left, n));
      for i := 0 to n
        invariant LoadRegs(old(left), n) == Prepended(regs, LoadRegs(left, n - i))
      {
        var reg := ReadWord(2);
        if !reg.Value? {
          return Nothing;
        }
        PrependMore(regs, reg.value, LoadRegs(left, n - i - 1));
        regs := regs + [reg.value];
      }
      assert regs + [] == regs;
      r := Value(regs);
    }

    method ReadItem(table: seq<Desc>, kind: Kind) returns (r: Answer<Item>)
      modifies this
      ensures Gives(LoadItem(table, kind, old(left)), r, left) && !r.Broken?
    {
      hide TakeWord, LoadInst;
      match kind {
        case StringTable =>
          var size := ReadWord(4);
          if !size.Value? || |left| < size.value {
            return Nothing;
          }
          r := Value(Str(left[..size.value]));
          left := left[size.value..];
        case RegisterTable =>
          var id := ReadWord(2);
          r := if id.Value? then Value(Reg(id.value)) else Nothing;
        case InstructionTable =>
          r := ReadInst(table);
      }
    }

    method ReadInst(table: seq<Desc>) returns (r: Answer<Item>)
      modifies this
      ensures Gives(LoadInst(table, old(left)), r, left) && !r.Broken?
    {
      hide TakeWord, LoadRegs;
      var opcode := ReadWord(4);
      if !opcode.Value? || opcode.value >= |table| {
        return Nothing;
      }
      var info, num := table[opcode.value], None;
      if info.hasConst {
        var word := ReadWord(8);
        if !word.Value? {
          return Nothing;
        }
        num := Some(word.value);
      }
      var regs := ReadRegs(info.numRegs);
      r := if regs.Value? then Value(Inst(opcode.value, num, regs.value)) else Nothing;
    }

    /** A table. A string that cannot be read breaks a table of more than one string. */
    method ReadTable(table: seq<Desc>, kind: Kind) returns (r: Answer<seq<Item>>)
      modifies this
      ensures Gives(LoadTable(table, kind, old(left)), r, left)
    {
      hide TakeWord, LoadItem;
      var code := ReadWord(4);
      if !code.Value? {
        return Nothing;
      }
      var size := ReadWord(4);
      if !size.Value? || code.value != KindCode(kind) {
        return Nothing;
      }
      ghost var start := left;
      var n, items: seq<Item> := size.value, [];
      PrependNothing(LoadItems(table, kind, left, n));
      for i := 0 to n
        invariant LoadItems(table, kind, start, n) == Prepended(items, LoadItems(table, kind, left, n - i))
      {
        var item := ReadItem(table, kind);
        if !item.Value? {
          return if kind.StringTable? && n > 1 then Broken else Nothing;
        }
        PrependMore(items, item.value, LoadItems(table, kind, left, n - i - 1));
        items := items + [item.value];
      }
      assert items + [] == items;
      r := Value(items);
    }

    method ReadSegment(table: seq<Desc>) returns (r: Answer<Segment>)
      modifies this
      ensures Gives(LoadSegment(table, old(left)), r, left)
    {
      hide LoadTable;
      var args := ReadTable(table, RegisterTable);
      if !args.Value? {
        return if args.Broken? then Broken else Nothing;
      }
      if |args.value| > MAX_ARGS {
        return Nothing;
      }
      var strings := ReadTable(table, StringTable);
      if !strings.Value? {
        return if strings.Broken? then Broken else Nothing;
      }
      var code := ReadTable(table, InstructionTable);
      r := if code.Value? then Value(Segment(args.value, strings.value, code.value))
           else if code.Broken? then Broken else Nothing;
    }

    /** A module. A segment that cannot be loaded breaks the cleanup, unless it is the first one. */
    method ReadModule(table: seq<Desc>) returns (r: Answer<Module>)
      modifies this
      ensures Gives(LoadModule(table, old(left)), r, left)
    {
      hide LoadSegment, TakeWord;
      var magic := ReadWord(8);
      if !magic.Value? {
        return Nothing;
      }
      var nseg := ReadWord(4);
      if !nseg.Value? {
        return Nothing;
      }
      var entry := ReadWord(4);
      if !entry.Value? || magic.value != MAGIC {
        return Nothing;
      }
      ghost var start := left;
      var n, segments: seq<Segment> := nseg.value, [];
      PrependNothing(LoadSegments(table, left, 0, n));
      for i := 0 to n
        invariant LoadSegments(table, start, 0, n) == Prepended(segments, LoadSegments(table, left, i, n))
      {
        var s := ReadSegment(table);
        if !s.Value? {
          return if i > 0 || s.Broken? then Broken else Nothing;
        }
        PrependMore(segments, s.value, LoadSegments(table, left, i + 1, n));
        segments := segments + [s.value];
      }
      assert segments + [] == segments;
      r := Value(Module(entry.value, segments));
    }
  }

  lemma PrependNothing<T>(next: Read<seq<T>>)
    ensures Prepended([], next) == next
  {
    assert next.Got? ==> [] + next.value == next.value;
  }

  lemma PrependMore<T>(done: seq<T>, x: T, next: Read<seq<T>>)
    ensures Prepended(done + [x], next) == Prepended(done, Prepended([x], next))
  {
    assert next.Got? ==> done + [x] + next.value == done + ([x] + next.value);
  }

  // ----- From the unsorted table to the loaded module -----

  lemma SameDescriptions(before: seq<Desc>, after: seq<Desc>, m: Module)
    requires multiset(before) == multiset(after) && GoodModule(before, m)
    ensures GoodModule(after, m)
  {
    hide Fits, Fitting;
    assert forall d :: (d in before <==> d in multiset(before)) && (d in after <==> d in multiset(after));
    assert forall kind, item :: GoodItem(before, kind, item) ==> GoodItem(after, kind, item);
    forall i | 0 <= i < |m.segments|
      ensures GoodSegment(after, m.segments[i])
    {
      assert GoodSegment(before, m.segments[i]);
    }
  }

  /**
   Dump a module and load it, with descriptions of the opcodes that are sorted at first use. The
   instructions fit the descriptions of their opcodes, in whatever order these are given.
   */
  method DumpAndLoad(a: array<Desc>, m: Module) returns (r: Answer<Module>)
    requires Complete(a[..]) && GoodModule(a[..], m)
    modifies a
    ensures (r.Value? <==> Loadable(m.segments)) && (r.Value? ==> r.value == m)
    ensures r.Nothing? <==> |m.segments| > 0 && |m.segments[0].args| > MAX_ARGS
  {
    hide Indexed, GoodModule, Complete, LoadModule, DumpModule, Loadable;
    SortDescs(a);
    SameDescriptions(old(a[..]), a[..], m);
    var out := new Output();
    out.WriteModule(a[..], m);
    var input := new Input(out.bytes);
    assert [] + DumpModule(m) == DumpModule(m);
    r := input.ReadModule(a[..]);
    ModuleBack(a[..], m);
  }
}
