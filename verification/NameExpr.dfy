/**
 Name expressions such as `a.b[3].c`: the parser, the printer, and which segment lists the two
 carry back and forth.
 */
module NameExpr {
  import opened Wrappers
  import opened PowersOfTwo
  import opened ProtoType

  /** The result of parsing. A lookup that runs over the end of the text has no defined result. */
  datatype Outcome = Parsed(segments: seq<Segment>) | Malformed | PastEnd

  // ----- The parser as an automaton -----

  datatype State =
    | Fresh
    | InSymbol(symbol: string)
    | InSubscript(value: nat, base: nat)
    | AfterSubscript

  /** A state of the parser and the segments found so far. */
  datatype Progress = Progress(state: State, segments: seq<Segment>)

  predicate Initial(c: char) {
    'a' <= c <= 'z' || 'A' <= c <= 'Z' || c == '_' || c == '$'
  }

  predicate IsDigit(c: char, base: nat) {
    if base == 8 then '0' <= c <= '7'
    else if base == 10 then '0' <= c <= '9'
    else '0' <= c <= '9' || 'a' <= c <= 'f' || 'A' <= c <= 'F'
  }

  /** The value of a digit. Characters that are no digits have one too, modulo the word size. */
  function DigitValue(c: char): nat {
    if '0' <= c <= '9' then c as int - '0' as int
    else if 'A' <= c <= 'F' then c as int - 'A' as int + 10
    else (c as int - 'a' as int + 10) % WORD
  }

  /** Add a digit to a subscript, unless the result is the error code. */
  function AddDigit(value: nat, base: nat, c: char): Option<State> {
    var next := (value * base + DigitValue(c)) % WORD;
    if next == WORD - 1 then None else Some(InSubscript(next, base))
  }

  /** One character inside a subscript. The first one is not checked to be a digit. */
  function SubscriptStep(value: nat, base: nat, c: char): Option<State> {
    if base == 0 then AddDigit(value, if c == '0' then 8 else 10, c)
    else if base == 8 && value == 0 && (c == 'x' || c == 'X') then Some(InSubscript(0, 16))
    else if base == 8 && value == 0 && c == '0' then None
    else if IsDigit(c, base) then AddDigit(value, base, c)
    else if c == ']' then Some(AfterSubscript)
    else None
  }

  function AfterSegment(c: char): State {
    if c == '[' then InSubscript(0, 0) else Fresh
  }

  /** One character of the text. */
  function Step(p: Progress, c: char): Option<Progress> {
    match p.state
    case Fresh => if Initial(c) then Some(p.(state := InSymbol([c]))) else None
    case InSymbol(symbol) =>
      if c == '.' || c == '[' then Some(Progress(AfterSegment(c), p.segments + [Symbol(symbol)]))
      else Some(p.(state := InSymbol(symbol + [c])))
    case InSubscript(value, base) =>
      (match SubscriptStep(value, base, c)
       case None => None
       case Some(state) =>
         if state.AfterSubscript? then Some(Progress(state, p.segments + [Subscript(value)]))
         else Some(p.(state := state)))
    case AfterSubscript => Some(p.(state := AfterSegment(c)))
  }

  /** The end of the text. */
  function Finish(p: Progress): Outcome {
    match p.state
    case Fresh => Malformed
    case InSymbol(symbol) => Parsed(p.segments + [Symbol(symbol)])
    case InSubscript(_, base) => if base == 0 then PastEnd else Malformed
    case AfterSubscript => Parsed(p.segments)
  }

  function Run(p: Progress, text: string): Outcome
    decreases |text|
  {
    if |text| == 0 then Finish(p)
    else
      match Step(p, text[0])
      case None => Malformed
      case Some(next) => Run(next, text[1..])
  }

  const START := Progress(Fresh, [])

  lemma RunAt(p: Progress, text: string, i: nat)
    requires i <= |text|
    ensures Run(p, text[i..]) ==
            if i == |text| then Finish(p)
            else match Step(p, text[i]) case None => Malformed case Some(next) => Run(next, text[i + 1..])
  {
  }

  /** The parser: one loop over the characters that keeps track of the segment being read. */
  method Parse(text: string) returns (r: Outcome)
    requires '\0' !in text
    ensures r == Run(START, text)
  {
    hide Run, DigitValue;
    var segments: seq<Segment> := [];
    var segBegin: Option<nat> := None;
    var value: Option<nat> := None;
    var base := 0;
    var ptr := 0;
    assert text[0..] == text;
    while ptr < |text|
      invariant ptr <= |text| && (segBegin.Some? ==> segBegin.value < ptr)
      invariant segBegin.None? || value.None?
      invariant Run(START, text) == Run(Progress(Current(text, segBegin, value, base, ptr), segments), text[ptr..])
      decreases |text| - ptr
    {
      var c := text[ptr];
      RunAt(Progress(Current(text, segBegin, value, base, ptr), segments), text, ptr);
      if segBegin.None? && value.None? {
        if !Initial(c) {
          return Malformed;
        }
        assert text[ptr..ptr + 1] == [c];
        segBegin := Some(ptr);
      } else if segBegin.Some? {
        if c == '.' || c == '[' {
          segments := segments + [Symbol(text[segBegin.value..ptr])];
          segBegin, value, base := None, if c == '[' then Some(0) else None, 0;
        } else {
          assert text[segBegin.value..ptr] + [c] == text[segBegin.value..ptr + 1];
        }
      } else if base == 8 && value.value == 0 && (c == 'x' || c == 'X') {
        base := 16;
      } else if base == 8 && value.value == 0 && c == '0' {
        return Malformed;
      } else if base != 0 && !IsDigit(c, base) {
        if c != ']' {
          return Malformed;
        }
        segments := segments + [Subscript(value.value)];
        ptr := ptr + 1;
        RunAt(Progress(AfterSubscript, segments), text, ptr);
        if ptr == |text| {
          return Parsed(segments);
        }
        value, base := if text[ptr] == '[' then Some(0) else None, 0;
      } else {
        base := if base != 0 then base else if c == '0' then 8 else 10;
        var next := (value.value * base + DigitValue(c)) % WORD;
        if next == WORD - 1 {
          return Malformed;
        }
        value := Some(next);
      }
      ptr := ptr + 1;
    }
    RunAt(Progress(Current(text, segBegin, value, base, ptr), segments), text, ptr);
    assert text[..ptr] == text;
    if segBegin.Some? {
      return Parsed(segments + [Symbol(text[segBegin.value..])]);
    }
    return if value.Some? && base == 0 then PastEnd else Malformed;
  }

  /** The automaton's state that the parser's variables stand for. */
  ghost function Current(text: string, segBegin: Option<nat>, value: Option<nat>, base: nat, ptr: nat): State
    requires ptr <= |text| && (segBegin.Some? ==> segBegin.value < ptr)
  {
    if segBegin.Some? then InSymbol(text[segBegin.value..ptr])
    else if value.Some? then InSubscript(value.value, base)
    else Fresh
  }

  // ----- The printer -----

  function Decimal(n: nat): (s: string)
    ensures |s| > 0
  {
    if n < 10 then [DigitChar(n)] else Decimal(n / 10) + [DigitChar(n % 10)]
  }

  function DigitChar(d: nat): char
    requires d < 10
  {
    '0' + d as char
  }

  function PrintSegment(s: Segment, first: bool): string {
    match s
    case Symbol(name) => if first then name else "." + name
    case Subscript(index) => "[" + Decimal(index) + "]"
  }

  /** The text of the segments from the `i`-th one on. */
  function PrintFrom(segments: seq<Segment>, i: nat): string
    requires i <= |segments|
    decreases |segments| - i
  {
    if i == |segments| then "" else PrintSegment(segments[i], i == 0) + PrintFrom(segments, i + 1)
  }

  function Print(segments: seq<Segment>): string {
    PrintFrom(segments, 0)
  }

  /**
   Print into a buffer of `size` characters that holds `buffer`. What does not fit, with the
   terminator, is cut off; without any segment or any room the buffer is left as it is.
   */
  method PrintTo(segments: seq<Segment>, buffer: string, size: nat) returns (text: string)
    ensures |segments| == 0 || size == 0 ==> text == buffer
    ensures |segments| > 0 && size > 0 ==>
              text == if |Print(segments)| < size then Print(segments) else Print(segments)[..size - 1]
  {
    if |segments| == 0 || size == 0 {
      return buffer;
    }
    text := "";
    var left, i := size, 0;
    while i < |segments| && left > 0
      invariant i <= |segments| && 0 <= left
      invariant left > 0 ==> left == size - |text| && text + PrintFrom(segments, i) == Print(segments)
      invariant left == 0 ==> |Print(segments)| >= size && text == Print(segments)[..size - 1]
    {
      var piece := PrintSegment(segments[i], i == 0);
      ghost var before := text;
      assert before + piece + PrintFrom(segments, i + 1) == Print(segments);
      if left > |piece| {
        text := text + piece;
        left := left - |piece|;
      } else {
        text := text + piece[..left - 1];
        left := 0;
      }
      i := i + 1;
    }
    assert PrintFrom(segments, |segments|) == "" && text + "" == text;
  }

  // ----- What the parser can produce -----

  ghost predicate GoodSymbol(name: string) {
    |name| > 0 && Initial(name[0]) && forall i :: 0 <= i < |name| ==> Plain(name[i])
  }

  /** A character that may stand inside a symbol. */
  predicate Plain(c: char) {
    c != '.' && c != '[' && c != '\0'
  }

  ghost predicate GoodSegment(s: Segment) {
    match s
    case Symbol(name) => GoodSymbol(name)
    case Subscript(index) => index < WORD - 1
  }

  ghost predicate WellFormed(segments: seq<Segment>) {
    && |segments| > 0 && segments[0].Symbol?
    && forall i :: 0 <= i < |segments| ==> GoodSegment(segments[i])
  }

  ghost predicate GoodProgress(p: Progress) {
    && (forall i :: 0 <= i < |p.segments| ==> GoodSegment(p.segments[i]))
    && (|p.segments| > 0 ==> p.segments[0].Symbol?)
    && (p.state.InSymbol? ==> GoodSymbol(p.state.symbol))
    && (p.state.InSubscript? ==> p.state.value < WORD - 1 && |p.segments| > 0)
    && (p.state.AfterSubscript? ==> |p.segments| > 0)
  }

  lemma StepKeepsGood(p: Progress, c: char)
    requires GoodProgress(p) && c != '\0'
    ensures Step(p, c).Some? ==> GoodProgress(Step(p, c).value)
  {
  }

  lemma {:induction false} ResultsAreWellFormed(p: Progress, text: string)
    requires GoodProgress(p) && '\0' !in text
    ensures Run(p, text).Parsed? ==> WellFormed(Run(p, text).segments)
    decreases |text|
  {
    if |text| > 0 {
      StepKeepsGood(p, text[0]);
      var next := Step(p, text[0]);
      if next.Some? {
        ResultsAreWellFormed(next.value, text[1..]);
      }
    }
  }

  // ----- Parsing what was printed -----

  lemma RunStep(p: Progress, c: char, rest: string)
    ensures Run(p, [c] + rest) == match Step(p, c) case None => Malformed case Some(next) => Run(next, rest)
  {
  }

  lemma {:induction false} SymbolRun(p: Progress, symbol: string, more: string, rest: string)
    requires p.state == InSymbol(symbol) && forall i :: 0 <= i < |more| ==> Plain(more[i])
    ensures Run(p, more + rest) == Run(p.(state := InSymbol(symbol + more)), rest)
    decreases |more|
  {
    if |more| == 0 {
      assert more + rest == rest && symbol + more == symbol;
    } else {
      assert more + rest == [more[0]] + (more[1..] + rest);
      RunStep(p, more[0], more[1..] + rest);
      assert symbol + [more[0]] + more[1..] == symbol + more;
      SymbolRun(p.(state := InSymbol(symbol + [more[0]])), symbol + [more[0]], more[1..], rest);
    }
  }

  lemma DigitStep(value: nat, d: nat)
    requires d < 10 && value * 10 + d < WORD - 1
    ensures AddDigit(value, 10, DigitChar(d)) == Some(InSubscript(value * 10 + d, 10))
  {
  }

  lemma {:induction false} DecimalRun(p: Progress, n: nat, rest: string)
    requires p.state == InSubscript(0, 0) && 0 < n < WORD - 1
    ensures Run(p, Decimal(n) + rest) == Run(p.(state := InSubscript(n, 10)), rest)
    decreases n
  {
    hide AddDigit, Run;
    if n < 10 {
      DigitStep(0, n);
      RunStep(p, DigitChar(n), rest);
    } else {
      var d := DigitChar(n % 10);
      DigitStep(n / 10, n % 10);
      assert Decimal(n) + rest == Decimal(n / 10) + ([d] + rest);
      DecimalRun(p, n / 10, [d] + rest);
      RunStep(p.(state := InSubscript(n / 10, 10)), d, rest);
    }
  }

  lemma SubscriptRun(p: Progress, n: nat, rest: string)
    requires p.state == InSubscript(0, 0) && n < WORD - 1
    ensures Run(p, Decimal(n) + ("]" + rest)) == Run(Progress(AfterSubscript, p.segments + [Subscript(n)]), rest)
  {
    hide Run;
    if n == 0 {
      assert Decimal(0) + ("]" + rest) == ['0'] + ("]" + rest);
      RunStep(p, '0', "]" + rest);
      RunStep(p.(state := InSubscript(0, 8)), ']', rest);
    } else {
      DecimalRun(p, n, "]" + rest);
      RunStep(p.(state := InSubscript(n, 10)), ']', rest);
    }
  }

  /** The segments found so far, with the one that only waits for its end. */
  function Settled(p: Progress): seq<Segment> {
    if p.state.InSymbol? then p.segments + [Symbol(p.state.symbol)] else p.segments
  }

  lemma SegmentRun(p: Progress, s: Segment, rest: string) returns (next: Progress)
    requires (p.state.InSymbol? || p.state.AfterSubscript?) && GoodSegment(s)
    ensures Run(p, PrintSegment(s, false) + rest) == Run(next, rest)
    ensures (next.state.InSymbol? || next.state.AfterSubscript?) && Settled(next) == Settled(p) + [s]
  {
    match s
    case Symbol(name) =>
      var begun := Progress(InSymbol(name[..1]), Settled(p));
      next := begun.(state := InSymbol(name));
      assert PrintSegment(s, false) + rest == ['.'] + ([name[0]] + (name[1..] + rest));
      RunStep(p, '.', [name[0]] + (name[1..] + rest));
      RunStep(Progress(Fresh, Settled(p)), name[0], name[1..] + rest);
      assert name[..1] == [name[0]] && name[..1] + name[1..] == name;
      SymbolRun(begun, name[..1], name[1..], rest);
    case Subscript(index) =>
      next := Progress(AfterSubscript, Settled(p) + [s]);
      assert PrintSegment(s, false) + rest == ['['] + (Decimal(index) + ("]" + rest));
      RunStep(p, '[', Decimal(index) + ("]" + rest));
      SubscriptRun(Progress(InSubscript(0, 0), Settled(p)), index, rest);
  }

  lemma {:induction false} SegmentsRun(p: Progress, segments: seq<Segment>, i: nat)
    requires p.state.InSymbol? || p.state.AfterSubscript?
    requires WellFormed(segments) && 0 < i <= |segments| && Settled(p) == segments[..i]
    ensures Run(p, PrintFrom(segments, i)) == Parsed(segments)
    decreases |segments| - i
  {
    if i == |segments| {
      assert segments[..i] == segments;
    } else {
      var next := SegmentRun(p, segments[i], PrintFrom(segments, i + 1));
      assert segments[..i] + [segments[i]] == segments[..i + 1];
      SegmentsRun(next, segments, i + 1);
    }
  }

  /** Parsing the printed form of a well-formed name gives the name back. */
  lemma RoundTrip(segments: seq<Segment>)
    requires WellFormed(segments)
    ensures Run(START, Print(segments)) == Parsed(segments)
  {
    var name := segments[0].name;
    assert GoodSegment(segments[0]);
    var begun := Progress(InSymbol(name[..1]), []);
    var rest := PrintFrom(segments, 1);
    assert Print(segments) == [name[0]] + (name[1..] + rest);
    RunStep(START, name[0], name[1..] + rest);
    assert name[..1] == [name[0]] && name[..1] + name[1..] == name;
    SymbolRun(begun, name[..1], name[1..], rest);
    assert segments[..1] == [segments[0]];
    SegmentsRun(Progress(InSymbol(name), []), segments, 1);
  }

  lemma {:induction false} PrintHasNoEnd(segments: seq<Segment>, i: nat)
    requires i <= |segments| && forall k :: 0 <= k < |segments| ==> GoodSegment(segments[k])
    ensures '\0' !in PrintFrom(segments, i)
    decreases |segments| - i
  {
    if i < |segments| {
      PrintHasNoEnd(segments, i + 1);
      match segments[i]
      case Symbol(name) => assert GoodSegment(segments[i]);
      case Subscript(index) => DecimalIsDigits(index);
    }
  }

  lemma {:induction false} DecimalIsDigits(n: nat)
    ensures forall c :: c in Decimal(n) ==> '0' <= c <= '9'
  {
    if n >= 10 {
      DecimalIsDigits(n / 10);
    }
  }

  /** The parser produces exactly the well-formed names. */
  lemma ParsedIffWellFormed(segments: seq<Segment>)
    ensures WellFormed(segments) <==> exists text :: '\0' !in text && Run(START, text) == Parsed(segments)
  {
    if WellFormed(segments) {
      RoundTrip(segments);
      PrintHasNoEnd(segments, 0);
    }
    forall text | '\0' !in text && Run(START, text) == Parsed(segments)
      ensures WellFormed(segments)
    {
      ResultsAreWellFormed(START, text);
    }
  }

  // ----- When the parser runs over the end -----

  lemma {:induction false} PastEndAfterAccepted(p: Progress, text: string)
    requires !(p.state.InSubscript? && p.state.base == 0 && |text| == 0)
    ensures Run(p, text).PastEnd? <==> |text| > 0 && text[|text| - 1] == '[' && Run(p, text[..|text| - 1]).Parsed?
    decreases |text|
  {
    if |text| == 1 {
      assert text[..0] == [];
    } else if |text| > 1 {
      var next := Step(p, text[0]);
      var init := text[..|text| - 1];
      assert init[1..] == text[1..][..|text| - 2];
      if next.Some? {
        PastEndAfterAccepted(next.value, text[1..]);
      }
    }
  }

  /** A bracket at the end of the text makes the parser run over the end. */
  lemma RunsOverTheEnd()
    ensures Run(START, "a[") == PastEnd
  {
  }

  /** Any character right after an opening bracket counts as a digit. */
  lemma AnyFirstDigit()
    ensures Run(START, "a[x]") == Parsed([Symbol("a"), Subscript(33)])
  {
  }

  /** Any character after a closing bracket counts as a dot. */
  lemma AnySeparator()
    ensures Run(START, "a[1]?b") == Parsed([Symbol("a"), Subscript(1), Symbol("b")])
  {
  }
}
