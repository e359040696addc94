/**
 The grammar of name expressions, and how far the parser keeps to it. A text is described by its
 pieces: the words with what separates them, and what stands between brackets. Every text that the
 parser accepts has exactly one such description, so the description tells where it is lax.
 */
module NameGrammar {
  import opened Wrappers
  import opened PowersOfTwo
  import opened ProtoType
  import opened NameExpr

  // ----- Characters -----

  const LOWER := "abcdefghijklmnopqrstuvwxyz"
  const UPPER := "ABCDEFGHIJKLMNOPQRSTUVWXYZ"
  const DIGITS := "0123456789"

  /** The characters that a word may begin with and go on with. */
  lemma LettersAre(c: char)
    ensures Initial(c) <==> c in LOWER || c in UPPER || c in "_$"
    ensures IdBody(c) <==> Initial(c) || c in DIGITS
  {
    InOrder(LOWER, c);
    InOrder(UPPER, c);
    InOrder(DIGITS, c);
  }

  lemma InOrder(s: string, c: char)
    requires |s| > 0 && forall i :: 0 <= i < |s| ==> s[i] as int == s[0] as int + i
    ensures c in s <==> s[0] as int <= c as int < s[0] as int + |s|
  {
    if s[0] as int <= c as int < s[0] as int + |s| {
      assert s[c as int - s[0] as int] == c;
    }
  }

  /** The digits of every base, with their values. */
  lemma DigitsAre(c: char)
    ensures IsDigit(c, 8) <==> c in DIGITS[..8]
    ensures IsDigit(c, 10) <==> c in DIGITS
    ensures IsDigit(c, 16) <==> c in DIGITS || c in LOWER[..6] || c in UPPER[..6]
    ensures forall k :: 0 <= k < 10 ==> DigitValue(DIGITS[k]) == k
    ensures forall k :: 0 <= k < 6 ==> DigitValue(LOWER[k]) == DigitValue(UPPER[k]) == 10 + k
  {
    InOrder(DIGITS[..8], c);
    InOrder(DIGITS, c);
    InOrder(LOWER[..6], c);
    InOrder(UPPER[..6], c);
  }

  // ----- Numerals -----

  /** The number that digits stand for. */
  function Fold(base: nat, digits: string): nat {
    if |digits| == 0 then 0 else Fold(base, digits[..|digits| - 1]) * base + DigitValue(digits[|digits| - 1])
  }

  /** The same in 32-bit arithmetic. */
  function Wrapped(base: nat, digits: string): (v: nat)
    ensures v < WORD
  {
    if |digits| == 0 then 0
    else (Wrapped(base, digits[..|digits| - 1]) * base + DigitValue(digits[|digits| - 1])) % WORD
  }

  ghost predicate AllDigits(base: nat, s: string) {
    forall i :: 0 <= i < |s| ==> IsDigit(s[i], base)
  }

  /** No part of the digits comes to the error code. */
  ghost predicate NoError(base: nat, s: string) {
    forall k :: 0 < k <= |s| ==> Wrapped(base, s[..k]) != WORD - 1
  }

  /** A numeral: decimal without leading zero, octal with one, or hexadecimal. */
  ghost predicate Numeral(s: string) {
    || (|s| > 0 && s[0] != '0' && AllDigits(10, s))
    || s == "0"
    || (|s| > 1 && s[0] == '0' && s[1] != '0' && AllDigits(8, s[1..]))
    || (|s| > 2 && s[0] == '0' && (s[1] == 'x' || s[1] == 'X') && AllDigits(16, s[2..]))
  }

  function NumeralValue(s: string): nat {
    if |s| == 0 then 0
    else if s[0] != '0' then Fold(10, s)
    else if |s| > 1 && (s[1] == 'x' || s[1] == 'X') then Fold(16, s[2..])
    else Fold(8, s[1..])
  }

  // ----- What the parser takes between brackets -----

  /** Octal digits after the leading zero: no zero where the value so far is zero. */
  ghost predicate OctalPart(o: string) {
    && AllDigits(8, o) && NoError(8, o)
    && (forall k :: 0 <= k < |o| && Wrapped(8, o[..k]) == 0 ==> o[k] != '0')
  }

  /** Hexadecimal digits after an `x` at position `j`, which may follow octal digits that come to zero. */
  ghost predicate HexFrom(b: string, j: nat) {
    && 0 < j < |b| && b[0] == '0' && (b[j] == 'x' || b[j] == 'X')
    && OctalPart(b[1..j]) && Wrapped(8, b[1..j]) == 0
    && AllDigits(16, b[j + 1..]) && NoError(16, b[j + 1..])
  }

  /** The parser has read `b` after a bracket, found the base and come to the value. */
  ghost predicate Reading(b: string, value: nat, base: nat) {
    if base == 0 then b == "" && value == 0
    else if base == 10 then
      |b| > 0 && b[0] != '0' && AllDigits(10, b[1..]) && NoError(10, b) && value == Wrapped(10, b)
    else if base == 8 then |b| > 0 && b[0] == '0' && OctalPart(b[1..]) && value == Wrapped(8, b[1..])
    else base == 16 && exists j: nat :: HexFrom(b, j) && value == Wrapped(16, b[j + 1..])
  }

  /** What the parser takes for a subscript, and its value. */
  ghost predicate Body(b: string, value: nat) {
    exists base :: base != 0 && Reading(b, value, base)
  }

  lemma WrappedMore(base: nat, s: string, c: char)
    ensures Wrapped(base, s + [c]) == (Wrapped(base, s) * base + DigitValue(c)) % WORD
  {
    assert (s + [c])[..|s|] == s;
  }

  lemma NoErrorMore(base: nat, s: string, c: char)
    ensures NoError(base, s + [c]) <==> NoError(base, s) && Wrapped(base, s + [c]) != WORD - 1
  {
    var t := s + [c];
    assert forall k :: 0 <= k <= |s| ==> t[..k] == s[..k];
    assert t[..|t|] == t;
  }

  lemma DigitsMore(base: nat, s: string, c: char)
    ensures AllDigits(base, s + [c]) <==> AllDigits(base, s) && IsDigit(c, base)
  {
    assert (s + [c])[|s|] == c && forall i :: 0 <= i < |s| ==> (s + [c])[i] == s[i];
  }

  lemma OctalMore(o: string, c: char)
    ensures OctalPart(o + [c]) <==>
            OctalPart(o) && IsDigit(c, 8) && Wrapped(8, o + [c]) != WORD - 1 && (Wrapped(8, o) == 0 ==> c != '0')
  {
    hide Wrapped;
    DigitsMore(8, o, c);
    NoErrorMore(8, o, c);
    var t := o + [c];
    assert t[|o|] == c && t[..|o|] == o;
    assert forall k :: 0 <= k < |o| ==> t[..k] == o[..k] && t[k] == o[k];
  }

  /** One more character between the brackets. */
  lemma ReadMore(b: string, value: nat, base: nat, c: char)
    requires Reading(b, value, base)
    requires SubscriptStep(value, base, c).Some? && SubscriptStep(value, base, c).value.InSubscript?
    ensures var next := SubscriptStep(value, base, c).value; Reading(b + [c], next.value, next.base)
  {
    hide Wrapped, OctalPart, DigitValue, AllDigits, NoError;
    if base == 0 {
      assert b + [c] == [c];
      FirstRead(c);
    } else if base == 10 {
      assert (b + [c])[1..] == b[1..] + [c];
      DigitsMore(10, b[1..], c);
      WrappedMore(10, b, c);
      NoErrorMore(10, b, c);
    } else if base == 8 {
      assert (b + [c])[1..] == b[1..] + [c];
      if c == 'x' || c == 'X' {
        HexBegins(b, c);
      } else {
        WrappedMore(8, b[1..], c);
        OctalMore(b[1..], c);
      }
    } else {
      var j: nat :| HexFrom(b, j) && value == Wrapped(16, b[j + 1..]);
      HexMore(b, j, c);
      WrappedMore(16, b[j + 1..], c);
      assert (b + [c])[j + 1..] == b[j + 1..] + [c];
    }
  }

  lemma NothingFollows()
    ensures OctalPart("") && AllDigits(10, "") && AllDigits(16, "") && Wrapped(8, "") == 0 && Wrapped(16, "") == 0
    ensures NoError(10, "") && NoError(16, "") && DigitValue('0') == 0
  {
  }

  lemma FirstRead(c: char)
    ensures var next := SubscriptStep(0, 0, c);
            if next.Some? then next.value.InSubscript? && Reading([c], next.value.value, next.value.base)
            else !Reading([c], Wrapped(10, [c]), 10)
  {
    hide Wrapped, OctalPart, AllDigits, NoError, DigitValue;
    WrappedMore(10, "", c);
    NoErrorMore(10, "", c);
    NothingFollows();
    assert [] + [c] == [c] && [c][1..] == "";
    OneWrapped(c);
  }

  lemma OneWrapped(c: char)
    ensures Wrapped(10, [c]) == DigitValue(c) % WORD
  {
    assert [c][..0] == "";
  }

  lemma HexBegins(b: string, c: char)
    requires Reading(b, 0, 8) && (c == 'x' || c == 'X')
    ensures HexFrom(b + [c], |b|) && Reading(b + [c], 0, 16)
  {
    hide OctalPart;
    var t := b + [c];
    assert t[1..|b|] == b[1..] && t[|b| + 1..] == "";
  }

  lemma HexMore(b: string, j: nat, c: char)
    requires HexFrom(b, j)
    ensures HexFrom(b + [c], j) <==> IsDigit(c, 16) && Wrapped(16, b[j + 1..] + [c]) != WORD - 1
  {
    hide Wrapped, OctalPart, AllDigits, NoError;
    var t := b + [c];
    assert t[1..j] == b[1..j] && t[j + 1..] == b[j + 1..] + [c] && t[j] == b[j] && t[0] == b[0];
    DigitsMore(16, b[j + 1..], c);
    NoErrorMore(16, b[j + 1..], c);
  }

  /** What was read before the last character, which led here. */
  lemma ReadBack(b: string, value: nat, base: nat) returns (v: nat, was: nat)
    requires Reading(b, value, base) && |b| > 0
    ensures Reading(b[..|b| - 1], v, was)
    ensures SubscriptStep(v, was, b[|b| - 1]) == Some(InSubscript(value, base))
  {
    hide Wrapped, OctalPart, DigitValue, AllDigits, NoError;
    var c, front := b[|b| - 1], b[..|b| - 1];
    assert b == front + [c];
    if |b| == 1 {
      v, was := 0, 0;
      ReadFirst(c, value, base);
    } else if base == 10 {
      v, was := Wrapped(10, front), 10;
      assert b[1..] == front[1..] + [c];
      DigitsMore(10, front[1..], c);
      WrappedMore(10, front, c);
      NoErrorMore(10, front, c);
    } else if base == 8 {
      v, was := Wrapped(8, front[1..]), 8;
      assert b[1..] == front[1..] + [c];
      WrappedMore(8, front[1..], c);
      OctalMore(front[1..], c);
      NotX(c);
    } else {
      var j: nat :| HexFrom(b, j) && value == Wrapped(16, b[j + 1..]);
      if j == |b| - 1 {
        v, was := 0, 8;
        assert b[1..j] == front[1..] && b[j + 1..] == "";
        NothingFollows();
      } else {
        v, was := Wrapped(16, front[j + 1..]), 16;
        assert front[j + 1..] + [c] == b[j + 1..];
        HexBefore(front, j, c);
        HexMore(front, j, c);
        WrappedMore(16, front[j + 1..], c);
      }
    }
  }

  lemma NotX(c: char)
    requires IsDigit(c, 8)
    ensures c != 'x' && c != 'X'
  {
  }

  lemma HexBefore(b: string, j: nat, c: char)
    requires j < |b| && HexFrom(b + [c], j)
    ensures HexFrom(b, j)
  {
    hide Wrapped, OctalPart, AllDigits, NoError;
    var t := b + [c];
    assert t[1..j] == b[1..j] && t[j + 1..] == b[j + 1..] + [c] && t[j] == b[j] && t[0] == b[0];
    DigitsMore(16, b[j + 1..], c);
    NoErrorMore(16, b[j + 1..], c);
  }

  lemma ReadFirst(c: char, value: nat, base: nat)
    requires Reading([c], value, base)
    ensures SubscriptStep(0, 0, c) == Some(InSubscript(value, base))
  {
    hide Wrapped, OctalPart, AllDigits, NoError, DigitValue;
    NothingFollows();
    OneWrapped(c);
    WrappedMore(10, "", c);
    NoErrorMore(10, "", c);
    assert [] + [c] == [c] && [c][1..] == "";
  }

  // ----- Pieces of a text -----

  /** A word with what separates it from the piece before, or what stands between brackets. */
  datatype Piece = Word(sep: string, name: string) | Index(body: string, value: nat)

  function PieceText(p: Piece): string {
    match p
    case Word(sep, name) => sep + name
    case Index(body, _) => "[" + body + "]"
  }

  function TextFrom(pieces: seq<Piece>, i: nat): string
    requires i <= |pieces|
    decreases |pieces| - i
  {
    if i == |pieces| then "" else PieceText(pieces[i]) + TextFrom(pieces, i + 1)
  }

  function TextOf(pieces: seq<Piece>): string {
    TextFrom(pieces, 0)
  }

  function MeaningOf(p: Piece): Segment {
    match p
    case Word(_, name) => Symbol(name)
    case Index(_, value) => Subscript(value)
  }

  function Meaning(pieces: seq<Piece>): seq<Segment> {
    seq(|pieces|, i requires 0 <= i < |pieces| => MeaningOf(pieces[i]))
  }

  /** What the parser takes for a separator: a dot after a word, any character but a bracket after a subscript. */
  ghost predicate Separates(pieces: seq<Piece>, i: nat, sep: string)
    requires i <= |pieces|
  {
    if i == 0 then sep == ""
    else if pieces[i - 1].Word? then sep == "."
    else |sep| == 1 && sep[0] != '[' && sep[0] != '\0'
  }

  ghost predicate TakenAt(pieces: seq<Piece>, i: nat)
    requires i < |pieces|
  {
    match pieces[i]
    case Word(sep, name) => Separates(pieces, i, sep) && GoodSymbol(name)
    case Index(body, value) => i > 0 && Body(body, value) && '\0' !in body
  }

  /** The parser takes these pieces. */
  ghost predicate Taken(pieces: seq<Piece>) {
    |pieces| > 0 && forall i :: 0 <= i < |pieces| ==> TakenAt(pieces, i)
  }

  /** A character that a name may contain. */
  predicate IdBody(c: char) {
    Initial(c) || '0' <= c <= '9'
  }

  ghost predicate ProperAt(pieces: seq<Piece>, i: nat)
    requires i < |pieces|
  {
    match pieces[i]
    case Word(sep, name) =>
      && sep == (if i == 0 then "" else ".")
      && |name| > 0 && Initial(name[0]) && (forall k :: 0 <= k < |name| ==> IdBody(name[k]))
    case Index(body, value) => i > 0 && Numeral(body) && value == NumeralValue(body) < WORD - 1
  }

  /** The pieces follow the grammar: identifiers with dots before them, and numerals in brackets. */
  ghost predicate Proper(pieces: seq<Piece>) {
    |pieces| > 0 && forall i :: 0 <= i < |pieces| ==> ProperAt(pieces, i)
  }

  /** A name expression of the grammar. */
  ghost predicate IsName(text: string) {
    exists pieces :: Proper(pieces) && text == TextOf(pieces)
  }

  /** The parser accepts the text. */
  predicate Accepted(text: string) {
    Run(START, text).Parsed?
  }

  // ----- Taken texts are accepted with their meaning -----

  lemma {:induction false} BodyRun(p: Progress, b: string, value: nat, base: nat, rest: string)
    requires p.state == InSubscript(0, 0) && Reading(b, value, base)
    ensures Run(p, b + rest) == Run(p.(state := InSubscript(value, base)), rest)
    decreases |b|
  {
    hide Reading, SubscriptStep, Run;
    if |b| == 0 {
      assert b + rest == rest;
      ReadNothing(b, value, base);
    } else {
      var c, front := b[|b| - 1], b[..|b| - 1];
      var v, was := ReadBack(b, value, base);
      assert b + rest == front + ([c] + rest);
      BodyRun(p, front, v, was, [c] + rest);
      RunStep(p.(state := InSubscript(v, was)), c, rest);
    }
  }

  lemma ReadNothing(b: string, value: nat, base: nat)
    requires Reading(b, value, base) && |b| == 0
    ensures value == 0 && base == 0
  {
  }

  lemma IndexRun(p: Progress, body: string, value: nat, rest: string)
    requires p.state == InSubscript(0, 0) && Body(body, value)
    ensures Run(p, body + ("]" + rest)) == Run(Progress(AfterSubscript, p.segments + [Subscript(value)]), rest)
  {
    hide Reading, Run;
    var base :| base != 0 && Reading(body, value, base);
    ReadingBase(body, value, base);
    BodyRun(p, body, value, base, "]" + rest);
    RunStep(p.(state := InSubscript(value, base)), ']', rest);
  }

  lemma ReadingBase(b: string, value: nat, base: nat)
    requires Reading(b, value, base)
    ensures base in {0, 8, 10, 16}
  {
  }

  /** The parser stands behind the first `i` pieces. */
  ghost predicate Standing(p: Progress, pieces: seq<Piece>, i: nat)
    requires i <= |pieces|
  {
    if i == 0 then p == START
    else
      && (if pieces[i - 1].Word? then p.state.InSymbol? else p.state.AfterSubscript?)
      && Settled(p) == Meaning(pieces[..i])
  }

  lemma MeaningMore(pieces: seq<Piece>, i: nat)
    requires i < |pieces|
    ensures Meaning(pieces[..i + 1]) == Meaning(pieces[..i]) + [MeaningOf(pieces[i])]
    ensures Meaning(pieces[..0]) == [] && pieces[..|pieces|] == pieces
  {
  }

  lemma WordRun(segments: seq<Segment>, name: string, rest: string)
    requires GoodSymbol(name)
    ensures Run(Progress(Fresh, segments), name + rest) == Run(Progress(InSymbol(name), segments), rest)
  {
    hide Run;
    assert name + rest == [name[0]] + (name[1..] + rest);
    RunStep(Progress(Fresh, segments), name[0], name[1..] + rest);
    assert name[..1] == [name[0]] && name[..1] + name[1..] == name;
    SymbolRun(Progress(InSymbol(name[..1]), segments), name[..1], name[1..], rest);
  }

  lemma PieceRun(p: Progress, pieces: seq<Piece>, i: nat, rest: string) returns (next: Progress)
    requires i < |pieces| && Standing(p, pieces, i) && TakenAt(pieces, i)
    ensures Run(p, PieceText(pieces[i]) + rest) == Run(next, rest) && Standing(next, pieces, i + 1)
  {
    hide Run, Body, GoodSymbol;
    MeaningMore(pieces, i);
    var before := Meaning(pieces[..i]);
    match pieces[i]
    case Word(sep, name) =>
      next := Progress(InSymbol(name), before);
      if i > 0 {
        assert PieceText(pieces[i]) + rest == [sep[0]] + (name + rest);
        RunStep(p, sep[0], name + rest);
      } else {
        assert PieceText(pieces[i]) + rest == name + rest;
      }
      WordRun(before, name, rest);
    case Index(body, value) =>
      next := Progress(AfterSubscript, before + [Subscript(value)]);
      assert PieceText(pieces[i]) + rest == ['['] + (body + ("]" + rest));
      RunStep(p, '[', body + ("]" + rest));
      IndexRun(Progress(InSubscript(0, 0), before), body, value, rest);
  }

  lemma {:induction false} PiecesRun(p: Progress, pieces: seq<Piece>, i: nat)
    requires i <= |pieces| && Standing(p, pieces, i) && Taken(pieces)
    ensures Run(p, TextFrom(pieces, i)) == Parsed(Meaning(pieces))
    decreases |pieces| - i
  {
    if i == |pieces| {
      assert pieces[..i] == pieces;
    } else {
      hide Run, Standing, TakenAt;
      var next := PieceRun(p, pieces, i, TextFrom(pieces, i + 1));
      PiecesRun(next, pieces, i + 1);
    }
  }

  // ----- Accepted texts are taken piece by piece -----

  lemma {:induction false} TextFromMore(pieces: seq<Piece>, x: Piece, i: nat)
    requires i <= |pieces|
    ensures TextFrom(pieces + [x], i) == TextFrom(pieces, i) + PieceText(x)
    decreases |pieces| - i
  {
    if i == |pieces| {
      assert TextFrom(pieces + [x], i + 1) == "";
    } else {
      TextFromMore(pieces, x, i + 1);
      assert (pieces + [x])[i] == pieces[i];
    }
  }

  lemma TakenMore(pieces: seq<Piece>, x: Piece)
    requires pieces == [] || Taken(pieces)
    requires TakenAt(pieces + [x], |pieces|)
    ensures Taken(pieces + [x])
    ensures Meaning(pieces + [x]) == Meaning(pieces) + [MeaningOf(x)]
  {
    hide GoodSymbol, Body;
    var more := pieces + [x];
    forall i | 0 <= i < |more|
      ensures TakenAt(more, i)
    {
      if i < |pieces| {
        assert TakenAt(pieces, i);
      }
    }
  }

  /** What the parser has read: whole pieces, and the beginning of one more. */
  ghost predicate Tracks(p: Progress, pieces: seq<Piece>, extra: string) {
    match p.state
    case Fresh =>
      && (pieces == [] || Taken(pieces)) && Separates(pieces, |pieces|, extra) && p.segments == Meaning(pieces)
    case InSubscript(value, base) =>
      && Taken(pieces) && p.segments == Meaning(pieces)
      && |extra| > 0 && extra[0] == '[' && Reading(extra[1..], value, base) && '\0' !in extra
    case _ => Taken(pieces) && Standing(p, pieces, |pieces|) && extra == ""
  }

  lemma TrackFresh(p: Progress, pieces: seq<Piece>, extra: string, c: char)
    requires Tracks(p, pieces, extra) && p.state.Fresh? && Initial(c)
    ensures var more := pieces + [Word(extra, [c])];
            Tracks(p.(state := InSymbol([c])), more, "") && TextOf(more) == TextOf(pieces) + extra + [c]
  {
    hide Body, TextFrom, Taken, Meaning;
    var x, n := Word(extra, [c]), |pieces|;
    var more := pieces + [x];
    TextFromMore(pieces, x, 0);
    assert n > 0 ==> more[n - 1] == pieces[n - 1];
    InitialIsGood(c);
    assert TakenAt(more, n);
    TakenMore(pieces, x);
    assert more[..n + 1] == more;
    assert TextOf(pieces) + (extra + [c]) == TextOf(pieces) + extra + [c];
  }

  lemma InitialIsGood(c: char)
    requires Initial(c)
    ensures GoodSymbol([c])
  {
  }

  lemma LastWord(p: Progress, pieces: seq<Piece>)
    requires Tracks(p, pieces, "") && p.state.InSymbol?
    ensures var n := |pieces| - 1;
            && n >= 0 && pieces[n].Word? && pieces[n].name == p.state.symbol && p.segments == Meaning(pieces[..n])
            && TakenAt(pieces, n) && (pieces[..n] == [] || Taken(pieces[..n]))
  {
    hide Body;
    var n := |pieces| - 1;
    assert pieces[..n + 1] == pieces && TakenAt(pieces, n);
    MeaningMore(pieces, n);
    var all := Meaning(pieces);
    assert all[..n] == Meaning(pieces[..n]) && all[n] == Symbol(pieces[n].name);
    assert Settled(p)[..n] == p.segments;
    assert forall i :: 0 <= i < n ==> TakenAt(pieces, i) && pieces[..n][i] == pieces[i];
    assert forall i :: 0 <= i < n ==> TakenAt(pieces[..n], i);
  }

  lemma LongerName(name: string, c: char)
    requires GoodSymbol(name) && Plain(c)
    ensures GoodSymbol(name + [c])
  {
  }

  lemma TrackSymbol(p: Progress, pieces: seq<Piece>, c: char)
    requires Tracks(p, pieces, "") && p.state.InSymbol? && Plain(c)
    ensures var n := |pieces| - 1;
            && n >= 0 && pieces[n].Word?
            && var more := pieces[..n] + [Word(pieces[n].sep, pieces[n].name + [c])];
               Tracks(p.(state := InSymbol(p.state.symbol + [c])), more, "") && TextOf(more) == TextOf(pieces) + [c]
  {
    hide Body, GoodSymbol, Plain, TextFrom, Taken, Meaning;
    LastWord(p, pieces);
    var n := |pieces| - 1;
    var front, last := pieces[..n], pieces[n];
    var x := Word(last.sep, last.name + [c]);
    var more := front + [x];
    assert pieces == front + [last];
    TextFromMore(front, last, 0);
    TextFromMore(front, x, 0);
    LongerName(last.name, c);
    assert Separates(more, n, last.sep) by { assert n > 0 ==> more[n - 1] == pieces[n - 1]; }
    assert TakenAt(more, n);
    TakenMore(front, x);
    assert more[..n + 1] == more;
    assert PieceText(x) == PieceText(last) + [c];
  }

  lemma TrackIndex(p: Progress, pieces: seq<Piece>, extra: string, c: char)
    requires Tracks(p, pieces, extra) && p.state.InSubscript? && c != '\0'
    requires Step(p, c).Some? && Step(p, c).value.state.InSubscript?
    ensures Tracks(Step(p, c).value, pieces, extra + [c])
  {
    hide Taken, Reading, SubscriptStep;
    ReadMore(extra[1..], p.state.value, p.state.base, c);
    assert (extra + [c])[1..] == extra[1..] + [c];
  }

  lemma TrackClose(p: Progress, pieces: seq<Piece>, extra: string, c: char)
    requires Tracks(p, pieces, extra) && p.state.InSubscript?
    requires Step(p, c).Some? && Step(p, c).value.state.AfterSubscript?
    ensures var more := pieces + [Index(extra[1..], p.state.value)];
            Tracks(Step(p, c).value, more, "") && TextOf(more) == TextOf(pieces) + extra + [c]
  {
    hide Reading, TextFrom, Taken, Meaning, SubscriptStep;
    var x, n := Index(extra[1..], p.state.value), |pieces|;
    var more := pieces + [x];
    TextFromMore(pieces, x, 0);
    ClosedBy(p.state.value, p.state.base, c);
    assert Body(extra[1..], p.state.value);
    assert extra == "[" + extra[1..] && PieceText(x) == extra + "]";
    NotEmpty(pieces);
    assert TakenAt(more, n);
    TakenMore(pieces, x);
    assert more[..n + 1] == more;
    assert TextOf(pieces) + (extra + [c]) == TextOf(pieces) + extra + [c];
  }

  lemma ClosedBy(value: nat, base: nat, c: char)
    requires SubscriptStep(value, base, c) == Some(AfterSubscript)
    ensures c == ']' && base != 0
  {
  }

  /** One more character of the text. */
  lemma TrackStep(p: Progress, pieces: seq<Piece>, extra: string, c: char) returns (more: seq<Piece>, left: string)
    requires Tracks(p, pieces, extra) && c != '\0' && Step(p, c).Some?
    ensures Tracks(Step(p, c).value, more, left) && TextOf(more) + left == TextOf(pieces) + extra + [c]
  {
    hide TextFrom, Reading, SubscriptStep, GoodSymbol, Body;
    more, left := pieces, [c];
    assert pieces[..|pieces|] == pieces && [c][1..] == "";
    assert TextOf(pieces) + "" == TextOf(pieces);
    match p.state
    case Fresh =>
      more, left := pieces + [Word(extra, [c])], "";
      TrackFresh(p, pieces, extra, c);
    case InSymbol(symbol) =>
      if c != '.' && c != '[' {
        var n := |pieces| - 1;
        LastWord(p, pieces);
        more, left := pieces[..n] + [Word(pieces[n].sep, pieces[n].name + [c])], "";
        TrackSymbol(p, pieces, c);
      } else {
        LastWord(p, pieces);
        NothingRead();
      }
    case InSubscript(value, base) =>
      if Step(p, c).value.state.AfterSubscript? {
        more, left := pieces + [Index(extra[1..], value)], "";
        TrackClose(p, pieces, extra, c);
      } else {
        left := extra + [c];
        StaysInside(value, base, c);
        TrackIndex(p, pieces, extra, c);
      }
    case AfterSubscript => NothingRead();
  }

  lemma NothingRead()
    ensures Reading("", 0, 0)
  {
  }

  lemma StaysInside(value: nat, base: nat, c: char)
    ensures SubscriptStep(value, base, c).Some? ==>
              SubscriptStep(value, base, c).value.AfterSubscript? || SubscriptStep(value, base, c).value.InSubscript?
  {
  }

  lemma RunFirst(p: Progress, text: string)
    requires |text| > 0 && Run(p, text).Parsed?
    ensures Step(p, text[0]).Some? && Run(p, text) == Run(Step(p, text[0]).value, text[1..])
  {
  }

  lemma Regrouped(front: string, rest: string)
    requires |rest| > 0
    ensures front + [rest[0]] + rest[1..] == front + rest
  {
  }

  lemma {:induction false} RunIsTaken(p: Progress, pieces: seq<Piece>, extra: string, rest: string) returns (all: seq<Piece>)
    requires Tracks(p, pieces, extra) && '\0' !in rest && Run(p, rest).Parsed?
    ensures Taken(all) && TextOf(all) == TextOf(pieces) + extra + rest && Meaning(all) == Run(p, rest).segments
    decreases |rest|
  {
    if |rest| == 0 {
      all := pieces;
      assert pieces[..|pieces|] == pieces && TextOf(pieces) + "" + "" == TextOf(pieces);
    } else {
      hide Tracks, Step, TextFrom, Taken, Run, Meaning, TextOf;
      RunFirst(p, rest);
      var more, left := TrackStep(p, pieces, extra, rest[0]);
      all := RunIsTaken(Step(p, rest[0]).value, more, left, rest[1..]);
      Regrouped(TextOf(pieces) + extra, rest);
    }
  }

  /** The parser accepts a text, with these segments, iff it is made of pieces that the parser takes, with this meaning. */
  lemma AcceptedIffTaken(text: string, segments: seq<Segment>)
    requires '\0' !in text
    ensures Run(START, text) == Parsed(segments) <==>
            exists pieces :: Taken(pieces) && TextOf(pieces) == text && Meaning(pieces) == segments
  {
    hide Run, Taken, TextFrom;
    if Run(START, text) == Parsed(segments) {
      assert Tracks(START, [], "") && TextOf([]) == "" by { NothingTracked(); }
      var pieces := RunIsTaken(START, [], "", text);
      assert "" + "" + text == text;
    }
    forall pieces | Taken(pieces) && TextOf(pieces) == text && Meaning(pieces) == segments
      ensures Run(START, text) == Parsed(segments)
    {
      PiecesRun(START, pieces, 0);
    }
  }

  lemma NothingTracked()
    ensures Tracks(START, [], "") && TextOf([]) == ""
  {
  }

  // ----- A text has one description -----

  lemma NotShorter(a: string, x: string, b: string, y: string, outside: set<char>)
    requires a + x == b + y && forall c :: c in b ==> c !in outside
    requires x == "" || x[0] in outside
    ensures |b| <= |a|
  {
    assert forall i :: 0 <= i < |b| ==> (b + y)[i] == b[i] && b[i] in b;
    assert x != "" ==> (a + x)[|a|] == x[0];
  }

  /** There is one way to split a text after a run of characters that the rest does not begin with. */
  lemma SameSplit(a: string, x: string, b: string, y: string, outside: set<char>)
    requires a + x == b + y
    requires (forall c :: c in a ==> c !in outside) && (forall c :: c in b ==> c !in outside)
    requires (x == "" || x[0] in outside) && (y == "" || y[0] in outside)
    ensures a == b && x == y
  {
    NotShorter(a, x, b, y, outside);
    NotShorter(b, y, a, x, outside);
    assert a == (a + x)[..|a|] && b == (b + y)[..|b|] && x == (a + x)[|a|..] && y == (b + y)[|b|..];
  }

  lemma {:induction false} BodyHasNoBracket(b: string, value: nat)
    requires Body(b, value)
    ensures |b| > 0 && ']' !in b[1..]
  {
    hide Wrapped, NoError;
    var base :| base != 0 && Reading(b, value, base);
    ReadingBase(b, value, base);
    if base == 16 {
      var j: nat :| HexFrom(b, j) && value == Wrapped(16, b[j + 1..]);
      assert b[1..] == b[1..j] + [b[j]] + b[j + 1..];
    }
  }

  /** A body has one value. */
  lemma BodyHasOneValue(b: string, v1: nat, v2: nat)
    requires Body(b, v1) && Body(b, v2)
    ensures v1 == v2
  {
    hide Reading, Run;
    IndexRun(Progress(InSubscript(0, 0), []), b, v1, "");
    IndexRun(Progress(InSubscript(0, 0), []), b, v2, "");
    SettledRun([Subscript(v1)]);
    SettledRun([Subscript(v2)]);
  }

  lemma SettledRun(segments: seq<Segment>)
    ensures Run(Progress(AfterSubscript, segments), "") == Parsed(segments)
    ensures |segments| > 0 ==> [] + segments == segments
  {
  }

  /** What comes after a piece, if anything, begins with a separator or a bracket. */
  lemma RestBegins(pieces: seq<Piece>, i: nat)
    requires Taken(pieces) && 0 < i <= |pieces|
    ensures i == |pieces| <==> TextFrom(pieces, i) == ""
    ensures i < |pieces| && pieces[i].Index? ==> TextFrom(pieces, i)[0] == '['
    ensures i < |pieces| && pieces[i].Word? ==>
              |pieces[i].sep| == 1 && TextFrom(pieces, i)[0] == pieces[i].sep[0] && pieces[i].sep[0] != '['
    ensures i < |pieces| && pieces[i].Word? && pieces[i - 1].Word? ==> pieces[i].sep == "."
  {
    hide Body, GoodSymbol;
    if i < |pieces| {
      assert TakenAt(pieces, i);
    }
  }

  lemma SameWord(s1: string, n: string, x: string, s2: string, m: string, y: string)
    requires |s1| == |s2| <= 1 && s1 + n + x == s2 + m + y
    ensures s1 == s2 && n + x == m + y
  {
    var t := s1 + n + x;
    assert s1 == t[..|s1|] && s2 == t[..|s2|] && n + x == t[|s1|..] && m + y == t[|s2|..];
  }

  lemma SameIndex(b: string, x: string, d: string, y: string)
    requires |b| > 0 && |d| > 0 && ']' !in b[1..] && ']' !in d[1..]
    requires "[" + b + "]" + x == "[" + d + "]" + y
    ensures b == d && x == y
  {
    var t, u, v := "[" + b + "]" + x, "]" + x, "]" + y;
    assert t[1] == b[0] && t[1] == d[0] && t[2..] == b[1..] + u && t[2..] == d[1..] + v;
    SameSplit(b[1..], u, d[1..], v, {']'});
    assert u[1..] == x && v[1..] == y && b == [b[0]] + b[1..] && d == [d[0]] + d[1..];
  }

  lemma SamePiece(p: seq<Piece>, q: seq<Piece>, i: nat)
    requires Taken(p) && Taken(q) && i < |p| && i < |q| && p[..i] == q[..i]
    requires TextFrom(p, i) == TextFrom(q, i) && p[i].Word? == q[i].Word?
    ensures p[i] == q[i] && TextFrom(p, i + 1) == TextFrom(q, i + 1)
  {
    hide Body, TextFrom;
    assert TakenAt(p, i) && TakenAt(q, i);
    assert i > 0 ==> p[i - 1] == p[..i][i - 1] && q[i - 1] == q[..i][i - 1];
    var x, y := TextFrom(p, i + 1), TextFrom(q, i + 1);
    FirstPiece(p, i);
    FirstPiece(q, i);
    RestBegins(p, i + 1);
    RestBegins(q, i + 1);
    if p[i].Word? {
      SameWord(p[i].sep, p[i].name, x, q[i].sep, q[i].name, y);
      SameSplit(p[i].name, x, q[i].name, y, {'.', '['});
    } else {
      BodyHasNoBracket(p[i].body, p[i].value);
      BodyHasNoBracket(q[i].body, q[i].value);
      SameIndex(p[i].body, x, q[i].body, y);
      BodyHasOneValue(p[i].body, p[i].value, q[i].value);
    }
  }

  lemma FirstPiece(pieces: seq<Piece>, i: nat)
    requires i < |pieces|
    ensures TextFrom(pieces, i) == PieceText(pieces[i]) + TextFrom(pieces, i + 1)
  {
  }

  lemma {:induction false} OneDescription(p: seq<Piece>, q: seq<Piece>, i: nat)
    requires Taken(p) && Taken(q) && i <= |p| && i <= |q| && p[..i] == q[..i] && TextFrom(p, i) == TextFrom(q, i)
    ensures p == q
    decreases |p| - i
  {
    hide Taken, TextFrom;
    if i == 0 {
      NotEmpty(p);
      NotEmpty(q);
    } else {
      RestBegins(p, i);
      RestBegins(q, i);
    }
    if i < |p| {
      SamePiece(p, q, i);
      assert p[..i + 1] == p[..i] + [p[i]] && q[..i + 1] == q[..i] + [q[i]];
      OneDescription(p, q, i + 1);
    } else {
      assert p[..i] == p && q[..i] == q;
    }
  }

  lemma NotEmpty(pieces: seq<Piece>)
    requires Taken(pieces)
    ensures |pieces| > 0 && pieces[0].Word?
  {
    assert TakenAt(pieces, 0);
  }

  // ----- Where the parser is lax -----

  lemma {:induction false} FoldGrows(base: nat, s: string, k: nat)
    requires base > 0 && k <= |s|
    ensures Fold(base, s[..k]) <= Fold(base, s)
    decreases |s|
  {
    if k == |s| {
      assert s[..k] == s;
    } else {
      var front := s[..|s| - 1];
      FoldGrows(base, front, k);
      assert front[..k] == s[..k];
      Times(Fold(base, front), base);
    }
  }

  lemma Times(x: nat, base: nat)
    requires base > 0
    ensures x <= x * base
  {
  }

  lemma {:induction false} WrappedIsFold(base: nat, s: string)
    requires base > 0 && Fold(base, s) < WORD
    ensures Wrapped(base, s) == Fold(base, s)
    decreases |s|
  {
    hide Fold, Wrapped, DigitValue;
    if |s| == 0 {
      FoldOfNothing(base);
    } else {
      var front, c := s[..|s| - 1], s[|s| - 1];
      assert s == front + [c];
      FoldGrows(base, s, |s| - 1);
      WrappedIsFold(base, front);
      WrappedMore(base, front, c);
      FoldMore(base, front, c);
      Unchanged(Fold(base, s));
    }
  }

  lemma FoldMore(base: nat, s: string, c: char)
    ensures Fold(base, s + [c]) == Fold(base, s) * base + DigitValue(c)
  {
    assert (s + [c])[..|s|] == s;
  }

  lemma Unchanged(x: nat)
    requires x < WORD
    ensures x % WORD == x
  {
  }

  lemma NoErrorBelow(base: nat, s: string)
    requires base > 0 && Fold(base, s) < WORD - 1
    ensures NoError(base, s) && Wrapped(base, s) == Fold(base, s)
  {
    WrappedIsFold(base, s);
    forall k | 0 < k <= |s|
      ensures Wrapped(base, s[..k]) != WORD - 1
    {
      FoldGrows(base, s, k);
      WrappedIsFold(base, s[..k]);
    }
  }

  lemma {:induction false} FoldPositive(o: string, k: nat)
    requires AllDigits(8, o) && 0 < k <= |o| && o[0] != '0'
    ensures Fold(8, o[..k]) > 0
    decreases k
  {
    var t := o[..k];
    if k > 1 {
      FoldPositive(o, k - 1);
      assert t[..k - 1] == o[..k - 1];
    } else {
      assert t[..0] == "" && t[0] == o[0];
    }
  }

  predicate BadDigit(b: string) {
    |b| == 0 || !('0' <= b[0] <= '9')
  }

  predicate NoHexDigits(b: string) {
    b == "0x" || b == "0X"
  }

  /** Some part of the digits is a numeral that does not fit into 32 bits. */
  ghost predicate TooLarge(b: string) {
    exists k :: 0 <= k <= |b| && LargeTo(b, k)
  }

  ghost predicate LargeTo(b: string, k: nat)
    requires k <= |b|
  {
    Numeral(b[..k]) && NumeralValue(b[..k]) >= WORD
  }

  lemma PrefixValue(b: string, k: nat)
    requires Numeral(b) && k <= |b| && Numeral(b[..k])
    ensures NumeralValue(b[..k]) <= NumeralValue(b)
  {
    hide Fold, AllDigits;
    var t := b[..k];
    assert t[0] == b[0];
    if b[0] != '0' {
      FoldGrows(10, b, k);
    } else if |t| > 1 {
      assert t[1] == b[1];
      if b[1] == 'x' || b[1] == 'X' {
        assert t[2..] == b[2..][..k - 2];
        FoldGrows(16, b[2..], k - 2);
      } else {
        assert t[1..] == b[1..][..k - 1];
        FoldGrows(8, b[1..], k - 1);
      }
    } else {
      assert t[1..] == "";
      FoldOfNothing(8);
    }
  }

  lemma FoldOfNothing(base: nat)
    ensures Fold(base, "") == 0 && Wrapped(base, "") == 0
  {
  }

  /** A numeral that is small enough is taken, with its value. */
  lemma NumeralIsTaken(b: string)
    requires Numeral(b) && NumeralValue(b) < WORD - 1
    ensures Body(b, NumeralValue(b))
  {
    hide Wrapped, Fold, NoError;
    if b[0] != '0' {
      NoErrorBelow(10, b);
      assert Reading(b, NumeralValue(b), 10);
    } else if |b| > 1 && (b[1] == 'x' || b[1] == 'X') {
      NoErrorBelow(16, b[2..]);
      NothingFollows();
      assert b[1..1] == "";
      assert HexFrom(b, 1);
      assert Reading(b, NumeralValue(b), 16);
    } else {
      NoErrorBelow(8, b[1..]);
      OctalIsTaken(b[1..]);
      assert Reading(b, NumeralValue(b), 8);
    }
  }

  lemma OctalIsTaken(o: string)
    requires AllDigits(8, o) && Fold(8, o) < WORD - 1 && (|o| > 0 ==> o[0] != '0')
    ensures OctalPart(o)
  {
    hide Wrapped, Fold;
    NoErrorBelow(8, o);
    forall k | 0 <= k < |o| && Wrapped(8, o[..k]) == 0
      ensures o[k] != '0'
    {
      if k > 0 {
        FoldPositive(o, k);
        FoldGrows(8, o, k);
        WrappedIsFold(8, o[..k]);
      }
    }
  }

  /** What is taken between brackets is a numeral, with its value, unless one of three guards fails. */
  lemma TakenIsNumeral(b: string, value: nat)
    requires Body(b, value)
    ensures Numeral(b) && value == NumeralValue(b) < WORD - 1 <==> !BadDigit(b) && !NoHexDigits(b) && !TooLarge(b)
  {
    if Numeral(b) && value == NumeralValue(b) < WORD - 1 {
      SmallNumeral(b);
    }
    if !BadDigit(b) && !NoHexDigits(b) && !TooLarge(b) {
      StrictBody(b, value);
    }
  }

  lemma SmallNumeral(b: string)
    requires Numeral(b) && NumeralValue(b) < WORD - 1
    ensures !BadDigit(b) && !NoHexDigits(b) && !TooLarge(b)
  {
    hide Fold, NumeralValue;
    forall k | 0 <= k <= |b| && LargeTo(b, k)
      ensures false
    {
      PrefixValue(b, k);
    }
  }

  lemma StrictBody(b: string, value: nat)
    requires Body(b, value) && !BadDigit(b) && !NoHexDigits(b) && !TooLarge(b)
    ensures Numeral(b) && value == NumeralValue(b) < WORD - 1
  {
    hide Wrapped, Fold, NoError, TooLarge;
    var base :| base != 0 && Reading(b, value, base);
    ReadingBase(b, value, base);
    assert b[..|b|] == b;
    if base == 10 {
      assert AllDigits(10, b) by { assert b == [b[0]] + b[1..]; }
      StrictDigits(10, b, b, |b|);
    } else if base == 8 {
      var o := b[1..];
      NothingFollows();
      FoldOfNothing(8);
      assert |o| > 0 ==> o[..0] == "" && o[0] == b[1];
      assert |o| == 0 ==> b == "0";
      StrictDigits(8, o, b, |b|);
    } else {
      StrictHex(b, value);
    }
  }

  /** Digits that make up a numeral which is not too large, and do not come to the error code. */
  lemma StrictDigits(base: nat, digits: string, b: string, k: nat)
    requires base > 0 && k <= |b| && NoError(base, digits) && !TooLarge(b)
    requires Numeral(b[..k]) && NumeralValue(b[..k]) == Fold(base, digits)
    ensures Fold(base, digits) < WORD - 1 && Wrapped(base, digits) == Fold(base, digits)
  {
    hide Numeral, NumeralValue;
    assert !LargeTo(b, k);
    WrappedIsFold(base, digits);
    if |digits| == 0 {
      FoldOfNothing(base);
    } else {
      assert digits[..|digits|] == digits;
    }
  }

  lemma StrictHex(b: string, value: nat)
    requires Reading(b, value, 16) && !NoHexDigits(b) && !TooLarge(b)
    ensures Numeral(b) && value == NumeralValue(b) < WORD - 1
  {
    hide Wrapped, Fold, NoError, TooLarge;
    var j: nat :| HexFrom(b, j) && value == Wrapped(16, b[j + 1..]);
    if j > 1 {
      var o := b[1..j];
      assert b[..j][1..] == o && o[..0] == "" && o[..|o|] == o;
      NothingFollows();
      StrictDigits(8, o, b, j);
      FoldPositive(o, |o|);
      assert false;
    } else {
      assert b[..|b|] == b;
      StrictDigits(16, b[2..], b, |b|);
    }
  }

  /** A piece that the parser takes although the grammar does not have it. */
  ghost predicate Fails(pieces: seq<Piece>, i: nat)
    requires i < |pieces|
  {
    match pieces[i]
    case Word(sep, name) => (i > 0 && sep != ".") || exists k :: 0 <= k < |name| && !IdBody(name[k])
    case Index(body, _) => BadDigit(body) || NoHexDigits(body) || TooLarge(body)
  }

  lemma ProperUnlessFails(pieces: seq<Piece>, i: nat)
    requires i < |pieces| && TakenAt(pieces, i)
    ensures ProperAt(pieces, i) <==> !Fails(pieces, i)
  {
    hide Numeral, NumeralValue, BadDigit, NoHexDigits, TooLarge, Body;
    match pieces[i]
    case Word(_, _) =>
    case Index(body, value) => TakenIsNumeral(body, value);
  }

  lemma ProperIsTaken(pieces: seq<Piece>)
    requires Proper(pieces)
    ensures Taken(pieces)
  {
    hide Numeral, NumeralValue, Body;
    forall i | 0 <= i < |pieces|
      ensures TakenAt(pieces, i)
    {
      assert ProperAt(pieces, i) && (i > 0 ==> ProperAt(pieces, i - 1));
      match pieces[i]
      case Word(_, _) =>
      case Index(body, _) =>
        NumeralIsTaken(body);
        NumeralHasNoEnd(body);
    }
  }

  lemma NumeralHasNoEnd(b: string)
    requires Numeral(b)
    ensures '\0' !in b
  {
    if |b| > 2 {
      assert b == [b[0]] + [b[1]] + b[2..];
    }
    if |b| > 1 {
      assert b == [b[0]] + b[1..];
    }
  }

  /** Every name of the grammar is accepted with its meaning. */
  lemma NamesAreAccepted(pieces: seq<Piece>)
    requires Proper(pieces)
    ensures Run(START, TextOf(pieces)) == Parsed(Meaning(pieces))
  {
    ProperIsTaken(pieces);
    PiecesRun(START, pieces, 0);
  }

  /** The text has a piece that the parser takes although the grammar does not have it. */
  ghost predicate TakenInPart(text: string) {
    exists pieces :: Taken(pieces) && TextOf(pieces) == text && exists i :: 0 <= i < |pieces| && Fails(pieces, i)
  }

  /**
   The parser accepts a text that is not a name of the grammar iff the text is made of pieces that
   the parser takes, and a guard fails at one of them: the separator after a subscript is not a dot,
   a word has a character that is no letter, digit, underscore or dollar sign, a subscript begins
   with no digit, it is hexadecimal without digits, or its numeral does not fit into 32 bits.
   */
  lemma AcceptedButNoName(text: string)
    requires '\0' !in text
    ensures Accepted(text) && !IsName(text) <==> TakenInPart(text)
  {
    hide Run, TextFrom, Taken, Proper, Fails;
    if Accepted(text) && !IsName(text) {
      AcceptedIffTaken(text, Run(START, text).segments);
      var pieces :| Taken(pieces) && TextOf(pieces) == text;
      ProperIfNoneFails(pieces);
    }
    if TakenInPart(text) {
      var p, i :| Taken(p) && TextOf(p) == text && 0 <= i < |p| && Fails(p, i);
      AcceptedIffTaken(text, Meaning(p));
      forall q | Proper(q) && TextOf(q) == text
        ensures false
      {
        ProperIsTaken(q);
        OneDescription(p, q, 0);
        ProperIfNoneFails(p);
      }
    }
  }

  lemma ProperIfNoneFails(pieces: seq<Piece>)
    requires Taken(pieces)
    ensures Proper(pieces) <==> forall i :: 0 <= i < |pieces| ==> !Fails(pieces, i)
  {
    hide TakenAt, ProperAt, Fails;
    forall i | 0 <= i < |pieces|
      ensures ProperAt(pieces, i) <==> !Fails(pieces, i)
    {
      assert TakenAt(pieces, i);
      ProperUnlessFails(pieces, i);
    }
  }

  /** The parser reads past the end of a text iff it ends with a bracket after pieces that the parser takes. */
  lemma PastEndIffOpenBracket(text: string)
    requires '\0' !in text
    ensures Run(START, text).PastEnd? <==>
            |text| > 0 && text[|text| - 1] == '['
            && exists pieces :: Taken(pieces) && TextOf(pieces) == text[..|text| - 1]
  {
    hide Run, TextFrom, Taken;
    PastEndAfterAccepted(START, text);
    if |text| > 0 {
      var front := text[..|text| - 1];
      if Run(START, front).Parsed? {
        AcceptedIffTaken(front, Run(START, front).segments);
      }
      forall pieces | Taken(pieces) && TextOf(pieces) == front
        ensures Run(START, front).Parsed?
      {
        AcceptedIffTaken(front, Meaning(pieces));
      }
    }
  }

  /** In particular, an opening bracket after any name of the grammar makes the parser run over the end. */
  lemma NameWithOpenBracket(pieces: seq<Piece>)
    requires Proper(pieces)
    ensures Run(START, TextOf(pieces) + "[").PastEnd?
  {
    hide Run, TextFrom;
    NamesAreAccepted(pieces);
    var text := TextOf(pieces) + "[";
    assert text[..|text| - 1] == TextOf(pieces);
    PastEndAfterAccepted(START, text);
  }

  // ----- Examples -----

  /** Hexadecimal digits may be missing. */
  lemma NoDigitsNeeded()
    ensures Run(START, "a[0x]") == Parsed([Symbol("a"), Subscript(0)])
  {
  }

  /** A large subscript is taken for a small one. */
  lemma SubscriptsWrap(rest: string)
    ensures Run(Progress(InSubscript(0, 0), [Symbol("a")]), Decimal(429496729) + ("8]" + rest)) ==
            Run(Progress(AfterSubscript, [Symbol("a"), Subscript(2)]), rest)
  {
    hide Run, Decimal;
    var p := Progress(InSubscript(0, 0), [Symbol("a")]);
    DecimalRun(p, 429496729, "8]" + rest);
    assert "8]" + rest == ['8'] + ("]" + rest);
    RunStep(p.(state := InSubscript(429496729, 10)), '8', "]" + rest);
    RunStep(p.(state := InSubscript(2, 10)), ']', rest);
    assert [Symbol("a")] + [Subscript(2)] == [Symbol("a"), Subscript(2)];
  }
}
