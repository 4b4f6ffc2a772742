/** JSON text that goes wrong inside a token: numbers, words and strings. */
module Faults {
  import opened Bytes
  import opened Errors
  import opened Escape
  import opened Nodes
  import opened Lexer
  import opened Parser
  import opened RoundTrip
  import opened Numerals
  import opened Numbers
  import opened Strings
  import opened Documents
  import opened Refusals

  // ---- numbers and words -----------------------------------------------------------------------------

  /** The bytes that end a number or a word: white space and " , : [ \ ] { }. */
  predicate EndsBare(c: byte) { IsBlank(c) || c in [0x22, 0x2c, 0x3a, 0x5b, 0x5c, 0x5d, 0x7b, 0x7d] }

  /** A number that breaks off. A fraction or an exponent that is there may still have no digits. */
  datatype Broken =
    | Dashed
    | Whole(n: Numeral)
    | Pointed(n: Numeral, digits: bytes)
    | Marked(n: Numeral, mark: byte, sign: Option<byte>, digits: bytes)

  predicate BrokenFits(b: Broken) {
    match b
    case Dashed => true
    case Whole(n) => NumeralFits(n) && IsWhole(n)
    case Pointed(n, ds) => NumeralFits(n) && IsWhole(n) && Decimals(ds)
    case Marked(n, mark, sign, ds) =>
      && NumeralFits(n) && n.exponent.None? && (mark == 0x65 || mark == 0x45) && Decimals(ds)
      && (sign.Some? ==> sign.value == 0x2d || sign.value == 0x2b)
  }

  function BrokenText(b: Broken): bytes {
    match b
    case Dashed => [0x2d]
    case Whole(n) => NumeralText(n)
    case Pointed(n, ds) => NumeralText(n) + ([0x2e] + ds)
    case Marked(n, mark, sign, ds) => NumeralText(n) + ([mark] + ((if sign.None? then [] else [sign.value]) + ds))
  }

  /**
   The bytes that make it an invalid number. The lexer lets some through that no JSON number has: digits
   behind -0, an exponent behind a bare point, a point behind an exponent.
   */
  predicate Breaks(b: Broken, c: byte) {
    var digit, mark, sign := 0x30 <= c <= 0x39, c == 0x65 || c == 0x45, c == 0x2d || c == 0x2b;
    match b
    case Dashed => !digit
    case Whole(n) =>
      if digit then n.whole == [0x30] && !n.negative else c != 0x2e && !mark && !EndsBare(c)
    case Pointed(n, ds) => !digit && !mark && (ds == [] || !EndsBare(c))
    case Marked(n, _, sg, ds) =>
      if c == 0x2e then n.fraction.Some?
      else if sign then sg.Some? || ds != []
      else !digit && (ds == [] || !EndsBare(c))
  }

  /** Behind the broken number. */
  lemma ReadBroken(inp: Input, s: Lex, nodes: seq<Node>, b: Broken, rest: bytes) returns (r: IntegerRead)
    requires ValueReady(s) && |s.frames| < |s.nescapes| && BrokenFits(b)
    ensures BrokenFlags(b, r) && Gets(inp, s, nodes, BrokenText(b), r, rest)
  {
    hide ParseBytes, ParseByte, Step, Within, ValueReady, NumeralText, NumeralFits;
    match b
    case Dashed =>
      assert SpecialStart(MINUS) == Dash;
      r := IntegerRead(Dash, 0, MINUS);
      DashWithin(inp, s, nodes, rest);
      WithinValid(s, r, 1);
    case Whole(n) =>
      r := ReadNumeral(inp, s, nodes, n, rest);
      WithinValid(s, r, |NumeralText(n)|);
    case Pointed(n, ds) => r := ReadPointed(inp, s, nodes, n, ds, rest);
    case Marked(n, mark, sign, ds) => r := ReadMarked(inp, s, nodes, n, mark, sign, ds, rest);
  }

  lemma ReadPointed(inp: Input, s: Lex, nodes: seq<Node>, n: Numeral, ds: bytes, rest: bytes) returns (r: IntegerRead)
    requires ValueReady(s) && |s.frames| < |s.nescapes| && NumeralFits(n) && IsWhole(n) && Decimals(ds)
    ensures r.sp.Numeric? && r.sp.float && !r.sp.exponent && r.tokLast == if ds == [] then 0x2e else 0x31
    ensures Gets(inp, s, nodes, NumeralText(n) + ([0x2e] + ds), r, rest)
  {
    hide ParseBytes, ParseByte, Step, Within, ValueReady, NumeralText, NumeralFits, Decimals;
    assert NumeralText(n) + ([0x2e] + ds) + rest == NumeralText(n) + ([0x2e] + (ds + rest));
    r := ReadNumeral(inp, s, nodes, n, [0x2e] + (ds + rest));
    r := ReadPoint(inp, s, nodes, r, |NumeralText(n)|, ds, rest);
    WithinValid(s, r, |NumeralText(n)| + 1 + |ds|);
  }

  lemma ReadMarked(inp: Input, s: Lex, nodes: seq<Node>, n: Numeral, mark: byte, sign: Option<byte>, ds: bytes,
                   rest: bytes) returns (r: IntegerRead)
    requires ValueReady(s) && |s.frames| < |s.nescapes| && BrokenFits(Marked(n, mark, sign, ds))
    ensures BrokenFlags(Marked(n, mark, sign, ds), r)
    ensures Gets(inp, s, nodes, BrokenText(Marked(n, mark, sign, ds)), r, rest)
  {
    hide ParseBytes, ParseByte, Step, Within, ValueReady, NumeralText, NumeralFits, Decimals;
    var signed, text := if sign.None? then [] else [sign.value], NumeralText(n);
    assert text + ([mark] + (signed + ds)) + rest == text + ([mark] + (signed + (ds + rest)));
    r := ReadNumeral(inp, s, nodes, n, [mark] + (signed + (ds + rest)));
    r := ReadMark(inp, s, nodes, r, |text|, mark, sign, ds, rest);
    WithinValid(s, r, |text| + 1 + |signed| + |ds|);
  }

  /** The registers there. */
  predicate BrokenFlags(b: Broken, r: IntegerRead) {
    match b
    case Dashed => r.sp == Dash
    case Whole(n) => WholeFlags(n, r)
    case Pointed(_, ds) =>
      r.sp.Numeric? && r.sp.float && !r.sp.exponent && r.tokLast == if ds == [] then 0x2e else 0x31
    case Marked(n, _, sign, ds) =>
      && r.sp.Numeric? && r.sp.exponent && r.sp.float == n.fraction.Some?
      && r.tokLast == if ds != [] then 0x31 else if sign.Some? then 0x2d else 0x65
  }

  lemma DashWithin(inp: Input, s: Lex, nodes: seq<Node>, rest: bytes)
    requires ValueReady(s) && |s.frames| < |s.nescapes|
    ensures ParseBytes(inp, Parsing(s, nodes), [0x2d] + rest)
         == ParseBytes(inp, Parsing(Within(s, IntegerRead(Dash, 0, MINUS), 1), nodes), rest)
  {
    hide ParseBytes;
    BarewordStarts(inp, s, nodes, MINUS, rest);
  }

  lemma ReadPoint(inp: Input, s: Lex, nodes: seq<Node>, r: IntegerRead, k: nat, ds: bytes, rest: bytes)
    returns (r': IntegerRead)
    requires ValueReady(s) && |s.frames| < |s.nescapes| && Decimals(ds)
    requires Numbered(r.sp).Numeric? && !Numbered(r.sp).float && !Numbered(r.sp).exponent
    ensures r'.sp.Numeric? && r'.sp.float && !r'.sp.exponent && r'.tokLast == if ds == [] then 0x2e else 0x31
    ensures ParseBytes(inp, Parsing(Within(s, r, k), nodes), [0x2e] + (ds + rest))
         == ParseBytes(inp, Parsing(Within(s, r', k + 1 + |ds|), nodes), rest)
  {
    hide ParseBytes, ParseByte, Step, Within, ValueReady;
    r' := IntegerRead(Numbered(r.sp).(float := true), r.nelem, 0x2e);
    PointStep(s, r, k);
    OneByte(inp, s, nodes, r, r', k, 0x2e, ds + rest);
    ReadDigits(inp, s, nodes, r', k + 1, ds, rest);
    if ds != [] { r' := r'.(tokLast := 0x31); }
  }

  lemma ReadMark(inp: Input, s: Lex, nodes: seq<Node>, r: IntegerRead, k: nat, mark: byte, sign: Option<byte>,
                 ds: bytes, rest: bytes) returns (r': IntegerRead)
    requires ValueReady(s) && |s.frames| < |s.nescapes| && Decimals(ds) && (mark == 0x65 || mark == 0x45)
    requires sign.Some? ==> sign.value == 0x2d || sign.value == 0x2b
    requires Numbered(r.sp).Numeric? && !Numbered(r.sp).exponent
    ensures r'.sp.Numeric? && r'.sp.exponent && r'.sp.float == Numbered(r.sp).float
    ensures r'.tokLast == if ds != [] then 0x31 else if sign.Some? then 0x2d else 0x65
    ensures var signed := if sign.None? then [] else [sign.value];
      ParseBytes(inp, Parsing(Within(s, r, k), nodes), [mark] + (signed + (ds + rest)))
      == ParseBytes(inp, Parsing(Within(s, r', k + 1 + |signed| + |ds|), nodes), rest)
  {
    hide ParseBytes, ParseByte, Step, Within, ValueReady;
    var signed := if sign.None? then [] else [sign.value];
    r' := IntegerRead(Numbered(r.sp).(exponent := true), r.nelem, 0x65);
    MarkStep(s, r, k, mark);
    OneByte(inp, s, nodes, r, r', k, mark, signed + (ds + rest));
    if sign.Some? {
      SignStep(s, r', k + 1, sign.value);
      OneByte(inp, s, nodes, r', r'.(tokLast := 0x2d), k + 1, sign.value, ds + rest);
      r' := r'.(tokLast := 0x2d);
    } else {
      assert signed + (ds + rest) == ds + rest;
    }
    ReadDigits(inp, s, nodes, r', k + 1 + |signed|, ds, rest);
    if ds != [] { r' := r'.(tokLast := 0x31); }
  }

  lemma BreakStep(s: Lex, b: Broken, r: IntegerRead, k: nat, c: byte)
    requires ValueReady(s) && |s.frames| < |s.nescapes| && BrokenFits(b) && BrokenFlags(b, r) && Breaks(b, c)
    ensures Valid(Within(s, r, k))
    ensures Step(Within(s, r, k), c) == Fail(InvalidNumber, [], Within(s, r, k).nescapes)
  {
    hide NumeralFits, Within;
    WithinValid(s, r, k);
    var s1 := Within(s, r, k);
    WithinLast(s, r, k);
    match b
    case Dashed =>
    case Whole(n) => WholeBreaks(s1, n, r, c);
    case Pointed(_, _) => FloatBreaks(s1, b, r, c);
    case Marked(_, _, _, _) => FloatBreaks(s1, b, r, c);
  }

  lemma WithinLast(s: Lex, r: IntegerRead, k: nat)
    requires ValueReady(s) && |s.frames| < |s.nescapes|
    ensures Within(s, r, k).tokLast == r.tokLast
  {
  }

  lemma WholeBreaks(s: Lex, n: Numeral, r: IntegerRead, c: byte)
    requires Valid(s) && Top(s).kind == SpecialFrame && Top(s).special == r.sp && s.tokLast == r.tokLast
    requires WholeFlags(n, r) && IsWhole(n) && Breaks(Whole(n), c)
    ensures Step(s, c) == Fail(InvalidNumber, [], s.nescapes)
  {
  }

  lemma FloatBreaks(s: Lex, b: Broken, r: IntegerRead, c: byte)
    requires Valid(s) && Top(s).kind == SpecialFrame && Top(s).special == r.sp && s.tokLast == r.tokLast
    requires (b.Pointed? || b.Marked?) && BrokenFlags(b, r) && Breaks(b, c)
    ensures Step(s, c) == Fail(InvalidNumber, [], s.nescapes)
  {
  }

  /** The first k letters of true, false or null. */
  lemma {:induction false} ReadLetters(inp: Input, s: Lex, nodes: seq<Node>, sp: Special, k: nat, rest: bytes)
    requires sp.TrueWord? || sp.FalseWord? || sp.NullWord?
    requires ValueReady(s) && |s.frames| < |s.nescapes| && 1 <= k <= |Word(sp)|
    ensures ParseBytes(inp, Parsing(s, nodes), Word(sp)[..k] + rest)
         == ParseBytes(inp, Parsing(InBareword(s, sp, k, k, 0, MINUS), nodes), rest)
    decreases k
  {
    hide ParseBytes, ParseByte, Step, InBareword;
    if k == 1 {
      assert SpecialStart(Word(sp)[0]) == sp;
      assert Word(sp)[..1] == [Word(sp)[0]];
      BarewordStarts(inp, s, nodes, Word(sp)[0], rest);
    } else {
      var c := Word(sp)[k - 1];
      assert Word(sp)[..k] + rest == Word(sp)[..k - 1] + ([c] + rest);
      ReadLetters(inp, s, nodes, sp, k - 1, [c] + rest);
      LetterStep(s, sp, k - 1);
      var s1 := InBareword(s, sp, k - 1, k - 1, 0, MINUS);
      ParseCons(inp, Parsing(s1, nodes), c, rest);
      QuietByte(inp, s1, nodes, c, InBareword(s, sp, k, k, 0, MINUS));
    }
  }

  /**
   Behind some letters of a word: it is cut short, or goes on otherwise. A NUL behind the last letter
   is let through.
   */
  function WordFault(word: bytes, k: nat, c: byte): Option<JsonError>
    requires k <= |word|
  {
    if EndsBare(c) then if k < |word| then Some(SpecialIncomplete) else None
    else if c == (if k < |word| then word[k] else 0) then None
    else Some(SpecialExpected)
  }

  lemma WordFaultStep(s: Lex, sp: Special, k: nat, c: byte)
    requires sp.TrueWord? || sp.FalseWord? || sp.NullWord?
    requires ValueReady(s) && |s.frames| < |s.nescapes| && 1 <= k <= |Word(sp)| && WordFault(Word(sp), k, c).Some?
    ensures var s1 := InBareword(s, sp, k, k, 0, MINUS);
      Valid(s1) && Step(s1, c).Fail? && Step(s1, c).error == WordFault(Word(sp), k, c).value && Step(s1, c).events == []
  {
    hide Step;
    BarewordValid(s, sp, k, k, 0, MINUS);
    LetterFault(InBareword(s, sp, k, k, 0, MINUS), sp, k, c);
  }

  lemma LetterFault(s: Lex, sp: Special, k: nat, c: byte)
    requires sp.TrueWord? || sp.FalseWord? || sp.NullWord?
    requires Valid(s) && Top(s).kind == SpecialFrame && Top(s).special == sp
    requires s.pos == Top(s).begin + k && Escapes(s) == k
    requires 1 <= k <= |Word(sp)| && WordFault(Word(sp), k, c).Some?
    ensures Step(s, c).Fail? && Step(s, c).error == WordFault(Word(sp), k, c).value && Step(s, c).events == []
  {
  }

  // ---- strings ------------------------------------------------------------------------------------------

  /** The letters that may stand behind a backslash. */
  predicate EscapeLetter(x: byte) { x in [0x22, 0x5c, 0x2f, 0x62, 0x66, 0x6e, 0x72, 0x74, 0x75] }

  /** In a string, behind some characters: a control byte below 0x14, or a backslash and a byte. */
  datatype BadBytes = Control(c: byte) | Escape(x: byte)

  predicate BadFits(b: BadBytes) { if b.Control? then b.c < 0x14 else !EscapeLetter(b.x) }

  function BadText(b: BadBytes): bytes { if b.Control? then [b.c] else [0x5c, b.x] }

  function BadError(b: BadBytes): JsonError { if b.Control? then WeirdWhitespace else EscapeInvalid }

  lemma StringByteFails(inp: Input, s: Lex, nodes: seq<Node>, b: BadBytes, rest: bytes)
    requires Valid(s) && IsStringy(Top(s).kind) && !s.inEscape && BadFits(b)
    ensures var p := ParseBytes(inp, Parsing(s, nodes), BadText(b) + rest);
      p.LexError? && p.error == BadError(b)
  {
    hide ParseBytes, ParseByte, Step;
    match b
    case Control(c) =>
      ControlStep(s, c);
      ByteFails(inp, s, nodes, c, WeirdWhitespace, rest);
    case Escape(x) =>
      var s1 := Advance(WithEscapes(s, Escapes(s) + 1).(inEscape := true));
      EscapeStep(s, x);
      assert [0x5c, x] + rest == [BACKSLASH] + ([x] + rest);
      ParseCons(inp, Parsing(s, nodes), BACKSLASH, [x] + rest);
      QuietByte(inp, s, nodes, BACKSLASH, s1);
      ByteFails(inp, s1, nodes, x, EscapeInvalid, rest);
  }

  lemma ControlStep(s: Lex, c: byte)
    requires Valid(s) && IsStringy(Top(s).kind) && !s.inEscape && c < 0x14
    ensures Step(s, c) == Fail(WeirdWhitespace, [], s.nescapes)
  {
  }

  lemma EscapeStep(s: Lex, x: byte)
    requires Valid(s) && IsStringy(Top(s).kind) && !s.inEscape && !EscapeLetter(x)
    ensures var s1 := Advance(WithEscapes(s, Escapes(s) + 1).(inEscape := true));
      && Valid(s1) && Step(s, BACKSLASH) == Next(s1, []) && Step(s1, x) == Fail(EscapeInvalid, [], s1.nescapes)
  {
  }

  // ---- whole texts --------------------------------------------------------------------------------------

  /** A value comes next. */
  predicate WantsValue(cut: Cut) { cut.BehindColon? || (cut.AtElem? && !cut.keyed) }

  lemma ValuePoised(s: Lex, nodes: seq<Node>, cut: Cut)
    requires Poised(s, nodes, cut) && WantsValue(cut)
    ensures ValueReady(s) && IsContainer(Top(s).kind)
  {
  }

  /** Every number that breaks off is invalid, whatever follows. */
  lemma NumberRefused(before: bytes, cut: Cut, b: Broken, c: byte, rest: bytes, column: seq<nat>, strtod: FloatReader)
    requires Blank(before) && Fresh(column) && CutFits(cut, |column|, strtod) && |cut.path| + 2 < |column|
    requires WantsValue(cut) && BrokenFits(b) && Breaks(b, c)
    ensures CreateNode(before + (CutText(cut) + (BrokenText(b) + ([c] + rest))), column, strtod)
         == Err(LexerError(InvalidNumber))
  {
    hide ParseBytes, ParseText, CutText, CutFits, IsScalarText, Poised, BrokenText, Within, Step, ValueReady,
        BrokenFits, Breaks, BrokenFlags;
    var behind := BrokenText(b) + ([c] + rest);
    var text := before + (CutText(cut) + behind);
    var inp := Input(text, |column|, strtod);
    var s, nodes := ReadCut(before, cut, behind, column, strtod);
    ValuePoised(s, nodes, cut);
    var r := ReadBroken(inp, s, nodes, b, [c] + rest);
    BreakStep(s, b, r, |BrokenText(b)|, c);
    ByteFails(inp, Within(s, r, |BrokenText(b)|), nodes, c, InvalidNumber, rest);
  }

  /** So is every word that is cut short or misspelt. */
  lemma WordRefused(before: bytes, cut: Cut, word: bytes, k: nat, c: byte, rest: bytes, column: seq<nat>,
                    strtod: FloatReader)
    requires Blank(before) && Fresh(column) && CutFits(cut, |column|, strtod) && |cut.path| + 2 < |column|
    requires WantsValue(cut) && 1 <= k <= |word| && WordFault(word, k, c).Some?
    requires word in [[0x74, 0x72, 0x75, 0x65], [0x66, 0x61, 0x6c, 0x73, 0x65], [0x6e, 0x75, 0x6c, 0x6c]]
    ensures CreateNode(before + (CutText(cut) + (word[..k] + ([c] + rest))), column, strtod)
         == Err(LexerError(WordFault(word, k, c).value))
  {
    hide ParseBytes, ParseText, CutText, CutFits, IsScalarText, Poised, InBareword, Step, ValueReady, WordFault;
    var sp := if word[0] == 0x74 then TrueWord else if word[0] == 0x66 then FalseWord else NullWord;
    assert word == Word(sp);
    var behind := word[..k] + ([c] + rest);
    var text := before + (CutText(cut) + behind);
    var inp := Input(text, |column|, strtod);
    var s, nodes := ReadCut(before, cut, behind, column, strtod);
    ValuePoised(s, nodes, cut);
    ReadLetters(inp, s, nodes, sp, k, [c] + rest);
    WordFaultStep(s, sp, k, c);
    ByteFails(inp, InBareword(s, sp, k, k, 0, MINUS), nodes, c, WordFault(word, k, c).value, rest);
  }

  /** A string or a key may start. */
  predicate WantsString(cut: Cut) { cut.BehindColon? || cut.AtElem? }

  /** And in every string and key the bytes that cannot stand there. */
  lemma StringRefused(before: bytes, cut: Cut, chars: seq<Char>, b: BadBytes, rest: bytes, column: seq<nat>,
                      strtod: FloatReader)
    requires Blank(before) && Fresh(column) && CutFits(cut, |column|, strtod) && |cut.path| + 2 < |column|
    requires WantsString(cut) && CharsFit(chars) && BadFits(b)
    ensures CreateNode(before + (CutText(cut) + ([0x22] + BodyText(chars) + (BadText(b) + rest))), column, strtod)
         == Err(LexerError(BadError(b)))
  {
    hide ParseBytes, ParseText, CutText, CutFits, IsScalarText, Poised, BodyText, BadText, BadFits, CharsFit, Step,
        StringOpened, InBody;
    var behind := [0x22] + BodyText(chars) + (BadText(b) + rest);
    var text := before + (CutText(cut) + behind);
    var inp := Input(text, |column|, strtod);
    var s, nodes := ReadCut(before, cut, behind, column, strtod);
    var kind := if cut.AtElem? && cut.keyed then KeyFrame else StringFrame;
    StringPoised(s, nodes, cut, kind);
    ReadOpen(inp, s, nodes, kind, chars, BadText(b) + rest);
    var s2 := InBody(StringOpened(s, kind), |BodyText(chars)|, BodyEscapes(chars));
    BodyState(s, kind, |BodyText(chars)|, BodyEscapes(chars));
    StringByteFails(inp, s2, nodes, b, rest);
  }

  lemma StringPoised(s: Lex, nodes: seq<Node>, cut: Cut, kind: Kind)
    requires Poised(s, nodes, cut) && WantsString(cut) && |s.frames| < |s.nescapes|
    requires kind == if cut.AtElem? && cut.keyed then KeyFrame else StringFrame
    ensures Valid(s) && Clean(s)
    ensures Step(s, QUOTE) == Next(StringOpened(s, kind), [Push(kind, NoSpecial, s.pos)])
  {
    hide Step;
    if kind == KeyFrame {
      KeyStarts(s, nodes);
    } else {
      StringStarts(s);
    }
  }

  lemma BodyState(s: Lex, kind: Kind, n: nat, k: nat)
    requires Valid(s) && Valid(StringOpened(s, kind)) && IsStringy(kind)
    ensures var s2 := InBody(StringOpened(s, kind), n, k);
      Valid(s2) && Top(s2).kind == kind && !s2.inEscape
  {
  }

  /** The opening quote and some characters. */
  lemma ReadOpen(inp: Input, s: Lex, nodes: seq<Node>, kind: Kind, chars: seq<Char>, rest: bytes)
    requires Valid(s) && IsStringy(kind) && |s.frames| < |s.nescapes| && CharsFit(chars)
    requires Step(s, QUOTE) == Next(StringOpened(s, kind), [Push(kind, NoSpecial, s.pos)])
    ensures Valid(StringOpened(s, kind))
    ensures ParseBytes(inp, Parsing(s, nodes), [QUOTE] + BodyText(chars) + rest)
         == ParseBytes(inp, Parsing(InBody(StringOpened(s, kind), |BodyText(chars)|, BodyEscapes(chars)), nodes), rest)
  {
    hide ParseBytes, ParseByte, Step, BodyText, BodyEscapes, CharsFit, StringOpened, InBody;
    var body := BodyText(chars);
    assert [QUOTE] + body + rest == [QUOTE] + (body + rest);
    ParseCons(inp, Parsing(s, nodes), QUOTE, body + rest);
    OpeningQuote(inp, s, nodes, kind, StringOpened(s, kind));
    OpenedStringy(s, kind);
    ReadChars(inp, StringOpened(s, kind), nodes, chars, rest);
  }

  // ---- escapes that stand for nothing -------------------------------------------------------------------

  /** Characters that may stand between the two halves of a pair, for they are let through. */
  predicate Between(chars: seq<Char>) {
    CharsFit(chars) && forall i :: 0 <= i < |chars| ==> chars[i].Plain? || chars[i].Short?
  }

  /** `\u` without four hex digits; a low half before any high one; a high half without its low one; `\u` at the end. */
  datatype Flaw =
    | NoHex(four: bytes)
    | LowFirst(low: bytes)
    | HighAlone(high: bytes, chars: seq<Char>)
    | HighThen(high: bytes, chars: seq<Char>, other: bytes)
    | CutShort(digits: bytes)

  predicate PlainBytes(w: bytes) { forall i :: 0 <= i < |w| ==> CharFits(Plain(w[i])) }

  predicate FlawFits(f: Flaw) {
    match f
    case NoHex(ds) => |ds| == 4 && PlainBytes(ds) && !FourHex(ds)
    case LowFirst(lo) => FourHex(lo) && 0xdc00 <= HexNumber(lo) <= 0xdfff
    case HighAlone(hi, chars) => FourHex(hi) && 0xd800 <= HexNumber(hi) <= 0xdbff && Between(chars)
    case HighThen(hi, chars, ds) =>
      && FourHex(hi) && 0xd800 <= HexNumber(hi) <= 0xdbff && Between(chars)
      && FourHex(ds) && !(0xdc00 <= HexNumber(ds) <= 0xdfff)
    case CutShort(ds) => |ds| < 4 && PlainBytes(ds)
  }

  function FlawText(f: Flaw): bytes {
    match f
    case NoHex(ds) => [0x5c, 0x75] + ds
    case LowFirst(lo) => [0x5c, 0x75] + lo
    case HighAlone(hi, chars) => [0x5c, 0x75] + hi + BodyText(chars)
    case HighThen(hi, chars, ds) => [0x5c, 0x75] + hi + (BodyText(chars) + ([0x5c, 0x75] + ds))
    case CutShort(ds) => [0x5c, 0x75] + ds
  }

  function FlawError(f: Flaw): JsonError {
    if f.NoHex? then PercentBadHex else if f.CutShort? then UEscapeTooShort else InvalidCodepoint
  }

  function FlawEscapes(f: Flaw): nat {
    match f
    case HighAlone(_, chars) => 1 + BodyEscapes(chars)
    case HighThen(_, chars, _) => 1 + (BodyEscapes(chars) + 1)
    case _ => 1
  }

  /** What may follow a flaw in its string. */
  predicate TailFits(f: Flaw, tail: seq<Char>) { CharsFit(tail) && (f.HighAlone? || f.CutShort? ==> tail == []) }

  /** The lexer takes no offence. */
  lemma ReadFlaw(inp: Input, s: Lex, nodes: seq<Node>, f: Flaw, rest: bytes)
    requires Valid(s) && IsStringy(Top(s).kind) && !s.inEscape && FlawFits(f)
    ensures ParseBytes(inp, Parsing(s, nodes), FlawText(f) + rest)
         == ParseBytes(inp, Parsing(InBody(s, |FlawText(f)|, FlawEscapes(f)), nodes), rest)
  {
    hide ParseBytes, HexNumber, BodyText, BodyEscapes, CharFits;
    match f
    case NoHex(ds) => ReadUnit(inp, s, nodes, ds, rest);
    case LowFirst(lo) => ReadUnit(inp, s, nodes, lo, rest);
    case CutShort(ds) => ReadUnit(inp, s, nodes, ds, rest);
    case HighAlone(hi, chars) =>
      assert FlawText(f) + rest == [BACKSLASH, 0x75] + hi + (BodyText(chars) + rest);
      ReadUnit(inp, s, nodes, hi, BodyText(chars) + rest);
      ReadChars(inp, InBody(s, 6, 1), nodes, chars, rest);
      InBodyTwice(s, 6, 1, |BodyText(chars)|, BodyEscapes(chars));
    case HighThen(hi, chars, ds) => ReadHighThen(inp, s, nodes, f, rest);
  }

  lemma ReadHighThen(inp: Input, s: Lex, nodes: seq<Node>, f: Flaw, rest: bytes)
    requires Valid(s) && IsStringy(Top(s).kind) && !s.inEscape && FlawFits(f) && f.HighThen?
    ensures ParseBytes(inp, Parsing(s, nodes), FlawText(f) + rest)
         == ParseBytes(inp, Parsing(InBody(s, |FlawText(f)|, FlawEscapes(f)), nodes), rest)
  {
    hide ParseBytes, HexNumber, BodyText, BodyEscapes, CharFits;
    var body, k, unit := BodyText(f.chars), BodyEscapes(f.chars), [BACKSLASH, 0x75] + f.other;
    assert FlawText(f) + rest == [BACKSLASH, 0x75] + f.high + (body + (unit + rest));
    ReadUnit(inp, s, nodes, f.high, body + (unit + rest));
    ReadChars(inp, InBody(s, 6, 1), nodes, f.chars, unit + rest);
    InBodyTwice(s, 6, 1, |body|, k);
    ReadUnit(inp, InBody(s, 6 + |body|, 1 + k), nodes, f.other, rest);
    InBodyTwice(s, 6 + |body|, 1 + k, 6, 1);
  }

  /** Behind a high half the next `\u` must be its low one; other characters are copied. */
  lemma {:induction false} UnescapeBetween(chars: seq<Char>, rest: bytes, high: int)
    requires Between(chars) && IsHighSurrogate(high)
    ensures Unescape(BodyText(chars) + rest, high) == Prepend(StringMeans(chars), Unescape(rest, high))
  {
    hide Unescape, CharText, CharMeans, CharFits;
    if chars == [] {
      assert [] + rest == rest;
      PrependNothing(Unescape(rest, high));
    } else {
      var tail := BodyText(chars[1..]) + rest;
      assert BodyText(chars) + rest == CharText(chars[0]) + tail;
      UnescapeBetween(chars[1..], rest, high);
      OneBetween(chars[0], tail, high);
      PrependConcat(CharMeans(chars[0]), StringMeans(chars[1..]), Unescape(rest, high));
    }
  }

  lemma OneBetween(ch: Char, rest: bytes, high: int)
    requires CharFits(ch) && (ch.Plain? || ch.Short?) && IsHighSurrogate(high)
    ensures Unescape(CharText(ch) + rest, high) == Prepend(CharMeans(ch), Unescape(rest, high))
  {
    match ch
    case Plain(c) => assert ([c] + rest)[1..] == rest;
    case Short(x) => assert ([BACKSLASH, x] + rest)[2..] == rest;
  }

  /** The unescaper does. */
  lemma UnescapeFlaw(f: Flaw, rest: bytes)
    requires FlawFits(f) && (f.HighAlone? || f.CutShort? ==> rest == [])
    ensures Unescape(FlawText(f) + rest, 0) == Err(FlawError(f))
  {
    hide HexNumber, BodyText, Unescape, CharFits, StringMeans;
    match f
    case NoHex(ds) => UnescapeNoHex(ds, rest);
    case LowFirst(lo) => UnescapeUnit(lo, rest, 0);
    case CutShort(ds) =>
      assert [BACKSLASH, 0x75] + ds + rest == [BACKSLASH, 0x75] + ds;
      UnescapeCutShort(ds);
    case HighAlone(hi, chars) =>
      assert FlawText(f) + rest == [BACKSLASH, 0x75] + hi + (BodyText(chars) + []);
      UnescapeUnit(hi, BodyText(chars) + [], 0);
      UnescapeBetween(chars, [], HexNumber(hi));
      UnescapeHigh(HexNumber(hi));
    case HighThen(hi, chars, ds) => UnescapeHighThen(f, rest);
  }

  lemma UnescapeHighThen(f: Flaw, rest: bytes)
    requires FlawFits(f) && f.HighThen?
    ensures Unescape(FlawText(f) + rest, 0) == Err(InvalidCodepoint)
  {
    hide HexNumber, BodyText, Unescape, CharFits, StringMeans;
    var unit, w := [BACKSLASH, 0x75] + f.other, HexNumber(f.high);
    assert FlawText(f) + rest == [BACKSLASH, 0x75] + f.high + (BodyText(f.chars) + (unit + rest));
    UnescapeUnit(f.high, BodyText(f.chars) + (unit + rest), 0);
    UnescapeBetween(f.chars, unit + rest, w);
    UnescapeUnit(f.other, rest, w);
  }

  lemma UnescapeNoHex(ds: bytes, rest: bytes)
    requires |ds| == 4 && !FourHex(ds)
    ensures Unescape([BACKSLASH, 0x75] + ds + rest, 0) == Err(PercentBadHex)
  {
    var s := [BACKSLASH, 0x75] + ds + rest;
    assert s[2..6] == ds && s[0] == BACKSLASH && s[1] == 0x75;
    assert Hex4(ds) == None;
  }

  lemma UnescapeCutShort(ds: bytes)
    requires |ds| < 4
    ensures Unescape([BACKSLASH, 0x75] + ds, 0) == Err(UEscapeTooShort)
  {
  }

  lemma UnescapeHigh(high: int)
    requires IsHighSurrogate(high)
    ensures Unescape([], high) == Err(InvalidCodepoint)
  {
  }

  /** A string or a key with a flaw is refused at its closing quote. */
  lemma EscapeRefused(before: bytes, cut: Cut, chars: seq<Char>, f: Flaw, tail: seq<Char>, rest: bytes,
                      column: seq<nat>, strtod: FloatReader)
    requires Blank(before) && Fresh(column) && CutFits(cut, |column|, strtod) && |cut.path| + 2 < |column|
    requires WantsString(cut) && CharsFit(chars) && FlawFits(f) && TailFits(f, tail)
    ensures var str := [0x22] + BodyText(chars) + (FlawText(f) + (BodyText(tail) + ([0x22] + rest)));
      CreateNode(before + (CutText(cut) + str), column, strtod) == Err(LexerError(FlawError(f)))
  {
    hide ParseBytes, ParseText, CutText, CutFits, IsScalarText, Poised, BodyText, FlawText, FlawFits, CharsFit, Step,
        StringOpened, InBody, TailFits, StringBody, Clean;
    var behind := FlawText(f) + (BodyText(tail) + ([QUOTE] + rest));
    var str := [QUOTE] + BodyText(chars) + behind;
    var text := before + (CutText(cut) + str);
    var inp := Input(text, |column|, strtod);
    var s, nodes := ReadCut(before, cut, str, column, strtod);
    var kind := if cut.AtElem? && cut.keyed then KeyFrame else StringFrame;
    StringPoised(s, nodes, cut, kind);
    FlawStops(inp, s, nodes, kind, chars, f, tail, rest);
  }

  lemma FlawStops(inp: Input, s: Lex, nodes: seq<Node>, kind: Kind, chars: seq<Char>, f: Flaw, tail: seq<Char>,
                  rest: bytes)
    requires Valid(s) && Clean(s) && IsStringy(kind) && |s.frames| < |s.nescapes|
    requires Step(s, QUOTE) == Next(StringOpened(s, kind), [Push(kind, NoSpecial, s.pos)])
    requires CharsFit(chars) && FlawFits(f) && TailFits(f, tail)
    requires At(inp.text, s.pos, [QUOTE] + BodyText(chars) + (FlawText(f) + (BodyText(tail) + ([QUOTE] + rest))))
    ensures StoppedBy(ParseBytes(inp, Parsing(s, nodes),
        [QUOTE] + BodyText(chars) + (FlawText(f) + (BodyText(tail) + ([QUOTE] + rest)))), CallbackError(FlawError(f)))
  {
    hide ParseBytes, ParseByte, BodyText, BodyEscapes, FlawText, FlawEscapes, FlawFits, FlawError, CharsFit, Step,
        StringOpened, InBody, TailFits, StringBody, Clean, At, Closed;
    var body := BodyText(chars) + FlawText(f) + BodyText(tail);
    var k := BodyEscapes(chars) + FlawEscapes(f) + BodyEscapes(tail);
    var s1 := StringOpened(s, kind);
    var s2 := InBody(s1, |body|, k);
    OpenedStringy(s, kind);
    ReadOpen(inp, s, nodes, kind, chars, FlawText(f) + (BodyText(tail) + ([QUOTE] + rest)));
    ReadFlawed(inp, s1, kind, nodes, chars, f, tail, [QUOTE] + rest);
    InBodyValid(s1, |body|, k);
    ReadClosingQuote(inp, s, nodes, kind, |body|, k, rest);
    FlawBody(inp, s.pos, kind, chars, f, tail, rest);
    var ev := Pop(kind, NoSpecial, k, s.pos, s.pos + 1 + |body|);
    StringStops(inp, nodes, ev, FlawError(f));
    ParseStopped(inp, Called(inp, s2, Closed(s, kind, |body| + 2), nodes, ev), rest);
  }

  lemma ReadFlawed(inp: Input, s: Lex, kind: Kind, nodes: seq<Node>, chars: seq<Char>, f: Flaw, tail: seq<Char>,
                   rest: bytes)
    requires Valid(s) && IsStringy(kind) && Top(s).kind == kind && !s.inEscape
    requires FlawFits(f) && TailFits(f, tail)
    ensures var s1 := InBody(s, |BodyText(chars)|, BodyEscapes(chars));
      var body := BodyText(chars) + FlawText(f) + BodyText(tail);
      var k := BodyEscapes(chars) + FlawEscapes(f) + BodyEscapes(tail);
      ParseBytes(inp, Parsing(s1, nodes), FlawText(f) + (BodyText(tail) + rest))
      == ParseBytes(inp, Parsing(InBody(s, |body|, k), nodes), rest)
  {
    hide ParseBytes, BodyText, BodyEscapes, FlawText, FlawEscapes, FlawFits, CharsFit;
    var n, k := |BodyText(chars)|, BodyEscapes(chars);
    var s1 := InBody(s, n, k);
    ReadFlaw(inp, s1, nodes, f, BodyText(tail) + rest);
    InBodyTwice(s, n, k, |FlawText(f)|, FlawEscapes(f));
    ReadChars(inp, InBody(s, n + |FlawText(f)|, k + FlawEscapes(f)), nodes, tail, rest);
    InBodyTwice(s, n + |FlawText(f)|, k + FlawEscapes(f), |BodyText(tail)|, BodyEscapes(tail));
  }

  lemma FlawBody(inp: Input, pos: nat, kind: Kind, chars: seq<Char>, f: Flaw, tail: seq<Char>, rest: bytes)
    requires CharsFit(chars) && FlawFits(f) && TailFits(f, tail)
    requires At(inp.text, pos, [QUOTE] + BodyText(chars) + (FlawText(f) + (BodyText(tail) + ([QUOTE] + rest))))
    ensures var body := BodyText(chars) + FlawText(f) + BodyText(tail);
      var k := BodyEscapes(chars) + FlawEscapes(f) + BodyEscapes(tail);
      StringBody(inp, Pop(kind, NoSpecial, k, pos, pos + 1 + |body|)) == Err(FlawError(f))
  {
    hide BodyText, BodyEscapes, FlawText, FlawFits, FlawError, CharsFit, At, Unescape, StringMeans;
    var body := BodyText(chars) + FlawText(f) + BodyText(tail);
    assert [QUOTE] + BodyText(chars) + (FlawText(f) + (BodyText(tail) + ([QUOTE] + rest)))
        == [QUOTE] + body + [QUOTE] + rest;
    BodySlice(inp, pos, body, rest);
    assert body == BodyText(chars) + (FlawText(f) + BodyText(tail));
    NoTail(f, tail);
    UnescapeFlaw(f, BodyText(tail));
    UnescapeChars(chars, FlawText(f) + BodyText(tail));
  }

  lemma NoTail(f: Flaw, tail: seq<Char>)
    requires TailFits(f, tail)
    ensures f.HighAlone? || f.CutShort? ==> BodyText(tail) == []
  {
  }

  lemma StringStops(inp: Input, nodes: seq<Node>, ev: Event, e: JsonError)
    requires ev.Pop? && IsStringy(ev.kind) && StringBody(inp, ev) == Err(e)
    ensures OnEvent(inp, nodes, ev) == Stopped(CallbackError(e))
  {
    hide StringBody;
  }
}
