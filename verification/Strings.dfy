/** Strings in JSON text, by their grammar: how the lexer gets through them and what the callback makes of them. */
module Strings {
  import opened Bytes
  import opened Errors
  import opened Utf8
  import opened Escape
  import opened Nodes
  import opened Lexer
  import opened Parser
  import opened RoundTrip

  // ---- the grammar --------------------------------------------------------------------------

  /** A byte of its own, an escape of one letter, `\u` with a scalar value, or two of them with a surrogate pair. */
  datatype Char =
    | Plain(c: byte)
    | Short(letter: byte)
    | Unit(digits: bytes)
    | Pair(high: bytes, low: bytes)

  predicate HexByte(c: byte) { 0x30 <= c <= 0x39 || 0x61 <= c <= 0x66 || 0x41 <= c <= 0x46 }

  function HexPlace(c: byte): nat
    requires HexByte(c)
  {
    c as nat - if c <= 0x39 then 0x30 else if c <= 0x46 then 0x37 else 0x57
  }

  predicate FourHex(ds: bytes) { |ds| == 4 && HexByte(ds[0]) && HexByte(ds[1]) && HexByte(ds[2]) && HexByte(ds[3]) }

  function HexNumber(ds: bytes): (w: nat)
    requires FourHex(ds)
    ensures w < 0x10000
  {
    HexPlace(ds[0]) * 4096 + HexPlace(ds[1]) * 256 + HexPlace(ds[2]) * 16 + HexPlace(ds[3])
  }

  /** Control bytes are refused only below 0x14, and every byte from 0x80 on is let through. */
  predicate CharFits(ch: Char) {
    match ch
    case Plain(c) => c >= 0x14 && c != 0x22 && c != 0x5c
    case Short(x) => x in [0x22, 0x5c, 0x2f, 0x62, 0x66, 0x6e, 0x72, 0x74]
    case Unit(ds) => FourHex(ds) && !(0xd800 <= HexNumber(ds) <= 0xdfff)
    case Pair(hi, lo) =>
      FourHex(hi) && FourHex(lo) && 0xd800 <= HexNumber(hi) <= 0xdbff && 0xdc00 <= HexNumber(lo) <= 0xdfff
  }

  predicate CharsFit(chars: seq<Char>) { forall i :: 0 <= i < |chars| ==> CharFits(chars[i]) }

  function CharText(ch: Char): bytes {
    match ch
    case Plain(c) => [c]
    case Short(x) => [0x5c, x]
    case Unit(ds) => [0x5c, 0x75] + ds
    case Pair(hi, lo) => [0x5c, 0x75] + hi + [0x5c, 0x75] + lo
  }

  /** The bytes it stands for. */
  function CharMeans(ch: Char): bytes
    requires CharFits(ch)
  {
    match ch
    case Plain(c) => [c]
    case Short(x) =>
      [if x == 0x62 then 0x08
       else if x == 0x66 then 0x0c
       else if x == 0x6e then 0x0a
       else if x == 0x72 then 0x0d
       else if x == 0x74 then 0x09
       else x]
    case Unit(ds) => Encode(HexNumber(ds))
    case Pair(hi, lo) => Encode(0x10000 + (HexNumber(hi) - 0xd800) * 0x400 + (HexNumber(lo) - 0xdc00))
  }

  function BodyText(chars: seq<Char>): bytes {
    if chars == [] then [] else CharText(chars[0]) + BodyText(chars[1..])
  }

  function StringText(chars: seq<Char>): bytes { [0x22] + BodyText(chars) + [0x22] }

  function StringMeans(chars: seq<Char>): bytes
    requires CharsFit(chars)
  {
    if chars == [] then [] else CharMeans(chars[0]) + StringMeans(chars[1..])
  }

  // ---- the lexer --------------------------------------------------------------------------------

  function CharEscapes(ch: Char): nat { if ch.Plain? then 0 else if ch.Pair? then 2 else 1 }

  function BodyEscapes(chars: seq<Char>): nat {
    if chars == [] then 0 else CharEscapes(chars[0]) + BodyEscapes(chars[1..])
  }

  lemma ReadChar(inp: Input, s: Lex, nodes: seq<Node>, ch: Char, rest: bytes)
    requires Valid(s) && IsStringy(Top(s).kind) && !s.inEscape && CharFits(ch)
    ensures ParseBytes(inp, Parsing(s, nodes), CharText(ch) + rest)
         == ParseBytes(inp, Parsing(InBody(s, |CharText(ch)|, CharEscapes(ch)), nodes), rest)
  {
    hide ParseBytes, ParseByte, HexNumber;
    match ch
    case Plain(c) =>
      assert s.nescapes[Level(s) := Escapes(s)] == s.nescapes;
      ParsePlain(inp, s, nodes, [c], rest);
    case Short(x) =>
      assert CharText(ch) + rest == [BACKSLASH] + ([x] + rest);
      ParseEscape(inp, s, nodes, x, rest);
    case Unit(ds) =>
      assert CharText(ch) + rest == [BACKSLASH, 0x75] + ds + rest;
      ReadUnit(inp, s, nodes, ds, rest);
    case Pair(hi, lo) => ReadPair(inp, s, nodes, hi, lo, rest);
  }

  lemma ReadPair(inp: Input, s: Lex, nodes: seq<Node>, hi: bytes, lo: bytes, rest: bytes)
    requires Valid(s) && IsStringy(Top(s).kind) && !s.inEscape && FourHex(hi) && FourHex(lo)
    ensures ParseBytes(inp, Parsing(s, nodes), CharText(Pair(hi, lo)) + rest)
         == ParseBytes(inp, Parsing(InBody(s, 12, 2), nodes), rest)
  {
    hide ParseBytes, ParseByte;
    PairText(hi, lo, rest);
    ReadUnit(inp, s, nodes, hi, [BACKSLASH, 0x75] + lo + rest);
    ReadUnit(inp, InBody(s, 6, 1), nodes, lo, rest);
    InBodyTwice(s, 6, 1, 6, 1);
  }

  lemma PairText(hi: bytes, lo: bytes, rest: bytes)
    ensures CharText(Pair(hi, lo)) + rest == [BACKSLASH, 0x75] + hi + ([BACKSLASH, 0x75] + lo + rest)
  {
  }

  /** Whatever stands behind `\u`, digits or not, is read as bytes of their own. */
  lemma ReadUnit(inp: Input, s: Lex, nodes: seq<Node>, ds: bytes, rest: bytes)
    requires Valid(s) && IsStringy(Top(s).kind) && !s.inEscape
    requires FourHex(ds) || forall i :: 0 <= i < |ds| ==> CharFits(Plain(ds[i]))
    ensures ParseBytes(inp, Parsing(s, nodes), [BACKSLASH, 0x75] + ds + rest)
         == ParseBytes(inp, Parsing(InBody(s, 2 + |ds|, 1), nodes), rest)
  {
    hide ParseBytes, ParseByte;
    assert [BACKSLASH, 0x75] + ds + rest == [BACKSLASH] + ([0x75] + (ds + rest));
    ParseEscape(inp, s, nodes, 0x75, ds + rest);
    ParsePlain(inp, InBody(s, 2, 1), nodes, ds, rest);
  }

  lemma {:induction false} ReadChars(inp: Input, s: Lex, nodes: seq<Node>, chars: seq<Char>, rest: bytes)
    requires Valid(s) && IsStringy(Top(s).kind) && !s.inEscape && CharsFit(chars)
    ensures ParseBytes(inp, Parsing(s, nodes), BodyText(chars) + rest)
         == ParseBytes(inp, Parsing(InBody(s, |BodyText(chars)|, BodyEscapes(chars)), nodes), rest)
    decreases |chars|
  {
    hide ParseBytes, ParseByte, CharText, CharFits, CharEscapes;
    if chars == [] {
      assert BodyText(chars) + rest == rest;
      assert s.nescapes[Level(s) := Escapes(s)] == s.nescapes;
    } else {
      var t, tail, k := CharText(chars[0]), BodyText(chars[1..]), CharEscapes(chars[0]);
      assert BodyText(chars) + rest == t + (tail + rest);
      ReadChar(inp, s, nodes, chars[0], tail + rest);
      ReadChars(inp, InBody(s, |t|, k), nodes, chars[1..], rest);
      InBodyTwice(s, |t|, k, |tail|, BodyEscapes(chars[1..]));
    }
  }

  // ---- the callback -----------------------------------------------------------------------------

  lemma HexFour(ds: bytes)
    requires FourHex(ds)
    ensures Hex4(ds) == Some(HexNumber(ds) as int)
  {
  }

  lemma UnescapeUnit(ds: bytes, rest: bytes, high: int)
    requires FourHex(ds) && (high == 0 || IsHighSurrogate(high))
    ensures var w := HexNumber(ds);
      Unescape([BACKSLASH, 0x75] + ds + rest, high)
      == if high != 0 then
           if 0xdc00 <= w <= 0xdfff then Prepend(Encode(JoinSurrogates(high, w)), Unescape(rest, 0))
           else Err(InvalidCodepoint)
         else if !(0xd800 <= w <= 0xdfff) then Prepend(Encode(w), Unescape(rest, 0))
         else if w <= 0xdbff then Unescape(rest, w)
         else Err(InvalidCodepoint)
  {
    hide HexNumber;
    var s := [BACKSLASH, 0x75] + ds + rest;
    assert s[2..6] == ds && s[6..] == rest && s[0] == BACKSLASH && s[1] == 0x75;
    HexFour(ds);
  }

  lemma UnescapeChar(ch: Char, rest: bytes)
    requires CharFits(ch)
    ensures Unescape(CharText(ch) + rest, 0) == Prepend(CharMeans(ch), Unescape(rest, 0))
  {
    hide HexNumber;
    match ch
    case Plain(c) => assert ([c] + rest)[1..] == rest;
    case Short(x) => assert ([BACKSLASH, x] + rest)[2..] == rest;
    case Unit(ds) => UnescapeUnit(ds, rest, 0);
    case Pair(hi, lo) => UnescapeTwo(hi, lo, rest);
  }

  lemma UnescapeTwo(hi: bytes, lo: bytes, rest: bytes)
    requires CharFits(Pair(hi, lo))
    ensures Unescape(CharText(Pair(hi, lo)) + rest, 0) == Prepend(CharMeans(Pair(hi, lo)), Unescape(rest, 0))
  {
    hide HexNumber, Unescape;
    PairText(hi, lo, rest);
    UnescapeUnit(hi, [BACKSLASH, 0x75] + lo + rest, 0);
    UnescapeUnit(lo, rest, HexNumber(hi));
    JoinedPair(HexNumber(hi), HexNumber(lo));
  }

  lemma JoinedPair(w1: int, w2: int)
    requires IsHighSurrogate(w1) && IsLowSurrogate(w2)
    ensures JoinSurrogates(w1, w2) == 0x10000 + (w1 - 0xd800) * 0x400 + (w2 - 0xdc00)
  {
  }

  /** Unescaping turns the text of characters into what they stand for, in front of any other text. */
  lemma {:induction false} UnescapeChars(chars: seq<Char>, rest: bytes)
    requires CharsFit(chars)
    ensures Unescape(BodyText(chars) + rest, 0) == Prepend(StringMeans(chars), Unescape(rest, 0))
  {
    hide Unescape, CharText, CharMeans, CharFits;
    if chars == [] {
      assert [] + rest == rest;
      PrependNothing(Unescape(rest, 0));
    } else {
      var tail := BodyText(chars[1..]) + rest;
      assert BodyText(chars) + rest == CharText(chars[0]) + tail;
      UnescapeChars(chars[1..], rest);
      UnescapeChar(chars[0], tail);
      PrependConcat(CharMeans(chars[0]), StringMeans(chars[1..]), Unescape(rest, 0));
    }
  }

  lemma UnescapeMeans(chars: seq<Char>)
    requires CharsFit(chars)
    ensures Unescape(BodyText(chars), 0) == Ok(StringMeans(chars))
  {
    hide Unescape, CharText, CharMeans, CharFits;
    UnescapeChars(chars, []);
    UnescapeNothing();
    assert BodyText(chars) + [] == BodyText(chars) && StringMeans(chars) + [] == StringMeans(chars);
  }

  lemma UnescapeNothing()
    ensures Unescape([], 0) == Ok([])
  {
  }

  /** Without an escape the text stands for itself. */
  lemma {:induction false} NothingEscaped(chars: seq<Char>)
    requires CharsFit(chars) && BodyEscapes(chars) == 0
    ensures BodyText(chars) == StringMeans(chars)
  {
    hide HexNumber;
    if chars != [] {
      NothingEscaped(chars[1..]);
    }
  }

  lemma MeansSomething(chars: seq<Char>)
    requires CharsFit(chars) && chars != []
    ensures StringMeans(chars) != []
  {
    hide HexNumber;
  }

  lemma BodyMeans(inp: Input, chars: seq<Char>, ev: Event)
    requires CharsFit(chars) && ev.Pop? && ev.nescapes == BodyEscapes(chars)
    requires Slice(inp.text, ev.begin + 1, ev.end) == BodyText(chars)
    ensures StringBody(inp, ev) == Ok(StringMeans(chars))
  {
    hide CharText, CharMeans, CharFits, Unescape;
    if ev.nescapes == 0 {
      NothingEscaped(chars);
    } else {
      UnescapeMeans(chars);
      MeansSomething(chars);
    }
  }

  // ---- the parser -------------------------------------------------------------------------------

  /** From the opening quote to the closing one; what the POP callback then sees. */
  lemma ReadStringy(inp: Input, s: Lex, nodes: seq<Node>, kind: Kind, chars: seq<Char>, rest: bytes)
    requires Valid(s) && Clean(s) && IsStringy(kind) && |s.frames| < |s.nescapes| && CharsFit(chars)
    requires Step(s, QUOTE) == Next(StringOpened(s, kind), [Push(kind, NoSpecial, s.pos)])
    requires At(inp.text, s.pos, StringText(chars) + rest)
    ensures var len := |StringText(chars)|;
      var ev := Pop(kind, NoSpecial, BodyEscapes(chars), s.pos, s.pos + len - 1);
      && StringBody(inp, ev) == Ok(StringMeans(chars))
      && Valid(StringOpened(s, kind))
      && ParseBytes(inp, Parsing(s, nodes), StringText(chars) + rest)
         == ParseBytes(inp, Called(inp, InBody(StringOpened(s, kind), len - 2, ev.nescapes), Closed(s, kind, len),
             nodes, ev), rest)
  {
    hide Step, ParseBytes, ParseByte, BodyText, BodyEscapes, CharsFit, At, Called, Closed, InBody, StringMeans,
        StringBody, StringOpened, Clean;
    var body, k, s1 := BodyText(chars), BodyEscapes(chars), StringOpened(s, kind);
    assert StringText(chars) + rest == [QUOTE] + (body + ([QUOTE] + rest));
    ParseCons(inp, Parsing(s, nodes), QUOTE, body + ([QUOTE] + rest));
    OpeningQuote(inp, s, nodes, kind, s1);
    OpenedStringy(s, kind);
    ReadChars(inp, s1, nodes, chars, [QUOTE] + rest);
    InBodyValid(s1, |body|, k);
    ReadClosingQuote(inp, s, nodes, kind, |body|, k, rest);
    BodySlice(inp, s.pos, body, rest);
    BodyMeans(inp, chars, Pop(kind, NoSpecial, k, s.pos, s.pos + 1 + |body|));
  }

  lemma ReadClosingQuote(inp: Input, s: Lex, nodes: seq<Node>, kind: Kind, n: nat, k: nat, rest: bytes)
    requires Valid(s) && Clean(s) && IsStringy(kind) && |s.frames| < |s.nescapes|
    requires Valid(StringOpened(s, kind)) && Valid(InBody(StringOpened(s, kind), n, k))
    ensures var s2, ev := InBody(StringOpened(s, kind), n, k), Pop(kind, NoSpecial, k, s.pos, s.pos + 1 + n);
      ParseBytes(inp, Parsing(s2, nodes), [QUOTE] + rest)
      == ParseBytes(inp, Called(inp, s2, Closed(s, kind, n + 2), nodes, ev), rest)
  {
    hide Step, ParseBytes, ParseByte, InBody, Closed, StringOpened, Called, Clean;
    var s2, ev := InBody(StringOpened(s, kind), n, k), Pop(kind, NoSpecial, k, s.pos, s.pos + 1 + n);
    ParseCons(inp, Parsing(s2, nodes), QUOTE, rest);
    ClosingQuote(s, kind, n, k);
    CallbackByte(inp, s2, nodes, QUOTE, Closed(s, kind, n + 2), ev);
  }

  lemma OpenedStringy(s: Lex, kind: Kind)
    requires Valid(s) && IsStringy(kind) && |s.frames| < |s.nescapes|
    requires Step(s, QUOTE) == Next(StringOpened(s, kind), [Push(kind, NoSpecial, s.pos)])
    ensures var s1 := StringOpened(s, kind);
      Valid(s1) && Top(s1).kind == kind && !s1.inEscape
  {
    hide Step;
  }

  lemma InBodyValid(s: Lex, n: nat, k: nat)
    requires Valid(s)
    ensures Valid(InBody(s, n, k))
  {
  }

  /** A string where a value may start in a container. */
  lemma ParseStringText(inp: Input, s: Lex, nodes: seq<Node>, chars: seq<Char>, rest: bytes)
    requires ValueReady(s) && IsContainer(Top(s).kind) && HasPlace(s, nodes) && CharsFit(chars)
    requires |s.frames| < |s.nescapes| && |nodes| < inp.capacity
    requires At(inp.text, s.pos, StringText(chars) + rest)
    ensures ParseBytes(inp, Parsing(s, nodes), StringText(chars) + rest)
         == ParseBytes(inp, Parsing(Done(s, |StringText(chars)|), Placed(s, nodes, Text(StringMeans(chars)))), rest)
  {
    hide ParseBytes, ParseByte, BodyEscapes, StringText, StringBody, Step, StringMeans, CharsFit, InBody, OnEvent,
        Placed, HasPlace, At;
    var len := |StringText(chars)|;
    StringLength(chars);
    var ev := Pop(StringFrame, NoSpecial, BodyEscapes(chars), s.pos, s.pos + len - 1);
    StringStarts(s);
    ReadStringy(inp, s, nodes, StringFrame, chars, rest);
    StringPlaced(inp, s, nodes, ev, StringMeans(chars));
  }

  lemma StringLength(chars: seq<Char>)
    ensures |StringText(chars)| == |BodyText(chars)| + 2
  {
  }

  /** A key; C strings end at a NUL. */
  lemma ParseKeyText(inp: Input, s: Lex, nodes: seq<Node>, chars: seq<Char>, rest: bytes)
    requires ElemReady(s, nodes, true) && CharsFit(chars)
    requires |s.frames| < |s.nescapes| && |nodes| < inp.capacity
    requires At(inp.text, s.pos, StringText(chars) + rest)
    ensures ParseBytes(inp, Parsing(s, nodes), StringText(chars) + rest)
         == ParseBytes(inp, Parsing(Closed(s, KeyFrame, |StringText(chars)|),
             nodes + [KeyVal(CString(StringMeans(chars)), Null)]), rest)
  {
    hide ParseBytes, ParseByte, BodyEscapes, StringText, StringBody, Step, StringMeans, CharsFit, InBody;
    var len := |StringText(chars)|;
    StringLength(chars);
    var ev := Pop(KeyFrame, NoSpecial, BodyEscapes(chars), s.pos, s.pos + len - 1);
    KeyStarts(s, nodes);
    ReadStringy(inp, s, nodes, KeyFrame, chars, rest);
  }
}
