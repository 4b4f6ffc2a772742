/** Printed documents that are too deep for the lexer's levels or for the node stack. */
module Overflow {
  // The node stack has as many slots as the lexer has levels, but an open object takes two of them.
  // So a document within the levels can still be too deep: then the parser writes behind the stack.
  // A document beyond the levels is refused, unless it has overflowed the node stack before.

  import opened Bytes
  import opened Decimal
  import opened Errors
  import opened Escape
  import opened Nodes
  import opened Lexer
  import opened Parser
  import opened Printer
  import opened RoundTrip

  /** Which stack a value outgrows first, if it does. */
  datatype Shortage = Enough | NoLevel | NoSlot

  /**
   A walk in preorder with the frames and slots that are left: a frame is asked for when a value or
   a key begins, a slot when a container opens or a scalar or a key is read.
   */
  function Short(n: Node, frames: nat, slots: nat): Shortage
    decreases n, 1
  {
    if frames == 0 then NoLevel
    else if slots == 0 then NoSlot
    else
      match n
      case KeyVal(_, v) => Short(v, frames, slots - 1)
      case Dict(es) => ShortAny(es, frames - 1, slots - 1)
      case Array(items) => ShortAny(items, frames - 1, slots - 1)
      case _ => Enough
  }

  /** The first of several for which there is not enough. */
  function ShortAny(ns: seq<Node>, frames: nat, slots: nat): Shortage
    decreases ns, 0
  {
    if ns == [] then Enough
    else if Short(ns[0], frames, slots) != Enough then Short(ns[0], frames, slots)
    else ShortAny(ns[1..], frames, slots)
  }

  /** There is enough if and only if there is room on both stacks, and a shortage is where there is none. */
  lemma {:induction false} ShortExactly(n: Node, frames: nat, slots: nat)
    ensures Short(n, frames, slots) == Enough <==> FrameDepth(n) <= frames && NodeDepth(n) <= slots
    ensures Short(n, frames, slots) == NoLevel ==> FrameDepth(n) > frames
    ensures Short(n, frames, slots) == NoSlot ==> NodeDepth(n) > slots
    decreases n, 1
  {
    if frames > 0 && slots > 0 {
      match n
      case KeyVal(_, v) => ShortExactly(v, frames, slots - 1);
      case Dict(es) => ShortAnyExactly(es, frames - 1, slots - 1);
      case Array(items) => ShortAnyExactly(items, frames - 1, slots - 1);
      case _ =>
    }
  }

  lemma {:induction false} ShortAnyExactly(ns: seq<Node>, frames: nat, slots: nat)
    ensures ShortAny(ns, frames, slots) == Enough <==> MaxFrameDepth(ns) <= frames && MaxNodeDepth(ns) <= slots
    ensures ShortAny(ns, frames, slots) == NoLevel ==> MaxFrameDepth(ns) > frames
    ensures ShortAny(ns, frames, slots) == NoSlot ==> MaxNodeDepth(ns) > slots
    decreases ns, 0
  {
    hide Short, FrameDepth, NodeDepth;
    if ns != [] {
      ShortExactly(ns[0], frames, slots);
      ShortAnyExactly(ns[1..], frames, slots);
    }
  }

  predicate Within(inp: Input, s: Lex, nodes: seq<Node>) {
    2 <= |s.nescapes| && |s.frames| <= |s.nescapes| && |nodes| <= inp.capacity
  }

  /** What is short for a value, with what is left on both stacks. */
  function Lack(inp: Input, s: Lex, nodes: seq<Node>, n: Node): Shortage
    requires Within(inp, s, nodes)
  {
    Short(n, |s.nescapes| - |s.frames|, inp.capacity - |nodes|)
  }

  function LackAny(inp: Input, s: Lex, nodes: seq<Node>, ns: seq<Node>): Shortage
    requires Within(inp, s, nodes)
  {
    ShortAny(ns, |s.nescapes| - |s.frames|, inp.capacity - |nodes|)
  }

  predicate Overflowed(p: Parse) { StoppedBy(p, NodeStackOverflow) }

  predicate Exceeded(p: Parse) { p.LexError? && p.error == LevelsExceeded }

  /** The end of a parse for want of a frame, or of a slot. */
  predicate Outgrown(p: Parse, lack: Shortage) { if lack == NoLevel then Exceeded(p) else Overflowed(p) }

  lemma StaysOverflowed(inp: Input, p: Parse, rest: bytes)
    requires Overflowed(p)
    ensures Overflowed(ParseBytes(inp, p, rest))
  {
    ParseStopped(inp, p, rest);
  }

  // ---- no frame ---------------------------------------------------------------------------

  /** A byte that would need one frame more than there are. */
  lemma NoFrame(inp: Input, s: Lex, nodes: seq<Node>, c: byte, rest: bytes)
    requires Valid(s) && Step(s, c) == Fail(LevelsExceeded, [], s.nescapes)
    ensures Exceeded(ParseBytes(inp, Parsing(s, nodes), [c] + rest))
  {
    hide ParseBytes, Step;
    ParseCons(inp, Parsing(s, nodes), c, rest);
    ParseStopped(inp, ParseByte(inp, Parsing(s, nodes), c), rest);
  }

  predicate Begins(c: byte) { SpecialStart(c) != NoSpecial || c == QUOTE || c == LBRACE || c == LBRACKET }

  lemma ValueBegins(f: Format, n: Node, d: int)
    requires !n.KeyVal? && !n.Number?
    ensures Print(f, n, d) != [] && Begins(Print(f, n, d)[0])
  {
    hide PrintEach, EscapeBody, Digits, Lead, Trail;
    if n.Integer? && n.intval >= 0 { LeadingDigit(n.intval as int); }
  }

  lemma BeginsWithoutFrame(s: Lex, c: byte)
    requires ValueReady(s) && |s.frames| == |s.nescapes| >= 2 && Begins(c)
    ensures Step(s, c) == Fail(LevelsExceeded, [], s.nescapes)
  {
  }

  lemma KeyWithoutFrame(s: Lex, nodes: seq<Node>)
    requires ElemReady(s, nodes, true) && |s.frames| == |s.nescapes|
    ensures Step(s, QUOTE) == Fail(LevelsExceeded, [], s.nescapes)
  {
  }

  lemma ValueWithoutFrame(inp: Input, s: Lex, nodes: seq<Node>, n: Node, f: Format, d: int, rest: bytes)
    requires ValueReady(s) && |s.frames| == |s.nescapes| >= 2 && !n.KeyVal? && !n.Number?
    ensures Exceeded(ParseBytes(inp, Parsing(s, nodes), Print(f, n, d) + rest))
  {
    hide ParseBytes, Step, Print, Begins;
    ValueBegins(f, n, d);
    var text := Print(f, n, d);
    BeginsWithoutFrame(s, text[0]);
    assert text + rest == [text[0]] + (text[1..] + rest);
    NoFrame(inp, s, nodes, text[0], text[1..] + rest);
  }

  // ---- no slot: scalars ----------------------------------------------------------------------------

  /** A bareword's node finds no slot. */
  lemma BareOverflows(inp: Input, s: Lex, s1: Lex, nodes: seq<Node>, sp: Special, rest: bytes)
    requires Valid(s) && Valid(s1) && Top(s1).kind == SpecialFrame && rest != [] && |nodes| >= inp.capacity
    requires Step(s, rest[0]) == EndSpecial(s1, rest[0]) && Finished(s1) == Ok(sp)
    requires SpecialNode(inp, PopEvent(s1, sp)).Ok?
    ensures Overflowed(ParseBytes(inp, Parsing(s, nodes), rest))
  {
    hide ParseBytes, Finished, Structural, Step, SpecialNode;
    var ev, c := PopEvent(s1, sp), rest[0];
    var next := Step(s, c);
    assert next.events[0] == ev;
    assert OnEvent(inp, nodes, ev) == Stopped(NodeStackOverflow);
    assert rest == [c] + rest[1..];
    ParseCons(inp, Parsing(s, nodes), c, rest[1..]);
    StaysOverflowed(inp, ParseByte(inp, Parsing(s, nodes), c), rest[1..]);
  }

  lemma WordOverflows(inp: Input, s: Lex, nodes: seq<Node>, sp: Special, rest: bytes)
    requires sp.TrueWord? || sp.FalseWord? || sp.NullWord?
    requires ValueReady(s) && |s.frames| < |s.nescapes| && |nodes| >= inp.capacity
    requires rest != [] && Terminator(rest[0])
    ensures Overflowed(ParseBytes(inp, Parsing(s, nodes), Word(sp) + rest))
  {
    hide ParseBytes, Step, EndSpecial, Finished, InBareword, Word;
    ReadWord(inp, s, nodes, sp, rest);
    var s1 := InBareword(s, sp, |Word(sp)|, |Word(sp)|, 0, MINUS);
    BareOverflows(inp, s1, s1, nodes, sp, rest);
  }

  lemma IntegerOverflows(inp: Input, s: Lex, nodes: seq<Node>, i: int64, rest: bytes)
    requires ValueReady(s) && |s.frames| < |s.nescapes| && |nodes| >= inp.capacity
    requires rest != [] && Terminator(rest[0]) && At(inp.text, s.pos, IntText(i) + rest)
    ensures Overflowed(ParseBytes(inp, Parsing(s, nodes), IntText(i) + rest))
  {
    hide ParseBytes, Step, EndSpecial, Finished, IntText, BehindDigits, SpecialNode, At;
    var r := ReadInteger(inp, s, nodes, i, rest);
    IntegerEvent(inp, s, i, r, rest);
    var len, sp := |IntText(i)|, if r.sp == Zero then UNSIGNED else r.sp;
    BareOverflows(inp, BehindDigits(s, len, r), BehindDigits(s, len, r.(sp := sp)), nodes, sp, rest);
  }

  /** A string or key that has been read finds no slot. */
  lemma QuotedOverflows(inp: Input, s: Lex, nodes: seq<Node>, kind: Kind, str: bytes, noescape: bool, rest: bytes)
    requires Valid(s) && Clean(s) && IsStringy(kind) && |s.frames| < |s.nescapes| && LexSafe(str, noescape)
    requires Step(s, QUOTE) == Next(StringOpened(s, kind), [Push(kind, NoSpecial, s.pos)]) && |nodes| >= inp.capacity
    requires At(inp.text, s.pos, Quoted(str, noescape) + rest)
    ensures Overflowed(ParseBytes(inp, Parsing(s, nodes), Quoted(str, noescape) + rest))
  {
    hide ParseBytes, Step, EscapeBody, EscapeCount, Quoted, StringBody, InBody, Closed, At, Clean, LexSafe;
    ParseQuoted(inp, s, nodes, kind, str, noescape, rest);
    QuotedLength(str, noescape);
    var len := |Quoted(str, noescape)|;
    var ev := Pop(kind, NoSpecial, EscapeCount(str, noescape), s.pos, s.pos + len - 1);
    StringBodyRecoded(inp, str, noescape, ev);
    assert OnEvent(inp, nodes, ev) == Stopped(NodeStackOverflow);
    StaysOverflowed(inp, Called(inp, InBody(StringOpened(s, kind), len - 2, ev.nescapes), Closed(s, kind, len), nodes,
        ev), rest);
  }

  // ---- values -----------------------------------------------------------------------------

  /** The text of a value that is too deep, read where a value may start. */
  lemma {:induction false} TreeOutgrows(inp: Input, s: Lex, nodes: seq<Node>, n: Node, f: Format, d: int, rest: bytes)
    requires ValueReady(s) && HasPlace(s, nodes) && Within(inp, s, nodes) && Lack(inp, s, nodes, n) != Enough
    requires !n.KeyVal? && Proper(n, f, rest) && (Top(s).kind == RootFrame ==> !n.Text?)
    requires At(inp.text, s.pos, Print(f, n, d) + rest)
    ensures Outgrown(ParseBytes(inp, Parsing(s, nodes), Print(f, n, d) + rest), Lack(inp, s, nodes, n))
    decreases n, 1
  {
    hide ParseBytes, ParseByte, Step, Print, At, Overflowed, Exceeded, Clean;
    if |s.frames| == |s.nescapes| {
      ValueWithoutFrame(inp, s, nodes, n, f, d, rest);
    } else if n.Dict? || n.Array? {
      ContainerOutgrows(inp, s, nodes, n, if n.Dict? then n.entries else n.items, f, d, rest);
    } else {
      ScalarOverflows(inp, s, nodes, n, f, d, rest);
    }
  }

  lemma ScalarOverflows(inp: Input, s: Lex, nodes: seq<Node>, n: Node, f: Format, d: int, rest: bytes)
    requires ValueReady(s) && HasPlace(s, nodes) && |s.frames| < |s.nescapes| && |nodes| >= inp.capacity
    requires !n.KeyVal? && !n.Dict? && !n.Array? && Proper(n, f, rest) && (Top(s).kind == RootFrame ==> !n.Text?)
    requires At(inp.text, s.pos, Print(f, n, d) + rest)
    ensures Overflowed(ParseBytes(inp, Parsing(s, nodes), Print(f, n, d) + rest))
  {
    hide ParseBytes, ParseByte, Step, Quoted, IntText, Overflowed;
    match n
    case Null => WordOverflows(inp, s, nodes, NullWord, rest);
    case Boolean(b) => WordOverflows(inp, s, nodes, if b then TrueWord else FalseWord, rest);
    case Integer(i) => IntegerOverflows(inp, s, nodes, i, rest);
    case Text(str) =>
      StringStarts(s);
      QuotedOverflows(inp, s, nodes, StringFrame, str, f.noescape, rest);
  }

  lemma ContainerOutgrows(inp: Input, s: Lex, nodes: seq<Node>, n: Node, ns: seq<Node>, f: Format, d: int, rest: bytes)
    requires (n.Dict? && n.entries == ns) || (n.Array? && n.items == ns)
    requires ValueReady(s) && HasPlace(s, nodes) && Within(inp, s, nodes) && Lack(inp, s, nodes, n) != Enough
    requires Proper(n, f, rest) && |s.frames| < |s.nescapes|
    requires At(inp.text, s.pos, Print(f, n, d) + rest)
    ensures Outgrown(ParseBytes(inp, Parsing(s, nodes), Print(f, n, d) + rest), Lack(inp, s, nodes, n))
    decreases ns, 3
  {
    hide ParseBytes, ParseByte, Step, Print, PrintEach, Lead, Trail, ElemReady, HasSlot, At, Overflowed, Exceeded;
    var keyed := n.Dict?;
    var kind := if keyed then ObjectFrame else ListFrame;
    var open, close := if keyed then LBRACE else LBRACKET, if keyed then RBRACE else RBRACKET;
    var lead, inner, trail := Lead(f, ns, d), PrintEach(f, ns, d + 1), Trail(f, ns, d);
    ContainerText(inp.text, s.pos, f, n, ns, d, open, close, rest);
    var behind := inner + (trail + ([close] + rest));
    if |nodes| == inp.capacity {
      BracketOverflows(inp, s, nodes, kind, lead + behind);
    } else {
      LeadBlank(f, ns, d);
      TrailTerminates(f, ns, d, close, rest);
      var s2, nodes1 := Opened(s, kind).(pos := s.pos + 1 + |lead|), nodes + [if keyed then Dict([]) else Array([])];
      ParseOpening(inp, s, nodes, kind, lead, behind);
      EachOutgrows(inp, s2, nodes1, ns, keyed, f, d + 1, trail + ([close] + rest));
    }
  }

  lemma BracketOverflows(inp: Input, s: Lex, nodes: seq<Node>, kind: Kind, rest: bytes)
    requires ValueReady(s) && |s.frames| < |s.nescapes| && |nodes| >= inp.capacity && IsContainer(kind)
    ensures Overflowed(ParseBytes(inp, Parsing(s, nodes), [if kind == ObjectFrame then LBRACE else LBRACKET] + rest))
  {
    hide ParseBytes, ParseByte, Step;
    var open := if kind == ObjectFrame then LBRACE else LBRACKET;
    OpenStep(s, kind);
    ParseCons(inp, Parsing(s, nodes), open, rest);
    CallbackByte(inp, s, nodes, open, Opened(s, kind), Push(kind, NoSpecial, s.pos));
    StaysOverflowed(inp, ParseByte(inp, Parsing(s, nodes), open), rest);
  }

  /** Among the elements, the first that does not fit. */
  lemma EachOutgrows(inp: Input, s: Lex, nodes: seq<Node>, ns: seq<Node>, keyed: bool, f: Format, d: int, rest: bytes)
    requires ElemReady(s, nodes, keyed) && AllElems(ns, keyed, f)
    requires Within(inp, s, nodes) && LackAny(inp, s, nodes, ns) != Enough
    requires rest != [] && Terminator(rest[0]) && At(inp.text, s.pos, PrintEach(f, ns, d) + rest)
    ensures Outgrown(ParseBytes(inp, Parsing(s, nodes), PrintEach(f, ns, d) + rest), LackAny(inp, s, nodes, ns))
    decreases ns, 2
  {
    hide ParseBytes, ParseByte, Step, Print, PrintRest, Recode, ElemPlaced, At, WellFormed, Printable, Overflowed,
        Exceeded, Clean;
    var first, tail := Print(f, ns[0], d), PrintRest(f, ns[1..], d);
    assert PrintEach(f, ns, d) + rest == first + (tail + rest);
    RestTerminates(f, ns[1..], d, rest);
    if Lack(inp, s, nodes, ns[0]) == Enough {
      ShortExactly(ns[0], |s.nescapes| - |s.frames|, inp.capacity - |nodes|);
      ParseElem(inp, s, nodes, ns[0], keyed, f, d, tail + rest);
      var s1, nodes1 := ElemsDone(s, 1, |first|, keyed), ElemPlaced(nodes, Recode(ns[0], f.noescape));
      AtConcat(inp.text, s.pos, first, tail + rest);
      ElemOverAfter(s, nodes, nodes1, |first|, keyed);
      RestOutgrows(inp, s1, nodes1, ns[1..], keyed, f, d, rest);
    } else {
      ElemOutgrows(inp, s, nodes, ns[0], keyed, f, d, tail + rest);
    }
  }

  lemma RestOutgrows(inp: Input, s: Lex, nodes: seq<Node>, ns: seq<Node>, keyed: bool, f: Format, d: int, rest: bytes)
    requires ElemOver(s, nodes, keyed) && AllElems(ns, keyed, f)
    requires Within(inp, s, nodes) && LackAny(inp, s, nodes, ns) != Enough
    requires rest != [] && Terminator(rest[0]) && At(inp.text, s.pos, PrintRest(f, ns, d) + rest)
    ensures Outgrown(ParseBytes(inp, Parsing(s, nodes), PrintRest(f, ns, d) + rest), LackAny(inp, s, nodes, ns))
    decreases ns, 2
  {
    hide ParseBytes, ParseByte, Step, Print, PrintRest, Recode, ElemPlaced, Clean, HasSlot, At, Separator, Overflowed,
        Exceeded;
    var sep, first, tail := Separator(f, d), Print(f, ns[0], d), PrintRest(f, ns[1..], d);
    RestText(inp.text, s.pos, f, ns, d, rest);
    ParseSeparator(inp, s, nodes, keyed, f, d, first + (tail + rest));
    var s1 := Separated(s, |sep|);
    RestTerminates(f, ns[1..], d, rest);
    if Lack(inp, s1, nodes, ns[0]) == Enough {
      ShortExactly(ns[0], |s1.nescapes| - |s1.frames|, inp.capacity - |nodes|);
      ParseElem(inp, s1, nodes, ns[0], keyed, f, d, tail + rest);
      var s2, nodes1 := ElemsDone(s1, 1, |first|, keyed), ElemPlaced(nodes, Recode(ns[0], f.noescape));
      ElemOverAfter(s1, nodes, nodes1, |first|, keyed);
      RestOutgrows(inp, s2, nodes1, ns[1..], keyed, f, d, rest);
    } else {
      ElemOutgrows(inp, s1, nodes, ns[0], keyed, f, d, tail + rest);
    }
  }

  lemma ElemOutgrows(inp: Input, s: Lex, nodes: seq<Node>, n: Node, keyed: bool, f: Format, d: int, rest: bytes)
    requires ElemReady(s, nodes, keyed) && n.KeyVal? == keyed
    requires WellFormed(n) && Printable(n, f.noescape) && BlankFormat(f)
    requires Within(inp, s, nodes) && Lack(inp, s, nodes, n) != Enough
    requires rest != [] && Terminator(rest[0]) && At(inp.text, s.pos, Print(f, n, d) + rest)
    ensures Outgrown(ParseBytes(inp, Parsing(s, nodes), Print(f, n, d) + rest), Lack(inp, s, nodes, n))
    decreases n, 3
  {
    hide ParseBytes, ParseByte, Step, Print, Clean, Outgrown;
    if keyed {
      EntryOutgrows(inp, s, nodes, n, f, d, rest);
    } else {
      TreeOutgrows(inp, s, nodes, n, f, d, rest);
    }
  }

  lemma EntryOutgrows(inp: Input, s: Lex, nodes: seq<Node>, n: Node, f: Format, d: int, rest: bytes)
    requires ElemReady(s, nodes, true) && n.KeyVal?
    requires WellFormed(n) && Printable(n, f.noescape) && BlankFormat(f)
    requires Within(inp, s, nodes) && Lack(inp, s, nodes, n) != Enough
    requires rest != [] && Terminator(rest[0]) && At(inp.text, s.pos, Print(f, n, d) + rest)
    ensures Outgrown(ParseBytes(inp, Parsing(s, nodes), Print(f, n, d) + rest), Lack(inp, s, nodes, n))
    decreases n, 2
  {
    hide ParseBytes, ParseByte, Step, EscapeBody, Clean, At, Recoded, Overflowed, Exceeded;
    var key, value := Quoted(n.key, f.noescape), Print(f, n.val, d);
    EntryText(inp.text, s.pos, f, n, d, rest);
    var behind := [COLON] + (f.space + (value + rest));
    if |s.frames| == |s.nescapes| {
      KeyWithoutFrame(s, nodes);
      assert key + behind == [QUOTE] + (key[1..] + behind);
      NoFrame(inp, s, nodes, QUOTE, key[1..] + behind);
    } else if |nodes| == inp.capacity {
      KeyStarts(s, nodes);
      QuotedOverflows(inp, s, nodes, KeyFrame, n.key, f.noescape, behind);
    } else {
      var nodes1 := nodes + [KeyVal(Recoded(n.key, f.noescape), Null)];
      ParseKey(inp, s, nodes, n.key, f.noescape, behind);
      var s1 := Closed(s, KeyFrame, |key|);
      ParseColon(inp, s, s1, nodes1, |key|, f.space, value + rest);
      TreeOutgrows(inp, AfterColon(s1, 1 + |f.space|), nodes1, n.val, f, d, rest);
    }
  }

  // ---- documents --------------------------------------------------------------------------

  /** A scalar's text is wrapped in a list. */
  function Wrapped(n: Node): Node { if n.Dict? || n.Array? then n else Array([n]) }

  /** What is short for a document: the root frame takes a level, but no slot. */
  function DocumentLack(n: Node, levels: nat): Shortage {
    if levels == 0 then NoLevel else Short(Wrapped(n), levels - 1, levels)
  }

  lemma DocumentLackExactly(n: Node, levels: nat)
    requires levels >= 2 && !n.KeyVal?
    ensures DocumentLack(n, levels) == Enough <==> Fits(n, levels)
    ensures !FramesFit(n, levels) && NodesFit(n, levels) ==> DocumentLack(n, levels) == NoLevel
    ensures FramesFit(n, levels) && !NodesFit(n, levels) ==> DocumentLack(n, levels) == NoSlot
  {
    hide Short;
    ShortExactly(Wrapped(n), levels - 1, levels);
    if !(n.Dict? || n.Array?) { MaxOfOne(n); }
  }

  /** What becomes of a document that is printed and parsed. */
  predicate Expected(r: Result<Node, ParseError>, n: Node, noescape: bool, levels: nat) {
    match DocumentLack(n, levels)
    case Enough => r == Ok(Recode(n, noescape))
    case NoLevel => r == Err(LexerError(LevelsExceeded))
    case NoSlot => r == Err(Undefined(NodeStackOverflow))
  }

  /**
   The text of a tree without doubles parses to that tree, recoded, if and only if both stacks have
   room for it. Else it is refused, or the parser writes behind the node stack, whichever shortage
   the walk through the tree meets first.
   */
  lemma ParsePrintExactly(n: Node, f: Format, column: seq<nat>, strtod: FloatReader)
    requires IsValue(n) && Printable(n, f.noescape) && BlankFormat(f)
    requires |column| >= 2 && Fresh(column)
    ensures Expected(CreateNode(Print(f, n, 0), column, strtod), n, f.noescape, |column|)
  {
    hide CreateNode, ParseBytes, Print, Recode, Start, Outgrown, Short, Fits;
    DocumentLackExactly(n, |column|);
    if Fits(n, |column|) {
      ParsePrint(n, f, column, strtod);
    } else {
      var text := Print(f, n, 0);
      FirstByte(f, n);
      if n.Dict? || n.Array? {
        assert SkipWhitespace(text) == 0 && Buffer(text) == text;
        DocumentOutgrows(n, f, column, strtod);
      } else {
        var g := Format([], [], [], f.noescape, f.dtoa);
        WrappedScalar(n, f, g);
        assert SkipWhitespace(text) == 0 && text[0..] == text && Buffer(text) == Print(g, Wrapped(n), 0);
        DocumentOutgrows(Wrapped(n), g, column, strtod);
      }
      TextOutgrows(text, DocumentLack(n, |column|), column, strtod);
    }
  }

  /** What `CreateNodeFromJSON` makes of such an end. */
  lemma TextOutgrows(text: bytes, lack: Shortage, column: seq<nat>, strtod: FloatReader)
    requires |column| >= 2
    requires Outgrown(ParseBytes(Input(Buffer(text), |column|, strtod), Parsing(Start(column), []), Buffer(text)), lack)
    ensures CreateNode(text, column, strtod)
         == Err(if lack == NoLevel then LexerError(LevelsExceeded) else Undefined(NodeStackOverflow))
  {
    hide ParseBytes, Buffer;
  }

  lemma DocumentOutgrows(n: Node, f: Format, column: seq<nat>, strtod: FloatReader)
    requires WellFormed(n) && (n.Dict? || n.Array?) && Printable(n, f.noescape) && BlankFormat(f)
    requires |column| >= 2 && Fresh(column) && Short(n, |column| - 1, |column|) != Enough
    ensures var text := Print(f, n, 0);
      Outgrown(ParseBytes(Input(text, |column|, strtod), Parsing(Start(column), []), text),
               Short(n, |column| - 1, |column|))
  {
    hide Print, ParseByte, ParseBytes, Outgrown, Short;
    var text := Print(f, n, 0);
    var inp, s := Input(text, |column|, strtod), Start(column);
    assert text + [] == text && text[0..|text|] == text;
    TreeOutgrows(inp, s, [], n, f, 0, []);
  }

  /** An object in the one entry of an object, k times over. */
  function Nest(k: nat): Node { if k == 0 then Dict([]) else Dict([KeyVal([], Nest(k - 1))]) }

  lemma {:induction false} NestDepths(k: nat)
    ensures FrameDepth(Nest(k)) == k + 1 && NodeDepth(Nest(k)) == 2 * k + 1
    ensures IsValue(Nest(k)) && Printable(Nest(k), false)
  {
    if k > 0 {
      NestDepths(k - 1);
      OneEntryDepths(Nest(k - 1));
    }
  }

  lemma OneEntryDepths(n: Node)
    ensures var d := Dict([KeyVal([], n)]);
      && FrameDepth(d) == 1 + FrameDepth(n) && NodeDepth(d) == 1 + NodeDepth(KeyVal([], n))
      && (IsValue(n) ==> IsValue(d)) && (Printable(n, false) ==> Printable(d, false))
  {
    MaxOfOne(KeyVal([], n));
    assert Dict([KeyVal([], n)]).entries[1..] == [];
  }

  /** For every number of levels from 4 on there is a document within them that overflows the node stack. */
  lemma LevelsDoNotProtect(column: seq<nat>, f: Format, strtod: FloatReader)
    requires |column| >= 4 && Fresh(column) && BlankFormat(f) && !f.noescape
    ensures var n := Nest(|column| - 2);
      FramesFit(n, |column|) && CreateNode(Print(f, n, 0), column, strtod) == Err(Undefined(NodeStackOverflow))
  {
    hide CreateNode, Print;
    NestDepths(|column| - 2);
    DocumentLackExactly(Nest(|column| - 2), |column|);
    ParsePrintExactly(Nest(|column| - 2), f, column, strtod);
  }

  /** The text {"":{"":{}}} . */
  const NESTED: bytes :=
    [LBRACE, QUOTE, QUOTE, COLON, LBRACE, QUOTE, QUOTE, COLON, LBRACE, RBRACE, RBRACE, RBRACE]

  /** The smallest of them: it has three frames above the root, and needs five nodes. */
  lemma NestedOverflows(strtod: FloatReader)
    ensures CreateNode(NESTED, [0, 0, 0, 0], strtod) == Err(Undefined(NodeStackOverflow))
  {
    hide CreateNode, Print;
    var f := Format([], [], [], false, _ => []);
    assert Nest(2) == Dict([KeyVal([], Dict([KeyVal([], Dict([]))]))]);
    LevelsDoNotProtect([0, 0, 0, 0], f, strtod);
    NestedText(f);
  }

  lemma NestedText(f: Format)
    requires f.indent == f.newline == f.space == [] && !f.noescape
    ensures Print(f, Dict([KeyVal([], Dict([KeyVal([], Dict([]))]))]), 0) == NESTED
  {
    EmptyText(f, 2);
    NestText(f, Dict([]), 1);
    NestText(f, Dict([KeyVal([], Dict([]))]), 0);
  }

  lemma EmptyText(f: Format, d: int)
    requires f.indent == f.newline == []
    ensures Print(f, Dict([]), d) == [LBRACE, RBRACE]
  {
    NoIndent(f, d);
    NoIndent(f, d + 1);
  }

  lemma NestText(f: Format, n: Node, d: int)
    requires f.indent == f.newline == f.space == [] && !f.noescape
    ensures Print(f, Dict([KeyVal([], n)]), d) == [LBRACE, QUOTE, QUOTE, COLON] + Print(f, n, d + 1) + [RBRACE]
  {
    hide Indent, Head;
    NoIndent(f, d);
    NoIndent(f, d + 1);
    var kv := KeyVal([], n);
    KeyText(f, n, d + 1);
    OneEntry(f, kv, d + 1);
  }

  lemma OneEntry(f: Format, kv: Node, d: int)
    ensures PrintEach(f, [kv], d) == Print(f, kv, d)
  {
    hide Print;
    assert [kv][1..] == [] && PrintRest(f, [], d) == [];
  }

  lemma KeyText(f: Format, n: Node, d: int)
    requires f.space == [] && !f.noescape
    ensures Print(f, KeyVal([], n), d) == [QUOTE, QUOTE, COLON] + Print(f, n, d)
  {
    assert Quoted([], false) == [QUOTE, QUOTE];
  }
}
