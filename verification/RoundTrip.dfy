/** Parsing undoes printing. */
module RoundTrip {
  // Each lemma follows one piece of printed text through the parser: from the state in which the
  // piece starts, for any text that follows, the parser arrives at one known state in front of
  // the rest.

  import opened Bytes
  import opened Decimal
  import opened Utf8
  import opened Escape
  import opened Nodes
  import opened Lexer
  import opened Parser
  import opened Printer

  // ---- which trees, and what comes back ---------------------------------------------------

  /** Bytes that reach the lexer as part of a string without an error. */
  predicate LexSafe(s: bytes, noescape: bool) {
    noescape ==> forall i :: 0 <= i < |s| ==> TwoCharEscape(s[i]) != NUL || IsSimpleChar(s[i])
  }

  /** Trees without doubles, and with strings the chosen escaping can carry. */
  predicate Printable(n: Node, noescape: bool)
    decreases n, 1
  {
    match n
    case Number(_) => false
    case Text(s) => LexSafe(s, noescape)
    case KeyVal(k, v) => LexSafe(k, noescape) && Printable(v, noescape)
    case Dict(es) => AllPrintable(es, noescape)
    case Array(items) => AllPrintable(items, noescape)
    case _ => true
  }

  predicate AllPrintable(ns: seq<Node>, noescape: bool)
    decreases ns, 0
  {
    forall i :: 0 <= i < |ns| ==> Printable(ns[i], noescape)
  }

  /** The tree that comes back: the same, but for bytes above 0x7f that were escaped one by one. */
  function Recode(n: Node, noescape: bool): (r: Node)
    ensures r.KeyVal? == n.KeyVal?
    decreases n, 1
  {
    match n
    case Text(s) => Text(Recoded(s, noescape))
    case KeyVal(k, v) => KeyVal(Recoded(k, noescape), Recode(v, noescape))
    case Dict(es) => Dict(RecodeAll(es, noescape))
    case Array(items) => Array(RecodeAll(items, noescape))
    case _ => n
  }

  function RecodeAll(ns: seq<Node>, noescape: bool): (r: seq<Node>)
    ensures |r| == |ns|
    ensures forall i :: 0 <= i < |ns| ==> r[i].KeyVal? == ns[i].KeyVal?
    decreases ns, 0
  {
    if ns == [] then [] else [Recode(ns[0], noescape)] + RecodeAll(ns[1..], noescape)
  }

  function Max(a: nat, b: nat): nat { if a > b then a else b }

  /** Lexer frames a value needs on top of its container's. */
  function FrameDepth(n: Node): (d: nat)
    ensures d >= 1
    decreases n, 1
  {
    match n
    case KeyVal(_, v) => FrameDepth(v)
    case Dict(es) => 1 + MaxFrameDepth(es)
    case Array(items) => 1 + MaxFrameDepth(items)
    case _ => 1
  }

  function MaxFrameDepth(ns: seq<Node>): nat
    decreases ns, 0
  {
    if ns == [] then 0 else Max(FrameDepth(ns[0]), MaxFrameDepth(ns[1..]))
  }

  /** Slots of the node stack a value needs; an object's entry needs one for its key. */
  function NodeDepth(n: Node): (d: nat)
    ensures d >= 1
    decreases n, 1
  {
    match n
    case KeyVal(_, v) => 1 + NodeDepth(v)
    case Dict(es) => 1 + MaxNodeDepth(es)
    case Array(items) => 1 + MaxNodeDepth(items)
    case _ => 1
  }

  function MaxNodeDepth(ns: seq<Node>): nat
    decreases ns, 0
  {
    if ns == [] then 0 else Max(NodeDepth(ns[0]), MaxNodeDepth(ns[1..]))
  }

  lemma MaxOfOne(n: Node)
    ensures MaxFrameDepth([n]) == FrameDepth(n) && MaxNodeDepth([n]) == NodeDepth(n)
  {
    hide FrameDepth, NodeDepth;
    NoneDeep([n][1..]);
  }

  lemma NoneDeep(ns: seq<Node>)
    requires ns == []
    ensures MaxFrameDepth(ns) == 0 && MaxNodeDepth(ns) == 0
  {
  }

  predicate AllWhitespace(s: bytes) {
    forall i :: 0 <= i < |s| ==> IsWhitespace(s[i])
  }

  /** Compact, or with white space only. */
  predicate BlankFormat(f: Format) {
    AllWhitespace(f.indent) && AllWhitespace(f.newline) && AllWhitespace(f.space)
  }

  // ---- states -----------------------------------------------------------------------------

  /** No slot above the current level remembers an escape. */
  predicate Clean(s: Lex) {
    forall i :: |s.frames| <= i < |s.nescapes| ==> s.nescapes[i] == 0
  }

  /** A value may start here. */
  predicate ValueReady(s: Lex) {
    && Valid(s) && Clean(s) && !s.inEscape && s.canInsert
    && (|s.frames| == 1 || IsContainer(Top(s).kind))
    && (Top(s).kind == ObjectFrame ==> Top(s).nelem % 2 == 1 && s.tokLast == COLON)
  }

  function Bumped(frames: seq<Frame>): seq<Frame>
    requires frames != []
  {
    var k := |frames| - 1;
    frames[k := frames[k].(nelem := frames[k].nelem + 1)]
  }

  /** The lexer behind a finished value of this length. */
  function Done(s: Lex, len: nat): Lex
    requires s.frames != []
  {
    Lex(Bumped(s.frames), s.nescapes, s.pos + len, COMMA, 0, false, false)
  }

  /** The node stack has a place for a value: none yet, an array, or an object's pending key. */
  predicate HasPlace(s: Lex, nodes: seq<Node>)
    requires s.frames != []
  {
    var k := |nodes| - 1;
    match Top(s).kind
    case RootFrame => nodes == []
    case ListFrame => nodes != [] && nodes[k].Array?
    case ObjectFrame => |nodes| >= 2 && nodes[k].KeyVal? && nodes[k - 1].Dict? && AllKeyVals(nodes[k - 1].entries)
    case _ => false
  }

  function Placed(s: Lex, nodes: seq<Node>, v: Node): seq<Node>
    requires s.frames != [] && HasPlace(s, nodes)
  {
    var k := |nodes| - 1;
    match Top(s).kind
    case ListFrame => nodes[k := Array(nodes[k].items + [v])]
    case ObjectFrame => nodes[..k][k - 1 := Dict(SetKeyVal(nodes[k - 1].entries, KeyVal(nodes[k].key, v)))]
    case _ => [v]
  }

  lemma AttachPlaced(s: Lex, nodes: seq<Node>, v: Node)
    requires s.frames != [] && HasPlace(s, nodes)
    ensures nodes == [] ==> Placed(s, nodes, v) == nodes + [v]
    ensures nodes != [] ==> Attach(nodes + [v]) == Nodes(Placed(s, nodes, v))
  {
    if nodes != [] {
      var below := (nodes + [v])[..|nodes|];
      assert below == nodes;
    }
  }

  // ---- single bytes -----------------------------------------------------------------------

  lemma ParseCons(inp: Input, p: Parse, c: byte, rest: bytes)
    requires p.Parsing? ==> Valid(p.lex)
    ensures ParseBytes(inp, p, [c] + rest) == ParseBytes(inp, ParseByte(inp, p, c), rest)
  {
    assert ([c] + rest)[1..] == rest;
  }

  /** A byte without callbacks. */
  lemma QuietByte(inp: Input, s: Lex, nodes: seq<Node>, c: byte, s': Lex)
    requires Valid(s) && Step(s, c) == Next(s', [])
    ensures ParseByte(inp, Parsing(s, nodes), c) == Parsing(s', nodes)
  {
  }

  /** The parse after a byte with one callback. */
  function Called(inp: Input, s: Lex, s': Lex, nodes: seq<Node>, ev: Event): Parse {
    match OnEvent(inp, nodes, ev)
    case Nodes(ns) => Parsing(s', ns)
    case Stopped(stop) => CallbackStop(stop, if ev.Pop? then s.nescapes else s'.nescapes)
  }

  /** A byte with one callback. */
  lemma CallbackByte(inp: Input, s: Lex, nodes: seq<Node>, c: byte, s': Lex, ev: Event)
    requires Valid(s) && Step(s, c) == Next(s', [ev])
    ensures ParseByte(inp, Parsing(s, nodes), c) == Called(inp, s, s', nodes, ev)
  {
    hide Step, OnEvent;
    EventsOne(inp, nodes, ev);
  }

  lemma EventsOne(inp: Input, nodes: seq<Node>, ev: Event)
    ensures OnEvents(inp, nodes, [ev]) == OnEvent(inp, nodes, ev)
  {
    hide OnEvent;
    assert [ev][1..] == [];
    match OnEvent(inp, nodes, ev)
    case Stopped(_) =>
    case Nodes(ns) => assert OnEvents(inp, ns, []) == Nodes(ns);
  }

  lemma BlankStep(s: Lex, c: byte)
    requires Valid(s) && (|s.frames| == 1 || IsContainer(Top(s).kind)) && IsWhitespace(c)
    ensures Step(s, c) == Next(Advance(s), [])
  {
  }

  lemma PlainStep(s: Lex, c: byte)
    requires Valid(s) && IsStringy(Top(s).kind) && !s.inEscape && IsSimpleChar(c)
    ensures Step(s, c) == Next(Advance(s), [])
  {
  }

  lemma {:induction false} ParseBlanks(inp: Input, s: Lex, nodes: seq<Node>, w: bytes, rest: bytes)
    requires Valid(s) && !s.inEscape && (|s.frames| == 1 || IsContainer(Top(s).kind)) && AllWhitespace(w)
    ensures ParseBytes(inp, Parsing(s, nodes), w + rest)
      == ParseBytes(inp, Parsing(s.(pos := s.pos + |w|), nodes), rest)
    decreases |w|
  {
    hide Step, ParseBytes, ParseByte;
    if w == [] {
      assert w + rest == rest;
    } else {
      var s1 := Advance(s);
      assert w + rest == [w[0]] + (w[1..] + rest);
      BlankStep(s, w[0]);
      ParseCons(inp, Parsing(s, nodes), w[0], w[1..] + rest);
      QuietByte(inp, s, nodes, w[0], s1);
      ParseBlanks(inp, s1, nodes, w[1..], rest);
    }
  }

  // ---- strings ----------------------------------------------------------------------------

  /** Backslashes in the body of a printed string. */
  function EscapeCount(s: bytes, noescape: bool): nat {
    if s == [] then 0 else (if IsSimple(s[0], noescape) then 0 else 1) + EscapeCount(s[1..], noescape)
  }

  /** In a string, n bytes and k escapes on. */
  function InBody(s: Lex, n: nat, k: nat): Lex
    requires Valid(s)
  {
    WithEscapes(s, Escapes(s) + k).(pos := s.pos + n)
  }

  lemma {:induction false} ParseBody(inp: Input, s: Lex, nodes: seq<Node>, str: bytes, noescape: bool, rest: bytes)
    requires Valid(s) && IsStringy(Top(s).kind) && !s.inEscape && LexSafe(str, noescape)
    ensures ParseBytes(inp, Parsing(s, nodes), EscapeBody(str, noescape) + rest)
         == ParseBytes(inp, Parsing(InBody(s, |EscapeBody(str, noescape)|, EscapeCount(str, noescape)), nodes), rest)
    decreases |str|
  {
    hide Step, ParseBytes, ParseByte, EscapeByte, TwoCharEscape, IsSimple;
    if str == [] {
      assert EscapeBody(str, noescape) + rest == rest;
      assert s.nescapes[Level(s) := Escapes(s)] == s.nescapes;
    } else {
      var e, tail := EscapeByte(str[0], noescape), EscapeBody(str[1..], noescape);
      var k := if IsSimple(str[0], noescape) then 0 else 1;
      var s1 := InBody(s, |e|, k);
      assert EscapeBody(str, noescape) + rest == e + (tail + rest);
      ParseEscaped(inp, s, nodes, str[0], noescape, tail + rest);
      assert LexSafe(str[1..], noescape);
      ParseBody(inp, s1, nodes, str[1..], noescape, rest);
      InBodyTwice(s, |e|, k, |tail|, EscapeCount(str[1..], noescape));
    }
  }

  lemma InBodyTwice(s: Lex, n: nat, k: nat, n': nat, k': nat)
    requires Valid(s) && IsStringy(Top(s).kind)
    ensures InBody(InBody(s, n, k), n', k') == InBody(s, n + n', k + k')
  {
  }

  /** One printed byte of a string: itself, a two-byte escape, or six bytes. */
  lemma ParseEscaped(inp: Input, s: Lex, nodes: seq<Node>, c: byte, noescape: bool, rest: bytes)
    requires Valid(s) && IsStringy(Top(s).kind) && !s.inEscape && LexSafe([c], noescape)
    ensures var e := EscapeByte(c, noescape);
      ParseBytes(inp, Parsing(s, nodes), e + rest)
      == ParseBytes(inp, Parsing(InBody(s, |e|, if IsSimple(c, noescape) then 0 else 1), nodes), rest)
  {
    hide Step, ParseBytes, ParseByte;
    assert s.nescapes[Level(s) := Escapes(s)] == s.nescapes;
    var e := EscapeByte(c, noescape);
    if IsSimple(c, noescape) {
      assert [c][0] == c;
      PlainStep(s, c);
      ParseCons(inp, Parsing(s, nodes), c, rest);
      QuietByte(inp, s, nodes, c, Advance(s));
    } else if TwoCharEscape(c) != NUL {
      assert e + rest == [BACKSLASH] + ([e[1]] + rest);
      ParseEscape(inp, s, nodes, e[1], rest);
    } else {
      assert e + rest == [BACKSLASH] + ([0x75] + (e[2..] + rest));
      ParseEscape(inp, s, nodes, 0x75, e[2..] + rest);
      ParsePlain(inp, InBody(s, 2, 1), nodes, e[2..], rest);
    }
  }

  lemma ParseEscape(inp: Input, s: Lex, nodes: seq<Node>, x: byte, rest: bytes)
    requires Valid(s) && IsStringy(Top(s).kind) && !s.inEscape && IsAllowedEscape(x)
    ensures ParseBytes(inp, Parsing(s, nodes), [BACKSLASH] + ([x] + rest))
         == ParseBytes(inp, Parsing(InBody(s, 2, 1), nodes), rest)
  {
    hide ParseBytes, ParseByte, Step;
    var s1 := Advance(WithEscapes(s, Escapes(s) + 1).(inEscape := true));
    EscapeSteps(s, x);
    ParseCons(inp, Parsing(s, nodes), BACKSLASH, [x] + rest);
    QuietByte(inp, s, nodes, BACKSLASH, s1);
    ParseCons(inp, Parsing(s1, nodes), x, rest);
    QuietByte(inp, s1, nodes, x, InBody(s, 2, 1));
  }

  lemma EscapeSteps(s: Lex, x: byte)
    requires Valid(s) && IsStringy(Top(s).kind) && !s.inEscape && IsAllowedEscape(x)
    ensures var s1 := Advance(WithEscapes(s, Escapes(s) + 1).(inEscape := true));
      && Valid(s1) && Step(s, BACKSLASH) == Next(s1, [])
      && Step(s1, x) == Next(InBody(s, 2, 1), [])
  {
  }

  lemma {:induction false} ParsePlain(inp: Input, s: Lex, nodes: seq<Node>, w: bytes, rest: bytes)
    requires Valid(s) && IsStringy(Top(s).kind) && !s.inEscape
    requires forall i :: 0 <= i < |w| ==> IsSimpleChar(w[i])
    ensures ParseBytes(inp, Parsing(s, nodes), w + rest)
      == ParseBytes(inp, Parsing(s.(pos := s.pos + |w|), nodes), rest)
    decreases |w|
  {
    hide Step, ParseBytes, ParseByte;
    if w == [] {
      assert w + rest == rest;
    } else {
      assert w + rest == [w[0]] + (w[1..] + rest);
      PlainStep(s, w[0]);
      ParseCons(inp, Parsing(s, nodes), w[0], w[1..] + rest);
      QuietByte(inp, s, nodes, w[0], Advance(s));
      ParsePlain(inp, Advance(s), nodes, w[1..], rest);
    }
  }

  /** What the callback makes of the body, escapes or not. */
  lemma StringBodyRecoded(inp: Input, str: bytes, noescape: bool, ev: Event)
    requires ev.Pop? && ev.nescapes == EscapeCount(str, noescape)
    requires Slice(inp.text, ev.begin + 1, ev.end) == EscapeBody(str, noescape)
    ensures StringBody(inp, ev) == Ok(Recoded(str, noescape))
  {
    if ev.nescapes == 0 {
      NoEscapes(str, noescape);
    } else {
      UnescapeEscape(str, noescape);
      assert str != [];
    }
  }

  lemma {:induction false} NoEscapes(str: bytes, noescape: bool)
    requires EscapeCount(str, noescape) == 0
    ensures EscapeBody(str, noescape) == str == Recoded(str, noescape)
  {
    if str != [] {
      NoEscapes(str[1..], noescape);
      assert str == [str[0]] + str[1..];
    }
  }

  /** Behind the opening quote of a string or a key. */
  function StringOpened(s: Lex, kind: Kind): Lex
    requires s.frames != []
  {
    Lex(Bumped(s.frames) + [Frame(kind, 0, s.pos, NoSpecial)], s.nescapes, s.pos + 1,
        if kind == KeyFrame then COLON else COMMA, 0, false, false)
  }

  lemma OpeningQuote(inp: Input, s: Lex, nodes: seq<Node>, kind: Kind, s1: Lex)
    requires Valid(s) && IsStringy(kind) && Step(s, QUOTE) == Next(s1, [Push(kind, NoSpecial, s.pos)])
    ensures ParseByte(inp, Parsing(s, nodes), QUOTE) == Parsing(s1, nodes)
  {
    hide Step, ParseByte;
    CallbackByte(inp, s, nodes, QUOTE, s1, Push(kind, NoSpecial, s.pos));
  }

  /** The opening quote and the body. */
  lemma ReadQuoted(inp: Input, s: Lex, nodes: seq<Node>, kind: Kind, str: bytes, noescape: bool, rest: bytes)
    requires Valid(s) && Clean(s) && IsStringy(kind) && |s.frames| < |s.nescapes| && LexSafe(str, noescape)
    requires Step(s, QUOTE) == Next(StringOpened(s, kind), [Push(kind, NoSpecial, s.pos)])
    ensures var body, k := EscapeBody(str, noescape), EscapeCount(str, noescape);
      && Valid(StringOpened(s, kind)) && Valid(InBody(StringOpened(s, kind), |body|, k))
      && |Quoted(str, noescape)| == |body| + 2
      && ParseBytes(inp, Parsing(s, nodes), Quoted(str, noescape) + rest)
         == ParseBytes(inp, Parsing(InBody(StringOpened(s, kind), |body|, k), nodes), [QUOTE] + rest)
  {
    hide Step, ParseBytes, ParseByte, EscapeBody, EscapeCount, LexSafe;
    var body := EscapeBody(str, noescape);
    var s1 := StringOpened(s, kind);
    assert Quoted(str, noescape) + rest == [QUOTE] + (body + ([QUOTE] + rest));
    ParseCons(inp, Parsing(s, nodes), QUOTE, body + ([QUOTE] + rest));
    OpeningQuote(inp, s, nodes, kind, s1);
    ParseBody(inp, s1, nodes, str, noescape, [QUOTE] + rest);
  }

  /** From the opening quote to the closing one; what the POP callback then sees. */
  lemma ParseQuoted(inp: Input, s: Lex, nodes: seq<Node>, kind: Kind, str: bytes, noescape: bool, rest: bytes)
    requires Valid(s) && Clean(s) && IsStringy(kind) && |s.frames| < |s.nescapes| && LexSafe(str, noescape)
    requires Step(s, QUOTE) == Next(StringOpened(s, kind), [Push(kind, NoSpecial, s.pos)])
    requires At(inp.text, s.pos, Quoted(str, noescape) + rest)
    ensures var len := |Quoted(str, noescape)|;
      var ev := Pop(kind, NoSpecial, EscapeCount(str, noescape), s.pos, s.pos + len - 1);
      && Slice(inp.text, ev.begin + 1, ev.end) == EscapeBody(str, noescape)
      && ParseBytes(inp, Parsing(s, nodes), Quoted(str, noescape) + rest)
         == ParseBytes(inp, Called(inp, InBody(StringOpened(s, kind), len - 2, ev.nescapes), Closed(s, kind, len),
             nodes, ev), rest)
  {
    hide Step, ParseBytes, ParseByte, EscapeBody, EscapeCount, LexSafe, At, Called, Closed, InBody, StringOpened, Clean;
    var body, k := EscapeBody(str, noescape), EscapeCount(str, noescape);
    ReadQuoted(inp, s, nodes, kind, str, noescape, rest);
    var s2, ev := InBody(StringOpened(s, kind), |body|, k), Pop(kind, NoSpecial, k, s.pos, s.pos + 1 + |body|);
    ParseCons(inp, Parsing(s2, nodes), QUOTE, rest);
    ClosingQuote(s, kind, |body|, k);
    CallbackByte(inp, s2, nodes, QUOTE, Closed(s, kind, |body| + 2), ev);
    BodySlice(inp, s.pos, body, rest);
  }

  /** Behind the closing quote. */
  function Closed(s: Lex, kind: Kind, len: nat): Lex
    requires s.frames != []
  {
    Done(s, len).(expecting := if kind == KeyFrame then COLON else COMMA)
  }

  lemma ClosingQuote(s: Lex, kind: Kind, n: nat, k: nat)
    requires Valid(s) && Clean(s) && IsStringy(kind) && |s.frames| < |s.nescapes|
    requires Valid(StringOpened(s, kind))
    ensures Step(InBody(StringOpened(s, kind), n, k), QUOTE)
         == Next(Closed(s, kind, n + 2), [Pop(kind, NoSpecial, k, s.pos, s.pos + 1 + n)])
  {
    var s1 := StringOpened(s, kind);
    assert s1.frames[..|s1.frames| - 1] == Bumped(s.frames);
    assert s.nescapes[|s.frames| := k][|s.frames| := 0] == s.nescapes;
  }

  lemma BodySlice(inp: Input, pos: nat, body: bytes, rest: bytes)
    requires At(inp.text, pos, [QUOTE] + body + [QUOTE] + rest)
    ensures Slice(inp.text, pos + 1, pos + 1 + |body|) == body
  {
    var whole := [QUOTE] + body + [QUOTE] + rest;
    assert whole == [QUOTE] + (body + ([QUOTE] + rest));
    AtConcat(inp.text, pos, [QUOTE], body + ([QUOTE] + rest));
    AtConcat(inp.text, pos + 1, body, [QUOTE] + rest);
  }

  lemma ParseString(inp: Input, s: Lex, nodes: seq<Node>, str: bytes, noescape: bool, rest: bytes)
    requires ValueReady(s) && IsContainer(Top(s).kind) && HasPlace(s, nodes) && LexSafe(str, noescape)
    requires |s.frames| < |s.nescapes| && |nodes| < inp.capacity
    requires At(inp.text, s.pos, Quoted(str, noescape) + rest)
    ensures ParseBytes(inp, Parsing(s, nodes), Quoted(str, noescape) + rest)
         == ParseBytes(inp, Parsing(Done(s, |Quoted(str, noescape)|), Placed(s, nodes, Text(Recoded(str, noescape)))),
                       rest)
  {
    hide ParseBytes, ParseByte, EscapeBody, EscapeCount, Quoted, StringBody, Step, OnEvent, Placed, HasPlace, At,
        Recoded;
    var len := |EscapeBody(str, noescape)| + 2;
    assert |Quoted(str, noescape)| == len by {
      QuotedLength(str, noescape);
    }
    var ev := Pop(StringFrame, NoSpecial, EscapeCount(str, noescape), s.pos, s.pos + len - 1);
    StringStarts(s);
    ParseQuoted(inp, s, nodes, StringFrame, str, noescape, rest);
    StringBodyRecoded(inp, str, noescape, ev);
    StringPlaced(inp, s, nodes, ev, Recoded(str, noescape));
  }

  lemma StringPlaced(inp: Input, s: Lex, nodes: seq<Node>, ev: Event, str: bytes)
    requires s.frames != [] && HasPlace(s, nodes) && |nodes| < inp.capacity
    requires ev.Pop? && ev.kind == StringFrame && StringBody(inp, ev) == Ok(str)
    ensures OnEvent(inp, nodes, ev) == Nodes(Placed(s, nodes, Text(str)))
  {
    hide StringBody, Placed, HasPlace, Attach;
    AttachPlaced(s, nodes, Text(str));
  }

  lemma QuotedLength(str: bytes, noescape: bool)
    ensures |Quoted(str, noescape)| == |EscapeBody(str, noescape)| + 2
  {
  }

  lemma StringStarts(s: Lex)
    requires ValueReady(s) && IsContainer(Top(s).kind) && |s.frames| < |s.nescapes|
    ensures Step(s, QUOTE) == Next(StringOpened(s, StringFrame), [Push(StringFrame, NoSpecial, s.pos)])
  {
  }

  // ---- barewords --------------------------------------------------------------------------

  /** Bytes that can follow a value in printed text. */
  predicate Terminator(c: byte) { IsWhitespace(c) || c == COMMA || c == RBRACKET || c == RBRACE }

  /** The byte after a bareword pops it and is then read as if the value had been complete before. */
  lemma BareEnd(inp: Input, s: Lex, s1: Lex, nodes: seq<Node>, t: byte, sp: Special, nodes': seq<Node>)
    requires Valid(s) && Valid(s1) && Top(s1).kind == SpecialFrame && Terminator(t)
    requires Step(s, t) == EndSpecial(s1, t) && Finished(s1) == Ok(sp)
    requires OnEvent(inp, nodes, PopEvent(s1, sp)) == Nodes(nodes')
    ensures ParseByte(inp, Parsing(s, nodes), t) == ParseByte(inp, Parsing(SpecialPopped(s1), nodes'), t)
  {
    hide OnEvent, Structural, Finished;
    var s2, ev := SpecialPopped(s1), PopEvent(s1, sp);
    TerminatorStep(s2, t);
    var next := if IsWhitespace(t) then Next(Advance(s2), []) else Structural(s2, t);
    assert Step(s2, t) == next && EndSpecial(s1, t) == After(ev, next) by {
      assert [ev] + [] == [ev];
    }
    PopsKeepColumn(s2, t);
    assert ([ev] + next.events)[1..] == next.events;
  }

  lemma TerminatorStep(s: Lex, t: byte)
    requires Valid(s) && (|s.frames| == 1 || IsContainer(Top(s).kind)) && Terminator(t)
    ensures Step(s, t) == if IsWhitespace(t) then Next(Advance(s), []) else Structural(s, t)
  {
    hide Structural;
  }

  /** In a bareword that began in state s: its flags, the bytes so far, and its digits. */
  function InBareword(s: Lex, sp: Special, n: nat, escapes: nat, nelem: nat, tokLast: byte): Lex
    requires s.frames != [] && |s.frames| < |s.nescapes|
  {
    Lex(Bumped(s.frames) + [Frame(SpecialFrame, nelem, s.pos, sp)], s.nescapes[|s.frames| := escapes],
        s.pos + n, s.expecting, tokLast, s.canInsert, false)
  }

  lemma BarewordValid(s: Lex, sp: Special, n: nat, escapes: nat, nelem: nat, tokLast: byte)
    requires ValueReady(s) && |s.frames| < |s.nescapes|
    ensures var s1 := InBareword(s, sp, n, escapes, nelem, tokLast);
      && Valid(s1) && Escapes(s1) == escapes && Top(s1) == Frame(SpecialFrame, nelem, s.pos, sp)
      && SpecialPopped(s1) == Done(s, n)
      && PopEvent(s1, sp) == Pop(SpecialFrame, sp, escapes, s.pos, s.pos + n)
  {
    var s1 := InBareword(s, sp, n, escapes, nelem, tokLast);
    assert s1.frames[..|s1.frames| - 1] == Bumped(s.frames);
    assert s1.nescapes[|s.frames| := 0] == s.nescapes;
  }

  lemma BarewordStarts(inp: Input, s: Lex, nodes: seq<Node>, c: byte, rest: bytes)
    requires ValueReady(s) && |s.frames| < |s.nescapes| && SpecialStart(c) != NoSpecial
    ensures var sp := SpecialStart(c);
      var digit := sp == UNSIGNED;
      ParseBytes(inp, Parsing(s, nodes), [c] + rest)
      == ParseBytes(inp, Parsing(InBareword(s, sp, 1, 1, if digit then c as nat - 0x30 else 0,
                                            if digit then 0x31 else MINUS), nodes), rest)
  {
    hide ParseBytes, ParseByte, Step;
    var sp := SpecialStart(c);
    var digit := sp == UNSIGNED;
    var s1 := InBareword(s, sp, 1, 1, if digit then c as nat - 0x30 else 0, if digit then 0x31 else MINUS);
    BarewordStep(s, c, s1);
    ParseCons(inp, Parsing(s, nodes), c, rest);
    CallbackByte(inp, s, nodes, c, s1, Push(SpecialFrame, sp, s.pos));
  }

  lemma BarewordStep(s: Lex, c: byte, s1: Lex)
    requires ValueReady(s) && |s.frames| < |s.nescapes| && SpecialStart(c) != NoSpecial
    requires var digit := SpecialStart(c) == UNSIGNED;
      s1 == InBareword(s, SpecialStart(c), 1, 1, if digit then c as nat - 0x30 else 0, if digit then 0x31 else MINUS)
    ensures Step(s, c) == Next(s1, [Push(SpecialFrame, SpecialStart(c), s.pos)])
  {
  }

  /** true, false and null, up to the byte behind them. */
  lemma ReadWord(inp: Input, s: Lex, nodes: seq<Node>, sp: Special, rest: bytes)
    requires sp.TrueWord? || sp.FalseWord? || sp.NullWord?
    requires ValueReady(s) && |s.frames| < |s.nescapes|
    ensures var s1 := InBareword(s, sp, |Word(sp)|, |Word(sp)|, 0, MINUS);
      && ParseBytes(inp, Parsing(s, nodes), Word(sp) + rest) == ParseBytes(inp, Parsing(s1, nodes), rest)
      && Valid(s1) && Top(s1).kind == SpecialFrame && Finished(s1) == Ok(sp)
      && SpecialPopped(s1) == Done(s, |Word(sp)|)
      && PopEvent(s1, sp) == Pop(SpecialFrame, sp, |Word(sp)|, s.pos, s.pos + |Word(sp)|)
      && (rest != [] && Terminator(rest[0]) ==> Step(s1, rest[0]) == EndSpecial(s1, rest[0]))
  {
    hide ParseBytes, ParseByte, Step, EndSpecial;
    var w := Word(sp);
    assert SpecialStart(w[0]) == sp;
    assert w + rest == [w[0]] + (w[1..] + rest);
    BarewordStarts(inp, s, nodes, w[0], w[1..] + rest);
    ParseWordRest(inp, s, nodes, sp, 1, rest);
    var s1 := InBareword(s, sp, |w|, |w|, 0, MINUS);
    BarewordValid(s, sp, |w|, |w|, 0, MINUS);
    if rest != [] && Terminator(rest[0]) { WordEnds(s1, rest[0]); }
  }

  function WordNode(sp: Special): Node { if sp.NullWord? then Null else Boolean(sp.TrueWord?) }

  lemma ParseWord(inp: Input, s: Lex, nodes: seq<Node>, sp: Special, rest: bytes)
    requires sp.TrueWord? || sp.FalseWord? || sp.NullWord?
    requires ValueReady(s) && HasPlace(s, nodes) && |s.frames| < |s.nescapes| && |nodes| < inp.capacity
    requires rest != [] && Terminator(rest[0])
    ensures ParseBytes(inp, Parsing(s, nodes), Word(sp) + rest)
         == ParseBytes(inp, Parsing(Done(s, |Word(sp)|), Placed(s, nodes, WordNode(sp))), rest)
  {
    hide ParseBytes, ParseByte, Step, Attach, InBareword, Placed, HasPlace, EndSpecial, Finished, Word;
    ReadWord(inp, s, nodes, sp, rest);
    var s1 := InBareword(s, sp, |Word(sp)|, |Word(sp)|, 0, MINUS);
    AttachPlaced(s, nodes, WordNode(sp));
    BareEndRest(inp, s1, s1, nodes, sp, Placed(s, nodes, WordNode(sp)), rest);
  }

  lemma BareEndRest(inp: Input, s: Lex, s1: Lex, nodes: seq<Node>, sp: Special, nodes': seq<Node>, rest: bytes)
    requires Valid(s) && Valid(s1) && Top(s1).kind == SpecialFrame && rest != [] && Terminator(rest[0])
    requires Step(s, rest[0]) == EndSpecial(s1, rest[0]) && Finished(s1) == Ok(sp)
    requires OnEvent(inp, nodes, PopEvent(s1, sp)) == Nodes(nodes')
    ensures ParseBytes(inp, Parsing(s, nodes), rest) == ParseBytes(inp, Parsing(SpecialPopped(s1), nodes'), rest)
  {
    hide ParseBytes, ParseByte, Step, OnEvent, EndSpecial, Finished;
    BareEnd(inp, s, s1, nodes, rest[0], sp, nodes');
    assert rest == [rest[0]] + rest[1..];
    ParseCons(inp, Parsing(s, nodes), rest[0], rest[1..]);
    ParseCons(inp, Parsing(SpecialPopped(s1), nodes'), rest[0], rest[1..]);
  }

  lemma WordEnds(s: Lex, t: byte)
    requires Valid(s) && Top(s).kind == SpecialFrame && Terminator(t)
    requires Top(s).special.TrueWord? || Top(s).special.FalseWord? || Top(s).special.NullWord?
    ensures Step(s, t) == EndSpecial(s, t)
  {
    hide EndSpecial;
  }

  lemma {:induction false} ParseWordRest(inp: Input, s: Lex, nodes: seq<Node>, sp: Special, k: nat, rest: bytes)
    requires sp.TrueWord? || sp.FalseWord? || sp.NullWord?
    requires ValueReady(s) && |s.frames| < |s.nescapes| && 1 <= k <= |Word(sp)|
    ensures ParseBytes(inp, Parsing(InBareword(s, sp, k, k, 0, MINUS), nodes), Word(sp)[k..] + rest)
         == ParseBytes(inp, Parsing(InBareword(s, sp, |Word(sp)|, |Word(sp)|, 0, MINUS), nodes), rest)
    decreases |Word(sp)| - k
  {
    hide ParseBytes, ParseByte, Step, InBareword, Word;
    var w := Word(sp);
    if k == |w| {
      assert w[k..] + rest == rest;
    } else {
      assert s.frames != [];
      var s1, s2 := InBareword(s, sp, k, k, 0, MINUS), InBareword(s, sp, k + 1, k + 1, 0, MINUS);
      LetterStep(s, sp, k);
      assert w[k..] + rest == [w[k]] + (w[k + 1..] + rest);
      ParseCons(inp, Parsing(s1, nodes), w[k], w[k + 1..] + rest);
      QuietByte(inp, s1, nodes, w[k], s2);
      ParseWordRest(inp, s, nodes, sp, k + 1, rest);
    }
  }

  lemma LetterStep(s: Lex, sp: Special, k: nat)
    requires sp.TrueWord? || sp.FalseWord? || sp.NullWord?
    requires ValueReady(s) && |s.frames| < |s.nescapes| && 1 <= k < |Word(sp)|
    ensures var s1 := InBareword(s, sp, k, k, 0, MINUS);
      Valid(s1) && Step(s1, Word(sp)[k]) == Next(InBareword(s, sp, k + 1, k + 1, 0, MINUS), [])
  {
    hide Step;
    BarewordValid(s, sp, k, k, 0, MINUS);
    WordStep(InBareword(s, sp, k, k, 0, MINUS), Word(sp)[k], InBareword(s, sp, k + 1, k + 1, 0, MINUS));
  }

  lemma WordStep(s: Lex, c: byte, s': Lex)
    requires Valid(s) && Top(s).kind == SpecialFrame
    requires Top(s).special.TrueWord? || Top(s).special.FalseWord? || Top(s).special.NullWord?
    requires !IsSpecialEnd(c) && WordMatches(Word(Top(s).special), s.pos - Top(s).begin, c)
    requires s' == Advance(WithEscapes(s, Escapes(s) + 1))
    ensures Step(s, c) == Next(s', [])
  {
  }

  // ---- integers ---------------------------------------------------------------------------

  function AppendDigits(n: nat, ds: bytes): nat
    requires AllDigits(ds)
    decreases |ds|
  {
    if ds == [] then n else AppendDigits(AppendDigit(n, ds[0]), ds[1..])
  }

  lemma {:induction false} ParseDigits(inp: Input, s: Lex, nodes: seq<Node>, sp: Special, k: nat, n: nat,
                                       tokLast: byte, ds: bytes, rest: bytes)
    requires ValueReady(s) && |s.frames| < |s.nescapes| && IsNormalNumber(sp) && AllDigits(ds)
    ensures ParseBytes(inp, Parsing(InBareword(s, sp, k, 1, n, tokLast), nodes), ds + rest)
         == ParseBytes(inp, Parsing(InBareword(s, sp, k + |ds|, 1, AppendDigits(n, ds), tokLast), nodes), rest)
    decreases |ds|
  {
    hide ParseBytes, ParseByte, Step;
    if ds == [] {
      assert ds + rest == rest;
    } else {
      var n1 := AppendDigit(n, ds[0]);
      var s1, s2 := InBareword(s, sp, k, 1, n, tokLast), InBareword(s, sp, k + 1, 1, n1, tokLast);
      BarewordValid(s, sp, k, 1, n, tokLast);
      assert ds + rest == [ds[0]] + (ds[1..] + rest);
      ParseCons(inp, Parsing(s1, nodes), ds[0], ds[1..] + rest);
      DigitStep(s1, ds[0], s2);
      QuietByte(inp, s1, nodes, ds[0], s2);
      ParseDigits(inp, s, nodes, sp, k + 1, n1, tokLast, ds[1..], rest);
    }
  }

  lemma DigitStep(s: Lex, c: byte, s': Lex)
    requires Valid(s) && Top(s).kind == SpecialFrame && IsNormalNumber(Top(s).special) && IsDigit(c)
    requires s' == Advance(WithTop(s, Top(s).(nelem := AppendDigit(Top(s).nelem, c))))
    ensures Step(s, c) == Next(s', [])
  {
  }

  /** The registers behind the digits, and behind the flags' last change. */
  datatype IntegerRead = IntegerRead(sp: Special, nelem: nat, tokLast: byte)

  function BehindDigits(s: Lex, len: nat, r: IntegerRead): Lex
    requires s.frames != [] && |s.frames| < |s.nescapes|
  {
    InBareword(s, r.sp, len, 1, r.nelem, r.tokLast)
  }

  predicate IntegerFlags(r: IntegerRead, i: int64) { IsNormalNumber(r.sp) || (r.sp == Zero && i == 0) }

  /** At the byte behind the digits: what the POP callback sees, and that its value is the integer. */
  lemma IntegerEvent(inp: Input, s: Lex, i: int64, r: IntegerRead, rest: bytes)
    requires ValueReady(s) && |s.frames| < |s.nescapes| && IntegerFlags(r, i)
    requires rest != [] && Terminator(rest[0]) && At(inp.text, s.pos, IntText(i) + rest)
    ensures var len, sp := |IntText(i)|, if r.sp == Zero then UNSIGNED else r.sp;
      var s1, s2 := BehindDigits(s, len, r), BehindDigits(s, len, r.(sp := sp));
      && Valid(s1) && Valid(s2) && Top(s2).kind == SpecialFrame && Finished(s2) == Ok(sp)
      && Step(s1, rest[0]) == EndSpecial(s2, rest[0])
      && SpecialPopped(s2) == Done(s, len)
      && PopEvent(s2, sp) == Pop(SpecialFrame, sp, 1, s.pos, s.pos + len)
      && SpecialNode(inp, PopEvent(s2, sp)) == Ok(Integer(i))
  {
    hide Step, IntText, ReadInt, At, EndSpecial;
    var len, sp := |IntText(i)|, if r.sp == Zero then UNSIGNED else r.sp;
    BarewordValid(s, r.sp, len, 1, r.nelem, r.tokLast);
    BarewordValid(s, sp, len, 1, r.nelem, r.tokLast);
    NumberEnds(BehindDigits(s, len, r), BehindDigits(s, len, r.(sp := sp)), rest[0]);
    ReadIntText(i);
    AtConcat(inp.text, s.pos, IntText(i), rest);
  }

  /** After the digits: the terminator pops the integer. */
  lemma IntegerEnds(inp: Input, s: Lex, nodes: seq<Node>, i: int64, r: IntegerRead, rest: bytes)
    requires ValueReady(s) && HasPlace(s, nodes) && |s.frames| < |s.nescapes| && |nodes| < inp.capacity
    requires IntegerFlags(r, i)
    requires rest != [] && Terminator(rest[0]) && At(inp.text, s.pos, IntText(i) + rest)
    ensures var len := |IntText(i)|;
      ParseBytes(inp, Parsing(BehindDigits(s, len, r), nodes), rest)
      == ParseBytes(inp, Parsing(Done(s, len), Placed(s, nodes, Integer(i))), rest)
  {
    hide ParseBytes, ParseByte, Step, IntText, Attach, At, EndSpecial, SpecialNode, BehindDigits, Placed, HasPlace,
        Finished, Done;
    var len, sp := |IntText(i)|, if r.sp == Zero then UNSIGNED else r.sp;
    IntegerEvent(inp, s, i, r, rest);
    AttachPlaced(s, nodes, Integer(i));
    BareEndRest(inp, BehindDigits(s, len, r), BehindDigits(s, len, r.(sp := sp)), nodes, sp,
        Placed(s, nodes, Integer(i)), rest);
  }

  lemma NumberEnds(s: Lex, s': Lex, t: byte)
    requires Valid(s) && Top(s).kind == SpecialFrame && Terminator(t)
    requires var sp := Top(s).special;
      if sp == Zero then s' == WithTop(s, Top(s).(special := UNSIGNED)) else IsNormalNumber(sp) && s' == s
    ensures Valid(s') && Step(s, t) == EndSpecial(s', t)
  {
    hide EndSpecial;
  }

  /** An integer up to the byte behind it. */
  lemma ReadInteger(inp: Input, s: Lex, nodes: seq<Node>, i: int64, rest: bytes) returns (r: IntegerRead)
    requires ValueReady(s) && |s.frames| < |s.nescapes|
    ensures IntegerFlags(r, i)
    ensures ParseBytes(inp, Parsing(s, nodes), IntText(i) + rest)
         == ParseBytes(inp, Parsing(BehindDigits(s, |IntText(i)|, r), nodes), rest)
  {
    hide ParseBytes, ParseByte, Step, Digits, InBareword;
    if i == 0 {
      LeadingDigit(0);
      BarewordStarts(inp, s, nodes, 0x30, rest);
      r := IntegerRead(Zero, 0, MINUS);
    } else if i > 0 {
      var ds := Digits(i);
      LeadingDigit(i);
      assert ds + rest == [ds[0]] + (ds[1..] + rest);
      BarewordStarts(inp, s, nodes, ds[0], ds[1..] + rest);
      ParseDigits(inp, s, nodes, UNSIGNED, 1, ds[0] as nat - 0x30, 0x31, ds[1..], rest);
      r := IntegerRead(UNSIGNED, AppendDigits(ds[0] as nat - 0x30, ds[1..]), 0x31);
    } else {
      r := ReadNegative(inp, s, nodes, i, rest);
    }
  }

  lemma ReadNegative(inp: Input, s: Lex, nodes: seq<Node>, i: int64, rest: bytes) returns (r: IntegerRead)
    requires i < 0 && ValueReady(s) && |s.frames| < |s.nescapes|
    ensures IntegerFlags(r, i)
    ensures ParseBytes(inp, Parsing(s, nodes), IntText(i) + rest)
         == ParseBytes(inp, Parsing(BehindDigits(s, |IntText(i)|, r), nodes), rest)
  {
    hide ParseBytes, ParseByte, Step, Digits, InBareword;
    var n: nat := -(i as int);
    var ds := Digits(n);
    LeadingDigit(n);
    var first := ds[0] as nat - 0x30;
    assert IntText(i) + rest == [MINUS] + ([ds[0]] + (ds[1..] + rest));
    NegativeStarts(inp, s, nodes, ds[0], ds[1..] + rest);
    ParseDigits(inp, s, nodes, SIGNED, 2, first, MINUS, ds[1..], rest);
    r := IntegerRead(SIGNED, AppendDigits(first, ds[1..]), MINUS);
  }

  lemma NegativeStarts(inp: Input, s: Lex, nodes: seq<Node>, d: byte, rest: bytes)
    requires ValueReady(s) && |s.frames| < |s.nescapes| && IsDigit(d) && d != 0x30
    ensures ParseBytes(inp, Parsing(s, nodes), [MINUS] + ([d] + rest))
         == ParseBytes(inp, Parsing(InBareword(s, SIGNED, 2, 1, d as nat - 0x30, MINUS), nodes), rest)
  {
    hide ParseBytes, ParseByte, Step;
    var s1, s2 := InBareword(s, Dash, 1, 1, 0, MINUS), InBareword(s, SIGNED, 2, 1, d as nat - 0x30, MINUS);
    BarewordStarts(inp, s, nodes, MINUS, [d] + rest);
    BarewordValid(s, Dash, 1, 1, 0, MINUS);
    ParseCons(inp, Parsing(s1, nodes), d, rest);
    DashStep(s1, d, s2);
    QuietByte(inp, s1, nodes, d, s2);
  }

  lemma ParseInteger(inp: Input, s: Lex, nodes: seq<Node>, i: int64, rest: bytes)
    requires ValueReady(s) && HasPlace(s, nodes) && |s.frames| < |s.nescapes| && |nodes| < inp.capacity
    requires rest != [] && Terminator(rest[0]) && At(inp.text, s.pos, IntText(i) + rest)
    ensures ParseBytes(inp, Parsing(s, nodes), IntText(i) + rest)
         == ParseBytes(inp, Parsing(Done(s, |IntText(i)|), Placed(s, nodes, Integer(i))), rest)
  {
    hide ParseBytes, IntText, BehindDigits, Placed, HasPlace, ValueReady, At, Done;
    var r := ReadInteger(inp, s, nodes, i, rest);
    IntegerEnds(inp, s, nodes, i, r, rest);
  }

  lemma DashStep(s: Lex, c: byte, s': Lex)
    requires Valid(s) && Top(s).kind == SpecialFrame && Top(s).special == Dash && IsDigit(c) && c != 0x30
    requires s' == Advance(WithTop(s, Top(s).(special := SIGNED, nelem := c as nat - 0x30)))
    ensures Step(s, c) == Next(s', [])
  {
  }

  // ---- containers -------------------------------------------------------------------------

  /** A value whose text ends by itself. */
  predicate Solid(n: Node) { n.Text? || n.Dict? || n.Array? }

  /** Behind an opening bracket. */
  function Opened(s: Lex, kind: Kind): Lex
    requires s.frames != []
  {
    Lex(Bumped(s.frames) + [Frame(kind, 0, s.pos, NoSpecial)], s.nescapes, s.pos + 1,
        if kind == ObjectFrame then QUOTE else s.expecting, 0, true, false)
  }

  /** The next element of the innermost container may start: in an object, its key. */
  predicate ElemReady(s: Lex, nodes: seq<Node>, keyed: bool) {
    && Valid(s) && Clean(s) && !s.inEscape && nodes != []
    && Top(s).kind == (if keyed then ObjectFrame else ListFrame)
    && (if keyed then s.expecting == QUOTE && Top(s).nelem % 2 == 0 else s.canInsert)
    && HasSlot(nodes, keyed)
  }

  predicate HasSlot(nodes: seq<Node>, keyed: bool) {
    && nodes != []
    && var top := nodes[|nodes| - 1];
       if keyed then top.Dict? && AllKeyVals(top.entries) else top.Array?
  }

  /** After an element: only a comma or a closing bracket can follow. */
  predicate ElemOver(s: Lex, nodes: seq<Node>, keyed: bool) {
    && Valid(s) && Clean(s) && !s.inEscape && nodes != []
    && Top(s).kind == (if keyed then ObjectFrame else ListFrame)
    && s.expecting == COMMA && s.tokLast == 0 && !s.canInsert && (keyed ==> Top(s).nelem % 2 == 0)
    && HasSlot(nodes, keyed)
  }

  /** The lexer k elements and len bytes on; an object counts keys and values. */
  function ElemsDone(s: Lex, k: nat, len: nat, keyed: bool): Lex
    requires s.frames != []
  {
    var top := |s.frames| - 1;
    var f := s.frames[top];
    Lex(s.frames[top := f.(nelem := f.nelem + if keyed then 2 * k else k)],
        s.nescapes, s.pos + len, COMMA, 0, false, false)
  }

  /** The node stack with one more element in the container on top. */
  function ElemPlaced(nodes: seq<Node>, e: Node): (r: seq<Node>)
    requires HasSlot(nodes, e.KeyVal?)
    ensures HasSlot(r, e.KeyVal?) && |r| == |nodes|
  {
    var k := |nodes| - 1;
    nodes[k := if e.KeyVal? then Dict(SetKeyVal(nodes[k].entries, e)) else Array(nodes[k].items + [e])]
  }

  function ElemsPlaced(nodes: seq<Node>, es: seq<Node>, keyed: bool): (r: seq<Node>)
    requires HasSlot(nodes, keyed) && forall i :: 0 <= i < |es| ==> es[i].KeyVal? == keyed
    ensures HasSlot(r, keyed) && |r| == |nodes|
    decreases |es|
  {
    if es == [] then nodes else ElemsPlaced(ElemPlaced(nodes, es[0]), es[1..], keyed)
  }

  /** Room on both stacks for a value. */
  predicate Room(inp: Input, s: Lex, nodes: seq<Node>, frames: nat, slots: nat) {
    |s.frames| + frames <= |s.nescapes| && |nodes| + slots <= inp.capacity
  }

  /** What a value must be, and what may follow its text. */
  predicate Proper(n: Node, f: Format, rest: bytes) {
    && WellFormed(n) && Printable(n, f.noescape) && BlankFormat(f)
    && (Solid(n) || (rest != [] && Terminator(rest[0])))
  }

  /**
   The text of any value, read where a value may start: the parser gets to the end of it
   with exactly that value in place, and nothing else changed.
   */
  lemma {:induction false} ParseTree(inp: Input, s: Lex, nodes: seq<Node>, n: Node, f: Format, d: int, rest: bytes)
    requires ValueReady(s) && HasPlace(s, nodes) && Room(inp, s, nodes, FrameDepth(n), NodeDepth(n))
    requires !n.KeyVal? && Proper(n, f, rest) && (Top(s).kind == RootFrame ==> !n.Text?)
    requires At(inp.text, s.pos, Print(f, n, d) + rest)
    ensures ParseBytes(inp, Parsing(s, nodes), Print(f, n, d) + rest)
         == ParseBytes(inp, Parsing(Done(s, |Print(f, n, d)|), Placed(s, nodes, Recode(n, f.noescape))), rest)
    decreases n, 0
  {
    hide ParseBytes, ParseByte, Step, PrintEach, Quoted, IntText, Lead, Trail, RecodeAll, Placed;
    match n
    case Null => ParseWord(inp, s, nodes, NullWord, rest);
    case Boolean(b) => ParseWord(inp, s, nodes, if b then TrueWord else FalseWord, rest);
    case Integer(i) => ParseInteger(inp, s, nodes, i, rest);
    case Text(str) => ParseString(inp, s, nodes, str, f.noescape, rest);
    case Dict(es) => ParseContainer(inp, s, nodes, n, es, f, d, rest);
    case Array(items) => ParseContainer(inp, s, nodes, n, items, f, d, rest);
  }

  lemma ParseContainer(inp: Input, s: Lex, nodes: seq<Node>, n: Node, ns: seq<Node>, f: Format, d: int, rest: bytes)
    requires (n.Dict? && n.entries == ns) || (n.Array? && n.items == ns)
    requires ValueReady(s) && HasPlace(s, nodes) && Room(inp, s, nodes, FrameDepth(n), NodeDepth(n))
    requires Proper(n, f, rest)
    requires At(inp.text, s.pos, Print(f, n, d) + rest)
    ensures ParseBytes(inp, Parsing(s, nodes), Print(f, n, d) + rest)
         == ParseBytes(inp, Parsing(Done(s, |Print(f, n, d)|), Placed(s, nodes, Recode(n, f.noescape))), rest)
    decreases ns, 3
  {
    hide ParseBytes, ParseByte, Step, Print, PrintEach, Lead, Trail, Recode, RecodeAll, ElemsPlaced, ElemReady,
        HasSlot, Placed, Done, At;
    var keyed := n.Dict?;
    var kind := if keyed then ObjectFrame else ListFrame;
    var open, close := if keyed then LBRACE else LBRACKET, if keyed then RBRACE else RBRACKET;
    var lead, inner, trail := Lead(f, ns, d), PrintEach(f, ns, d + 1), Trail(f, ns, d);
    ContainerText(inp.text, s.pos, f, n, ns, d, open, close, rest);
    LeadBlank(f, ns, d);
    TrailTerminates(f, ns, d, close, rest);
    var s2, nodes1 := Opened(s, kind).(pos := s.pos + 1 + |lead|), nodes + [if keyed then Dict([]) else Array([])];
    ParseOpening(inp, s, nodes, kind, lead, inner + (trail + ([close] + rest)));
    ParseEach(inp, s2, nodes1, ns, keyed, f, d + 1, trail + ([close] + rest));
    EachOfNothing(f, ns, d + 1);
    var s3 := if ns == [] then s2 else ElemsDone(s2, |ns|, |inner|, keyed);
    AllPlaced(nodes, n, f.noescape);
    EachCloses(inp, s, kind, s2, s3, ns, |lead|, |inner|, nodes + [Recode(n, f.noescape)], trail, rest);
    ContainerPlaced(inp, s, nodes, Recode(n, f.noescape), Pop(kind, NoSpecial, 0, s.pos, s.pos));
  }

  /** The opening bracket and white space. */
  lemma ParseOpening(inp: Input, s: Lex, nodes: seq<Node>, kind: Kind, lead: bytes, rest: bytes)
    requires ValueReady(s) && |s.frames| < |s.nescapes| && |nodes| < inp.capacity && IsContainer(kind)
    requires AllWhitespace(lead)
    ensures var s2 := Opened(s, kind).(pos := s.pos + 1 + |lead|);
      var nodes1 := nodes + [if kind == ObjectFrame then Dict([]) else Array([])];
      && ElemReady(s2, nodes1, kind == ObjectFrame)
      && ParseBytes(inp, Parsing(s, nodes), [if kind == ObjectFrame then LBRACE else LBRACKET] + (lead + rest))
         == ParseBytes(inp, Parsing(s2, nodes1), rest)
  {
    hide ParseBytes, ParseByte, Step, ElemReady;
    var open := if kind == ObjectFrame then LBRACE else LBRACKET;
    var nodes1 := nodes + [if kind == ObjectFrame then Dict([]) else Array([])];
    var s1 := Opened(s, kind);
    OpenStep(s, kind);
    ParseCons(inp, Parsing(s, nodes), open, lead + rest);
    CallbackByte(inp, s, nodes, open, s1, Push(kind, NoSpecial, s.pos));
    OpenedReady(s, nodes1, kind, s.pos + 1 + |lead|);
    ParseBlanks(inp, s1, nodes1, lead, rest);
  }

  lemma ContainerPlaced(inp: Input, s: Lex, nodes: seq<Node>, v: Node, ev: Event)
    requires s.frames != [] && HasPlace(s, nodes) && ev.Pop? && IsContainer(ev.kind)
    ensures OnEvent(inp, nodes + [v], ev) == Nodes(Placed(s, nodes, v))
  {
    hide Placed, Attach;
    AttachPlaced(s, nodes, v);
  }

  lemma ContainerText(text: bytes, pos: nat, f: Format, n: Node, ns: seq<Node>, d: int, open: byte, close: byte,
                      rest: bytes)
    requires (n.Dict? && n.entries == ns && open == LBRACE && close == RBRACE)
          || (n.Array? && n.items == ns && open == LBRACKET && close == RBRACKET)
    requires At(text, pos, Print(f, n, d) + rest)
    ensures var lead, inner, trail := Lead(f, ns, d), PrintEach(f, ns, d + 1), Trail(f, ns, d);
      && Print(f, n, d) + rest == [open] + (lead + (inner + (trail + ([close] + rest))))
      && |Print(f, n, d)| == 1 + |lead| + |inner| + |trail| + 1
      && At(text, pos + 1 + |lead|, inner + (trail + ([close] + rest)))
  {
    hide PrintEach, Lead, Trail, At;
    var lead, inner, trail := Lead(f, ns, d), PrintEach(f, ns, d + 1), Trail(f, ns, d);
    assert Print(f, n, d) == [open] + lead + inner + trail + [close];
    Regroup([open], lead, inner, trail, [close], rest);
    AtConcat(text, pos, [open], lead + (inner + (trail + ([close] + rest))));
    AtConcat(text, pos + 1, lead, inner + (trail + ([close] + rest)));
  }

  lemma EachOfNothing(f: Format, ns: seq<Node>, d: int)
    ensures ns == [] ==> PrintEach(f, ns, d) == []
  {
  }

  lemma Regroup(a: bytes, b: bytes, c: bytes, d: bytes, e: bytes, g: bytes)
    ensures a + b + c + d + e + g == a + (b + (c + (d + (e + g))))
  {
  }

  lemma OpenStep(s: Lex, kind: Kind)
    requires ValueReady(s) && |s.frames| < |s.nescapes| && IsContainer(kind)
    ensures Step(s, if kind == ObjectFrame then LBRACE else LBRACKET)
         == Next(Opened(s, kind), [Push(kind, NoSpecial, s.pos)])
  {
  }

  lemma OpenedReady(s: Lex, nodes: seq<Node>, kind: Kind, pos: nat)
    requires ValueReady(s) && |s.frames| < |s.nescapes| && IsContainer(kind) && HasSlot(nodes, kind == ObjectFrame)
    ensures Valid(Opened(s, kind)) && ElemReady(Opened(s, kind).(pos := pos), nodes, kind == ObjectFrame)
  {
  }

  lemma {:induction false} IndentBlank(f: Format, depth: int)
    requires BlankFormat(f)
    ensures AllWhitespace(Indent(f, depth))
    decreases depth
  {
    if depth > 0 {
      IndentBlank(f, depth - 1);
    }
  }

  lemma LeadBlank(f: Format, ns: seq<Node>, d: int)
    requires BlankFormat(f)
    ensures AllWhitespace(Lead(f, ns, d)) && AllWhitespace(Trail(f, ns, d))
  {
    IndentBlank(f, d);
    IndentBlank(f, d + 1);
  }

  lemma TrailTerminates(f: Format, ns: seq<Node>, d: int, close: byte, rest: bytes)
    requires BlankFormat(f) && (close == RBRACE || close == RBRACKET)
    ensures var t := Trail(f, ns, d) + ([close] + rest);
      t != [] && Terminator(t[0])
  {
    LeadBlank(f, ns, d);
  }

  /** The closing bracket, after the white space before it. */
  lemma EachCloses(inp: Input, s: Lex, kind: Kind, s2: Lex, s3: Lex, ns: seq<Node>, lead: nat, inner: nat,
                   nodes: seq<Node>, trail: bytes, rest: bytes)
    requires ValueReady(s) && |s.frames| < |s.nescapes| && IsContainer(kind) && AllWhitespace(trail)
    requires s2 == Opened(s, kind).(pos := s.pos + 1 + lead)
    requires s3 == (if ns == [] then s2 else ElemsDone(s2, |ns|, inner, kind == ObjectFrame))
    requires ns == [] ==> inner == 0
    ensures var close := if kind == ObjectFrame then RBRACE else RBRACKET;
      var ev := Pop(kind, NoSpecial, 0, s.pos, s.pos);
      && Valid(s3)
      && ParseBytes(inp, Parsing(s3, nodes), trail + ([close] + rest))
         == ParseBytes(inp, Called(inp, s3, Done(s, 1 + lead + inner + |trail| + 1), nodes, ev), rest)
  {
    hide ParseBytes, ParseByte, Step, OnEvent;
    var close := if kind == ObjectFrame then RBRACE else RBRACKET;
    var ev := Pop(kind, NoSpecial, 0, s.pos, s.pos);
    OpenedReady(s, if kind == ObjectFrame then [Dict([])] else [Array([])], kind, s2.pos);
    ParseBlanks(inp, s3, nodes, trail, [close] + rest);
    var s4 := s3.(pos := s3.pos + |trail|);
    ParseCons(inp, Parsing(s4, nodes), close, rest);
    CloseStep(s, kind, s4, close);
    assert s4.pos + 1 == s.pos + (1 + lead + inner + |trail| + 1);
    CallbackByte(inp, s4, nodes, close, Done(s, 1 + lead + inner + |trail| + 1), ev);
  }

  lemma CloseStep(s: Lex, kind: Kind, s4: Lex, close: byte)
    requires ValueReady(s) && |s.frames| < |s.nescapes| && IsContainer(kind) && Valid(s4)
    requires close == if kind == ObjectFrame then RBRACE else RBRACKET
    requires s4.frames[..|s4.frames| - 1] == Bumped(s.frames) && |s4.frames| == |s.frames| + 1 && s4.pos >= s.pos
    requires Top(s4).kind == kind && Top(s4).begin == s.pos && (kind == ObjectFrame ==> Top(s4).nelem % 2 == 0)
    requires s4.nescapes == s.nescapes && s4.tokLast == 0 && !s4.inEscape
    ensures Step(s4, close) == Next(Done(s, s4.pos + 1 - s.pos), [Pop(kind, NoSpecial, 0, s.pos, s.pos)])
  {
  }

  lemma ParseEach(inp: Input, s: Lex, nodes: seq<Node>, ns: seq<Node>, keyed: bool, f: Format, d: int, rest: bytes)
    requires ElemReady(s, nodes, keyed) && AllElems(ns, keyed, f)
    requires Room(inp, s, nodes, MaxFrameDepth(ns), MaxNodeDepth(ns))
    requires rest != [] && Terminator(rest[0]) && At(inp.text, s.pos, PrintEach(f, ns, d) + rest)
    ensures var s' := if ns == [] then s else ElemsDone(s, |ns|, |PrintEach(f, ns, d)|, keyed);
      ParseBytes(inp, Parsing(s, nodes), PrintEach(f, ns, d) + rest)
      == ParseBytes(inp, Parsing(s', ElemsPlaced(nodes, RecodeAll(ns, f.noescape), keyed)), rest)
    decreases ns, 2
  {
    hide ParseBytes, ParseByte, Step, Print, PrintRest, Recode, ElemPlaced, Clean, HasSlot, At;
    if ns == [] {
      assert PrintEach(f, ns, d) + rest == rest;
    } else {
      var first, tail := Print(f, ns[0], d), PrintRest(f, ns[1..], d);
      var s1, nodes1 := ElemsDone(s, 1, |first|, keyed), ElemPlaced(nodes, Recode(ns[0], f.noescape));
      ParseFirst(inp, s, nodes, ns, keyed, f, d, rest);
      ParseRest(inp, s1, nodes1, ns[1..], keyed, f, d, rest);
      assert RecodeAll(ns, f.noescape)[1..] == RecodeAll(ns[1..], f.noescape);
      ElemsDoneTwice(s, 1, |first|, |ns[1..]|, |tail|, keyed);
    }
  }

  /** The first element, behind the opening bracket. */
  lemma ParseFirst(inp: Input, s: Lex, nodes: seq<Node>, ns: seq<Node>, keyed: bool, f: Format, d: int, rest: bytes)
    requires ElemReady(s, nodes, keyed) && AllElems(ns, keyed, f) && ns != []
    requires Room(inp, s, nodes, MaxFrameDepth(ns), MaxNodeDepth(ns))
    requires rest != [] && Terminator(rest[0]) && At(inp.text, s.pos, PrintEach(f, ns, d) + rest)
    ensures var first, tail := Print(f, ns[0], d), PrintRest(f, ns[1..], d);
      var s1, nodes1 := ElemsDone(s, 1, |first|, keyed), ElemPlaced(nodes, Recode(ns[0], f.noescape));
      && ElemOver(s1, nodes1, keyed) && At(inp.text, s1.pos, tail + rest)
      && ParseBytes(inp, Parsing(s, nodes), PrintEach(f, ns, d) + rest)
        == ParseBytes(inp, Parsing(s1, nodes1), tail + rest)
    decreases ns, 1
  {
    hide ParseBytes, ParseByte, Step, Print, PrintRest, Recode, ElemPlaced, Clean, At, WellFormed, Printable;
    var first, tail := Print(f, ns[0], d), PrintRest(f, ns[1..], d);
    assert PrintEach(f, ns, d) + rest == first + (tail + rest);
    RestTerminates(f, ns[1..], d, rest);
    ParseElem(inp, s, nodes, ns[0], keyed, f, d, tail + rest);
    AtConcat(inp.text, s.pos, first, tail + rest);
    ElemOverAfter(s, nodes, ElemPlaced(nodes, Recode(ns[0], f.noescape)), |first|, keyed);
  }

  predicate AllElems(ns: seq<Node>, keyed: bool, f: Format) {
    && AllWellFormed(ns) && AllPrintable(ns, f.noescape) && BlankFormat(f)
    && forall i :: 0 <= i < |ns| ==> ns[i].KeyVal? == keyed
  }

  lemma RestTerminates(f: Format, ns: seq<Node>, d: int, rest: bytes)
    requires rest != [] && Terminator(rest[0])
    ensures var t := PrintRest(f, ns, d) + rest;
      t != [] && Terminator(t[0])
  {
    hide Print;
  }

  lemma ElemOverAfter(s: Lex, nodes: seq<Node>, nodes1: seq<Node>, len: nat, keyed: bool)
    requires ElemReady(s, nodes, keyed) && HasSlot(nodes1, keyed)
    ensures ElemOver(ElemsDone(s, 1, len, keyed), nodes1, keyed)
  {
  }

  lemma ElemsDoneTwice(s: Lex, k: nat, len: nat, k': nat, len': nat, keyed: bool)
    requires s.frames != []
    ensures ElemsDone(ElemsDone(s, k, len, keyed), k', len', keyed) == ElemsDone(s, k + k', len + len', keyed)
  {
  }

  lemma ParseRest(inp: Input, s: Lex, nodes: seq<Node>, ns: seq<Node>, keyed: bool, f: Format, d: int, rest: bytes)
    requires ElemOver(s, nodes, keyed) && AllElems(ns, keyed, f)
    requires Room(inp, s, nodes, MaxFrameDepth(ns), MaxNodeDepth(ns))
    requires rest != [] && Terminator(rest[0]) && At(inp.text, s.pos, PrintRest(f, ns, d) + rest)
    ensures ParseBytes(inp, Parsing(s, nodes), PrintRest(f, ns, d) + rest)
         == ParseBytes(inp, Parsing(ElemsDone(s, |ns|, |PrintRest(f, ns, d)|, keyed),
             ElemsPlaced(nodes, RecodeAll(ns, f.noescape), keyed)), rest)
    decreases ns, 1
  {
    hide ParseBytes, ParseByte, Step, Print, Recode, ElemPlaced, Clean, HasSlot, At, Separator;
    if ns == [] {
      assert PrintRest(f, ns, d) + rest == rest;
      assert ElemsDone(s, 0, 0, keyed) == s;
    } else {
      var len, tail := |Separator(f, d) + Print(f, ns[0], d)|, PrintRest(f, ns[1..], d);
      var s1, nodes1 := ElemsDone(s, 1, len, keyed), ElemPlaced(nodes, Recode(ns[0], f.noescape));
      ParseNext(inp, s, nodes, ns, keyed, f, d, rest);
      ParseRest(inp, s1, nodes1, ns[1..], keyed, f, d, rest);
      assert RecodeAll(ns, f.noescape)[1..] == RecodeAll(ns[1..], f.noescape);
      ElemsDoneTwice(s, 1, len, |ns[1..]|, |tail|, keyed);
    }
  }

  /** A comma and one element. */
  lemma ParseNext(inp: Input, s: Lex, nodes: seq<Node>, ns: seq<Node>, keyed: bool, f: Format, d: int, rest: bytes)
    requires ElemOver(s, nodes, keyed) && AllElems(ns, keyed, f) && ns != []
    requires Room(inp, s, nodes, MaxFrameDepth(ns), MaxNodeDepth(ns))
    requires rest != [] && Terminator(rest[0]) && At(inp.text, s.pos, PrintRest(f, ns, d) + rest)
    ensures var len, tail := |Separator(f, d) + Print(f, ns[0], d)|, PrintRest(f, ns[1..], d);
      var s1, nodes1 := ElemsDone(s, 1, len, keyed), ElemPlaced(nodes, Recode(ns[0], f.noescape));
      && ElemOver(s1, nodes1, keyed) && At(inp.text, s1.pos, tail + rest)
      && ParseBytes(inp, Parsing(s, nodes), PrintRest(f, ns, d) + rest)
        == ParseBytes(inp, Parsing(s1, nodes1), tail + rest)
    decreases ns, 0
  {
    hide ParseBytes, ParseByte, Step, Print, PrintRest, Recode, ElemPlaced, Clean, HasSlot, Separator, At, WellFormed,
        Printable;
    var sep, first, tail := Separator(f, d), Print(f, ns[0], d), PrintRest(f, ns[1..], d);
    RestText(inp.text, s.pos, f, ns, d, rest);
    ParseSeparator(inp, s, nodes, keyed, f, d, first + (tail + rest));
    var s1 := Separated(s, |sep|);
    RestTerminates(f, ns[1..], d, rest);
    ParseElem(inp, s1, nodes, ns[0], keyed, f, d, tail + rest);
    ElemOverAfter(s1, nodes, ElemPlaced(nodes, Recode(ns[0], f.noescape)), |first|, keyed);
    assert ElemsDone(s1, 1, |first|, keyed) == ElemsDone(s, 1, |sep + first|, keyed);
  }

  lemma RestText(text: bytes, pos: nat, f: Format, ns: seq<Node>, d: int, rest: bytes)
    requires ns != [] && At(text, pos, PrintRest(f, ns, d) + rest)
    ensures var sep, first, tail := Separator(f, d), Print(f, ns[0], d), PrintRest(f, ns[1..], d);
      && PrintRest(f, ns, d) + rest == sep + (first + (tail + rest))
      && At(text, pos + |sep|, first + (tail + rest))
      && At(text, pos + |sep| + |first|, tail + rest)
  {
    hide Separator, Print, At;
    var sep, first, tail := Separator(f, d), Print(f, ns[0], d), PrintRest(f, ns[1..], d);
    assert PrintRest(f, ns, d) == sep + first + tail;
    Regroup4(sep, first, tail, rest);
    AtConcat(text, pos, sep, first + (tail + rest));
    AtConcat(text, pos + |sep|, first, tail + rest);
  }

  lemma Regroup4(a: bytes, b: bytes, c: bytes, d: bytes)
    ensures a + b + c + d == a + (b + (c + d))
  {
  }

  /** Behind a comma and white space. */
  function Separated(s: Lex, len: nat): Lex
    requires s.frames != []
  {
    s.(pos := s.pos + len, canInsert := s.canInsert || Top(s).kind != ObjectFrame, tokLast := COMMA, expecting := QUOTE)
  }

  lemma ParseSeparator(inp: Input, s: Lex, nodes: seq<Node>, keyed: bool, f: Format, d: int, rest: bytes)
    requires ElemOver(s, nodes, keyed) && BlankFormat(f)
    ensures var s1 := Separated(s, |Separator(f, d)|);
      && ElemReady(s1, nodes, keyed)
      && ParseBytes(inp, Parsing(s, nodes), Separator(f, d) + rest) == ParseBytes(inp, Parsing(s1, nodes), rest)
  {
    hide ParseBytes, ParseByte, Step;
    var w := f.newline + Indent(f, d);
    IndentBlank(f, d);
    assert Separator(f, d) + rest == [COMMA] + (w + rest);
    CommaStep(s, nodes, keyed);
    ParseCons(inp, Parsing(s, nodes), COMMA, w + rest);
    QuietByte(inp, s, nodes, COMMA, Separated(s, 1));
    ParseBlanks(inp, Separated(s, 1), nodes, w, rest);
  }

  lemma CommaStep(s: Lex, nodes: seq<Node>, keyed: bool)
    requires ElemOver(s, nodes, keyed)
    ensures Step(s, COMMA) == Next(Separated(s, 1), [])
  {
  }

  lemma ParseElem(inp: Input, s: Lex, nodes: seq<Node>, n: Node, keyed: bool, f: Format, d: int, rest: bytes)
    requires ElemReady(s, nodes, keyed) && n.KeyVal? == keyed
    requires WellFormed(n) && Printable(n, f.noescape) && BlankFormat(f)
    requires Room(inp, s, nodes, FrameDepth(n), NodeDepth(n))
    requires rest != [] && Terminator(rest[0]) && At(inp.text, s.pos, Print(f, n, d) + rest)
    ensures ParseBytes(inp, Parsing(s, nodes), Print(f, n, d) + rest)
         == ParseBytes(inp, Parsing(ElemsDone(s, 1, |Print(f, n, d)|, keyed),
             ElemPlaced(nodes, Recode(n, f.noescape))), rest)
    decreases n, 1
  {
    hide ParseBytes, ParseByte, Step, Print, Recode, Clean;
    if keyed {
      ParseEntry(inp, s, nodes, n, f, d, rest);
    } else {
      ParseTree(inp, s, nodes, n, f, d, rest);
    }
  }

  /** `"key":` and the value. */
  lemma ParseEntry(inp: Input, s: Lex, nodes: seq<Node>, n: Node, f: Format, d: int, rest: bytes)
    requires ElemReady(s, nodes, true) && n.KeyVal?
    requires WellFormed(n) && Printable(n, f.noescape) && BlankFormat(f)
    requires Room(inp, s, nodes, FrameDepth(n), NodeDepth(n))
    requires rest != [] && Terminator(rest[0]) && At(inp.text, s.pos, Print(f, n, d) + rest)
    ensures ParseBytes(inp, Parsing(s, nodes), Print(f, n, d) + rest)
         == ParseBytes(inp, Parsing(ElemsDone(s, 1, |Print(f, n, d)|, true),
             ElemPlaced(nodes, Recode(n, f.noescape))), rest)
    decreases n, 0
  {
    hide ParseBytes, ParseByte, Step, Quoted, Clean, At, Recoded, Placed, ElemPlaced;
    var key, value := Quoted(n.key, f.noescape), Print(f, n.val, d);
    var nodes1 := nodes + [KeyVal(Recoded(n.key, f.noescape), Null)];
    EntryText(inp.text, s.pos, f, n, d, rest);
    ParseKey(inp, s, nodes, n.key, f.noescape, [COLON] + (f.space + (value + rest)));
    var s1 := Closed(s, KeyFrame, |key|);
    ParseColon(inp, s, s1, nodes1, |key|, f.space, value + rest);
    var s2 := AfterColon(s1, 1 + |f.space|);
    ParseTree(inp, s2, nodes1, n.val, f, d, rest);
    EntryPlaced(s, s2, nodes, n, f.noescape, |key| + 1 + |f.space|, |value|);
  }

  lemma EntryText(text: bytes, pos: nat, f: Format, n: Node, d: int, rest: bytes)
    requires n.KeyVal? && At(text, pos, Print(f, n, d) + rest)
    ensures var key, value := Quoted(n.key, f.noescape), Print(f, n.val, d);
      && Print(f, n, d) + rest == key + ([COLON] + (f.space + (value + rest)))
      && |Print(f, n, d)| == |key| + 1 + |f.space| + |value|
      && At(text, pos, key + ([COLON] + (f.space + (value + rest))))
      && At(text, pos + |key| + 1 + |f.space|, value + rest)
  {
    hide At, Quoted;
    var key, value := Quoted(n.key, f.noescape), Print(f, n.val, d);
    assert Print(f, n, d) == key + [COLON] + f.space + value;
    Regroup4(key, [COLON], f.space, value);
    Regroup4(key, [COLON], f.space, value + rest);
    assert key + [COLON] + f.space + value + rest == key + [COLON] + f.space + (value + rest);
    AtConcat(text, pos, key + [COLON] + f.space, value + rest);
  }

  lemma EntryPlaced(s: Lex, s2: Lex, nodes: seq<Node>, n: Node, noescape: bool, before: nat, len: nat)
    requires ElemReady(s, nodes, true) && n.KeyVal?
    requires s2 == AfterColon(Closed(s, KeyFrame, before), 0)
    requires HasPlace(s2, nodes + [KeyVal(Recoded(n.key, noescape), Null)])
    ensures Done(s2, len) == ElemsDone(s, 1, before + len, true)
    ensures Placed(s2, nodes + [KeyVal(Recoded(n.key, noescape), Null)], Recode(n.val, noescape))
         == ElemPlaced(nodes, Recode(n, noescape))
  {
    hide Recoded, Clean, SetKeyVal;
    assert (nodes + [KeyVal(Recoded(n.key, noescape), Null)])[..|nodes|] == nodes;
  }

  /** Behind the colon and white space. */
  function AfterColon(s: Lex, len: nat): Lex {
    s.(pos := s.pos + len, tokLast := COLON, canInsert := true, expecting := QUOTE)
  }

  lemma ParseKey(inp: Input, s: Lex, nodes: seq<Node>, key: bytes, noescape: bool, rest: bytes)
    requires ElemReady(s, nodes, true) && LexSafe(key, noescape) && NUL !in key
    requires |s.frames| < |s.nescapes| && |nodes| < inp.capacity
    requires At(inp.text, s.pos, Quoted(key, noescape) + rest)
    ensures ParseBytes(inp, Parsing(s, nodes), Quoted(key, noescape) + rest)
         == ParseBytes(inp, Parsing(Closed(s, KeyFrame, |Quoted(key, noescape)|),
             nodes + [KeyVal(Recoded(key, noescape), Null)]), rest)
  {
    hide ParseBytes, ParseByte, EscapeBody, EscapeCount, Quoted, StringBody, Step;
    QuotedLength(key, noescape);
    var len := |EscapeBody(key, noescape)| + 2;
    var ev := Pop(KeyFrame, NoSpecial, EscapeCount(key, noescape), s.pos, s.pos + len - 1);
    KeyStarts(s, nodes);
    ParseQuoted(inp, s, nodes, KeyFrame, key, noescape, rest);
    StringBodyRecoded(inp, key, noescape, ev);
    if !noescape {
      Latin1NoNul(key);
    }
    EventsOne(inp, nodes, ev);
  }

  lemma KeyStarts(s: Lex, nodes: seq<Node>)
    requires ElemReady(s, nodes, true) && |s.frames| < |s.nescapes|
    ensures Step(s, QUOTE) == Next(StringOpened(s, KeyFrame), [Push(KeyFrame, NoSpecial, s.pos)])
  {
  }

  lemma ParseColon(inp: Input, s: Lex, s1: Lex, nodes: seq<Node>, len: nat, space: bytes, rest: bytes)
    requires Valid(s) && Clean(s) && Top(s).kind == ObjectFrame && Top(s).nelem % 2 == 0
    requires s1 == Closed(s, KeyFrame, len) && AllWhitespace(space)
    ensures var s2 := AfterColon(s1, 1 + |space|);
      && ValueReady(s2)
      && ParseBytes(inp, Parsing(s1, nodes), [COLON] + (space + rest)) == ParseBytes(inp, Parsing(s2, nodes), rest)
  {
    hide ParseBytes, ParseByte, Step;
    ColonStep(s1);
    ParseCons(inp, Parsing(s1, nodes), COLON, space + rest);
    QuietByte(inp, s1, nodes, COLON, AfterColon(s1, 1));
    ParseBlanks(inp, AfterColon(s1, 1), nodes, space, rest);
  }

  lemma ColonStep(s: Lex)
    requires Valid(s) && Top(s).kind == ObjectFrame && s.expecting == COLON
    ensures Step(s, COLON) == Next(AfterColon(s, 1), [])
  {
  }

  // ---- what the node stack ends up with ---------------------------------------------------

  /** An empty container filled with a well-formed one's elements is that container, recoded. */
  lemma AllPlaced(nodes: seq<Node>, n: Node, noescape: bool)
    requires WellFormed(n) && (n.Dict? || n.Array?)
    ensures var es := if n.Dict? then n.entries else n.items;
      ElemsPlaced(nodes + [if n.Dict? then Dict([]) else Array([])], RecodeAll(es, noescape), n.Dict?)
      == nodes + [Recode(n, noescape)]
  {
    hide RecodeAll, ElemsPlaced;
    if n.Dict? {
      RecodedKeysDistinct(n.entries, noescape);
      assert [] + RecodeAll(n.entries, noescape) == RecodeAll(n.entries, noescape);
      EntriesPlaced(nodes, [], RecodeAll(n.entries, noescape));
    } else {
      assert [] + RecodeAll(n.items, noescape) == RecodeAll(n.items, noescape);
      ItemsPlaced(nodes, [], RecodeAll(n.items, noescape));
    }
  }

  lemma {:induction false} ItemsPlaced(nodes: seq<Node>, done: seq<Node>, es: seq<Node>)
    requires forall i :: 0 <= i < |es| ==> !es[i].KeyVal?
    ensures ElemsPlaced(nodes + [Array(done)], es, false) == nodes + [Array(done + es)]
    decreases |es|
  {
    if es == [] {
      assert done + es == done;
    } else {
      ItemsPlaced(nodes, done + [es[0]], es[1..]);
      assert done + [es[0]] + es[1..] == done + es;
      assert ElemPlaced(nodes + [Array(done)], es[0]) == nodes + [Array(done + [es[0]])];
    }
  }

  lemma {:induction false} EntriesPlaced(nodes: seq<Node>, done: seq<Node>, es: seq<Node>)
    requires AllKeyVals(done + es) && DistinctKeys(done + es) && AllKeyVals(done) && AllKeyVals(es)
    ensures ElemsPlaced(nodes + [Dict(done)], es, true) == nodes + [Dict(done + es)]
    decreases |es|
  {
    if es == [] {
      assert done + es == done;
    } else {
      assert forall i :: 0 <= i < |done| ==> (done + es)[i] == done[i];
      assert (done + es)[|done|] == es[0];
      assert SetKeyVal(done, es[0]) == done + [es[0]];
      assert done + [es[0]] + es[1..] == done + es;
      EntriesPlaced(nodes, done + [es[0]], es[1..]);
      assert ElemPlaced(nodes + [Dict(done)], es[0]) == nodes + [Dict(done + [es[0]])];
    }
  }

  lemma {:induction false} RecodeAllAt(ns: seq<Node>, noescape: bool, i: nat)
    requires i < |ns|
    ensures RecodeAll(ns, noescape)[i] == Recode(ns[i], noescape)
  {
    if i > 0 {
      RecodeAllAt(ns[1..], noescape, i - 1);
    }
  }

  lemma RecodedKeysDistinct(es: seq<Node>, noescape: bool)
    requires AllKeyVals(es) && DistinctKeys(es)
    ensures AllKeyVals(RecodeAll(es, noescape)) && DistinctKeys(RecodeAll(es, noescape))
  {
    hide RecodeAll;
    var r := RecodeAll(es, noescape);
    forall i, j | 0 <= i < j < |r| ensures r[i].key != r[j].key {
      RecodeAllAt(es, noescape, i);
      RecodeAllAt(es, noescape, j);
      if r[i].key == r[j].key && !noescape {
        Latin1Injective(es[i].key, es[j].key);
      }
    }
  }

  // ---- whole documents --------------------------------------------------------------------

  /** Enough lexer levels above the root's; a scalar is wrapped in a list. */
  predicate FramesFit(n: Node, levels: nat) {
    if n.Dict? || n.Array? then FrameDepth(n) + 1 <= levels else levels >= 3
  }

  /** Enough slots in the node stack, which has as many as there are levels. */
  predicate NodesFit(n: Node, levels: nat) { n.Dict? || n.Array? ==> NodeDepth(n) <= levels }

  predicate Fits(n: Node, levels: nat) { FramesFit(n, levels) && NodesFit(n, levels) }

  /** A context in which no failed parse has left escape counts behind. */
  predicate Fresh(column: seq<nat>) {
    forall i :: 0 <= i < |column| ==> column[i] == 0
  }

  /**
   Parsing undoes printing: the text of every tree without doubles, compact or blank-padded,
   parses to that tree, its strings recoded.
   */
  lemma ParsePrint(n: Node, f: Format, column: seq<nat>, strtod: FloatReader)
    requires IsValue(n) && Printable(n, f.noescape) && BlankFormat(f)
    requires |column| >= 2 && Fresh(column) && Fits(n, |column|)
    ensures CreateNode(Print(f, n, 0), column, strtod) == Ok(Recode(n, f.noescape))
  {
    var text := Print(f, n, 0);
    FirstByte(f, n);
    assert SkipWhitespace(text) == 0;
    if n.Dict? || n.Array? {
      ParseDocument(n, f, column, strtod);
      assert Buffer(text) == text;
    } else {
      var wrapped, g := Array([n]), Format([], [], [], f.noescape, f.dtoa);
      WrappedScalar(n, f, g);
      assert text[0..] == text;
      assert Buffer(text) == Print(g, wrapped, 0);
      MaxOfOne(n);
      ParseDocument(wrapped, g, column, strtod);
      assert RecodeAll([n], f.noescape)[0] == Recode(n, f.noescape);
    }
  }

  /** The lexer and the tree builder on the text of a container. */
  lemma ParseDocument(n: Node, f: Format, column: seq<nat>, strtod: FloatReader)
    requires WellFormed(n) && (n.Dict? || n.Array?) && Printable(n, f.noescape) && BlankFormat(f)
    requires |column| >= 2 && Fresh(column) && FrameDepth(n) + 1 <= |column| && NodeDepth(n) <= |column|
    ensures var text := Print(f, n, 0);
      var p := ParseBytes(Input(text, |column|, strtod), Parsing(Start(column), []), text);
      p.Parsing? && Level(p.lex) == 0 && p.lex.frames[0].nelem == 1 && p.nodes == [Recode(n, f.noescape)]
  {
    hide Print, ParseByte, Recode;
    var text := Print(f, n, 0);
    var inp, s := Input(text, |column|, strtod), Start(column);
    assert text + [] == text && text[0..|text|] == text;
    ParseTree(inp, s, [], n, f, 0, []);
  }

  lemma FirstByte(f: Format, n: Node)
    requires !n.KeyVal? && !n.Number?
    ensures var text := Print(f, n, 0);
      && text != [] && !IsWhitespace(text[0])
      && ((text[0] == LBRACE || text[0] == LBRACKET) <==> n.Dict? || n.Array?)
  {
    hide PrintEach, EscapeBody, Digits;
  }

  lemma WrappedScalar(n: Node, f: Format, g: Format)
    requires !n.KeyVal? && !n.Dict? && !n.Array?
    requires g == Format([], [], [], f.noescape, f.dtoa)
    ensures [LBRACKET] + Print(f, n, 0) + [RBRACKET] == Print(g, Array([n]), 0)
  {
    hide Head;
    assert PrintEach(g, [n], 1) == Print(g, n, 1) + PrintRest(g, [], 1);
    assert Indent(g, 1) == [] + Indent(g, 0);
    assert Head(f, n) == Head(g, n) by {
      HeadSame(n, f, g);
    }
  }

  lemma HeadSame(n: Node, f: Format, g: Format)
    requires !n.KeyVal? && f.noescape == g.noescape && f.dtoa == g.dtoa
    ensures Head(f, n) == Head(g, n)
  {
  }

  // ---- when the tree comes back unchanged ---------------------------------------------------

  predicate AsciiTree(n: Node)
    decreases n, 1
  {
    match n
    case Text(s) => Ascii(s)
    case KeyVal(k, v) => Ascii(k) && AsciiTree(v)
    case Dict(es) => AllAscii(es)
    case Array(items) => AllAscii(items)
    case _ => true
  }

  predicate AllAscii(ns: seq<Node>)
    decreases ns, 0
  {
    ns == [] || (AsciiTree(ns[0]) && AllAscii(ns[1..]))
  }

  /** Escaping keeps a tree exactly when all its strings and keys are ASCII; not escaping always does. */
  lemma {:induction false} RecodeIdentity(n: Node, noescape: bool)
    ensures Recode(n, noescape) == n <==> noescape || AsciiTree(n)
    decreases n, 1
  {
    match n
    case Text(s) => Latin1Identity(s);
    case KeyVal(k, v) =>
      Latin1Identity(k);
      RecodeIdentity(v, noescape);
    case Dict(es) => RecodeAllIdentity(es, noescape);
    case Array(items) => RecodeAllIdentity(items, noescape);
    case _ =>
  }

  lemma {:induction false} RecodeAllIdentity(ns: seq<Node>, noescape: bool)
    ensures RecodeAll(ns, noescape) == ns <==> noescape || AllAscii(ns)
    decreases ns, 0
  {
    if ns != [] {
      RecodeIdentity(ns[0], noescape);
      RecodeAllIdentity(ns[1..], noescape);
      assert ns == [ns[0]] + ns[1..];
      assert RecodeAll(ns, noescape)[1..] == RecodeAll(ns[1..], noescape);
    }
  }

  /** The round trip returns the very same tree if and only if escaping is off or every string is ASCII. */
  lemma ParsePrintIdentity(n: Node, f: Format, column: seq<nat>, strtod: FloatReader)
    requires IsValue(n) && Printable(n, f.noescape) && BlankFormat(f)
    requires |column| >= 2 && Fresh(column) && Fits(n, |column|)
    ensures CreateNode(Print(f, n, 0), column, strtod) == Ok(n) <==> f.noescape || AsciiTree(n)
  {
    ParsePrint(n, f, column, strtod);
    RecodeIdentity(n, f.noescape);
  }
}
