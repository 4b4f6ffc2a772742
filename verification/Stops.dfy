/** Where a parse goes wrong, exactly. */
module Stops {
  // The tree builder writes behind the node stack, takes a node for a key-value pair, or drops one.
  // All are decided by the lexer's frames and the text alone, since the frames determine how many
  // nodes there are.

  import opened Bytes
  import opened Decimal
  import opened Nodes
  import opened Lexer
  import opened Parser
  import opened RoundTrip
  import opened TwoStacks

  // ---- counting nodes by frames -----------------------------------------------------------

  /** The nodes below a child frame of this kind. */
  function CountUnder(frames: seq<Frame>, child: Kind): nat
    decreases |frames|
  {
    if frames == [] then 0
    else
      var f, below := frames[|frames| - 1], frames[..|frames| - 1];
      match f.kind
      case RootFrame => if f.nelem >= 2 then 1 else 0
      case ListFrame => 1 + CountUnder(below, ListFrame)
      case ObjectFrame => (if child == KeyFrame then 1 else 2) + CountUnder(below, ObjectFrame)
      case _ => 0
  }

  /** One node for each open container and one for a key that awaits its value; the document's first container stays. */
  function NodeCount(frames: seq<Frame>): nat {
    if frames == [] then 0
    else
      var f, below := frames[|frames| - 1], frames[..|frames| - 1];
      match f.kind
      case RootFrame => if f.nelem >= 1 then 1 else 0
      case ListFrame => 1 + CountUnder(below, ListFrame)
      case ObjectFrame => (if f.nelem % 2 == 1 then 2 else 1) + CountUnder(below, ObjectFrame)
      case kind => CountUnder(below, kind)
  }

  lemma {:induction false} UnderCount(frames: seq<Frame>, nodes: seq<Node>, child: Kind, root: Kind)
    requires Under(frames, nodes, child, root)
    ensures |nodes| == CountUnder(frames, child)
    decreases |frames|
  {
    var f, below, k := frames[|frames| - 1], frames[..|frames| - 1], |nodes| - 1;
    match f.kind
    case ListFrame => UnderCount(below, nodes[..k], ListFrame, root);
    case ObjectFrame => UnderCount(below, if child == KeyFrame then nodes[..k] else nodes[..k - 1], ObjectFrame, root);
    case _ =>
  }

  /** The frames say how many nodes are on the stack. */
  lemma InStepCount(frames: seq<Frame>, nodes: seq<Node>, root: Kind)
    requires InStep(frames, nodes, root)
    ensures |nodes| == NodeCount(frames)
  {
    hide Under, CountUnder;
    var f, below, k := frames[|frames| - 1], frames[..|frames| - 1], |nodes| - 1;
    match f.kind
    case RootFrame =>
    case ListFrame => UnderCount(below, nodes[..k], ListFrame, root);
    case ObjectFrame => UnderCount(below, if f.nelem % 2 == 1 then nodes[..k - 1] else nodes[..k], ObjectFrame, root);
    case kind => UnderCount(below, nodes, kind, root);
  }

  // ---- one byte ---------------------------------------------------------------------------

  /** A callback gets as far as putting a node on the stack. */
  predicate Puts(inp: Input, ev: Event) {
    if ev.Push? then IsContainer(ev.kind)
    else if IsStringy(ev.kind) then StringBody(inp, ev).Ok?
    else ev.kind == SpecialFrame && SpecialNode(inp, ev).Ok?
  }

  /** The byte makes the tree builder write behind the node stack. */
  predicate Overflows(inp: Input, s: Lex, c: byte)
    requires Valid(s)
  {
    var events := Step(s, c).events;
    events != [] && Puts(inp, events[0]) && NodeCount(s.frames) >= inp.capacity
  }

  /** The callback's scalar has a null key: it is false, or the integer or the double zero. */
  predicate IsNothing(inp: Input, ev: Event) {
    ev.Pop? && ev.kind == SpecialFrame && SpecialNode(inp, ev).Ok? && NullKey(SpecialNode(inp, ev).value)
  }

  /**
   The byte makes the tree builder take a node for a pair, in a document whose first value is an
   object: it completes another value at the top level, other than a scalar with a null key.
   */
  predicate Confuses(inp: Input, s: Lex, c: byte)
    requires Valid(s)
  {
    var events := Step(s, c).events;
    && ExtraValue(s, events)
    && (IsContainer(events[0].kind) || (Puts(inp, events[0]) && NodeCount(s.frames) < inp.capacity))
    && !(|s.frames| == 2 && IsNothing(inp, events[0]))
  }

  /** The byte makes it drop a node in such a document: the value it completes is a scalar with a null key. */
  predicate Leaks(inp: Input, s: Lex, c: byte)
    requires Valid(s)
  {
    var events := Step(s, c).events;
    ExtraValue(s, events) && |s.frames| == 2 && IsNothing(inp, events[0]) && NodeCount(s.frames) < inp.capacity
  }

  /** A byte makes no callback or one, or ends a bareword and then closes the container around it. */
  predicate Shape(events: seq<Event>) {
    || |events| <= 1
    || (|events| == 2 && events[0].Pop? && events[0].kind == SpecialFrame
        && events[1].Pop? && IsContainer(events[1].kind))
  }

  predicate NoRoot(events: seq<Event>) { forall i :: 0 <= i < |events| ==> events[i].kind != RootFrame }

  lemma EventsShape(s: Lex, c: byte)
    requires Valid(s)
    ensures Shape(Step(s, c).events) && NoRoot(Step(s, c).events)
  {
    hide Structural, BeginString, BeginSpecial, InSpecial;
    if |s.frames| == 1 || IsContainer(Top(s).kind) {
      BeginStringShape(s);
      BeginSpecialShape(s, c);
      TokenShape(s, c);
    } else if Top(s).kind == SpecialFrame {
      SpecialShape(s, c);
    }
  }

  lemma SpecialShape(s: Lex, c: byte)
    requires Valid(s) && Top(s).kind == SpecialFrame
    ensures var events := InSpecial(s, c).events;
      Shape(events) && NoRoot(events)
  {
    hide EndSpecial, WordMatches, Shape, NoRoot;
    EndShape(s, c);
    NoneShape();
    if Top(s).special == Zero { EndShape(WithTop(s, Top(s).(special := UNSIGNED)), c); }
  }

  lemma NoneShape()
    ensures Shape([]) && NoRoot([])
  {
  }

  lemma EndShape(s: Lex, c: byte)
    requires Valid(s) && Top(s).kind == SpecialFrame
    ensures var events := EndSpecial(s, c).events;
      Shape(events) && NoRoot(events)
  {
    hide Structural, Finished;
    if Finished(s).Ok? { TokenShape(SpecialPopped(s), c); }
  }

  /** A structural token calls back at most once; and after a value it opens nothing. */
  lemma TokenShape(s: Lex, c: byte)
    requires Valid(s) && !s.inEscape && (|s.frames| == 1 || IsContainer(Top(s).kind))
    ensures var events := Structural(s, c).events;
      && |events| <= 1
      && (events != [] ==> events[0].kind != RootFrame)
      && (events != [] && !s.canInsert ==> events[0].Pop? && IsContainer(events[0].kind))
  {
  }

  /** One callback overflows the stack if and only if it puts a node where there is no room. */
  lemma EventOverflow(inp: Input, nodes: seq<Node>, ev: Event)
    ensures OnEvent(inp, nodes, ev) == Stopped(NodeStackOverflow) <==> Puts(inp, ev) && |nodes| >= inp.capacity
  {
    hide StringBody, SpecialNode;
    if ev.Pop? {
      match PopValue(inp, nodes, ev)
      case Stopped(_) =>
      case Nodes(ns) => if |ns| > 1 { AttachHasRoom(ns); }
    }
  }

  lemma AttachHasRoom(nodes: seq<Node>)
    requires |nodes| >= 2
    ensures Attach(nodes) != Stopped(NodeStackOverflow)
  {
  }

  lemma EventsOverflow(inp: Input, nodes: seq<Node>, events: seq<Event>)
    requires Shape(events)
    ensures OnEvents(inp, nodes, events) == Stopped(NodeStackOverflow)
       <==> events != [] && Puts(inp, events[0]) && |nodes| >= inp.capacity
  {
    hide OnEvent, StringBody, SpecialNode;
    if events != [] {
      EventOverflow(inp, nodes, events[0]);
      match OnEvent(inp, nodes, events[0])
      case Stopped(_) =>
      case Nodes(ns) =>
        if |events| == 2 {
          assert events[1..] == [events[1]];
          EventOverflow(inp, ns, events[1]);
          EventsOne(inp, ns, events[1]);
        } else {
          assert events[1..] == [];
        }
    }
  }

  lemma PoppedRoom(inp: Input, nodes: seq<Node>, ev: Event)
    requires ev.Pop? && ev.kind != RootFrame
    ensures PopValue(inp, nodes, ev).Nodes? <==> IsContainer(ev.kind) || (Puts(inp, ev) && |nodes| < inp.capacity)
  {
    hide StringBody, SpecialNode;
  }

  /** The node on top after a value's own callback has a null key exactly if it comes from such a scalar. */
  lemma NothingPopped(inp: Input, nodes: seq<Node>, ev: Event)
    requires ev.Pop? && PopValue(inp, nodes, ev).Nodes?
    requires nodes != [] && !NullKey(nodes[|nodes| - 1])
    ensures Pairless(PopValue(inp, nodes, ev)) <==> !IsNothing(inp, ev)
  {
    hide StringBody, SpecialNode;
  }

  /** Behind the bracket that opens the document, a byte stops in these two ways exactly where said. */
  lemma StopsExactly(inp: Input, p: Parse, root: Kind, c: byte)
    requires Invariant(p, root) && p.Parsing?
    ensures StoppedBy(ParseByte(inp, p, c), NodeStackOverflow) <==> Overflows(inp, p.lex, c)
    ensures StoppedBy(ParseByte(inp, p, c), NotAKeyVal) <==> root == ObjectFrame && Confuses(inp, p.lex, c)
  {
    hide Step, OnEvents, Puts, PopValue, InStep, NodeCount, AllWellFormed;
    InStepCount(p.lex.frames, p.nodes, root);
    EventsShape(p.lex, c);
    var events := Step(p.lex, c).events;
    EventsOverflow(inp, p.nodes, events);
    ByteInvariant(inp, p, root, c);
    if events != [] && events[0].Pop? {
      PoppedRoom(inp, p.nodes, events[0]);
      if ExtraValue(p.lex, events) && PopValue(inp, p.nodes, events[0]).Nodes? {
        NoScalarOnTop(p.lex.frames, p.nodes, root);
        NothingPopped(inp, p.nodes, events[0]);
      }
    }
  }

  /** Behind the document's first value there is always a container or a pair on top. */
  lemma NoScalarOnTop(frames: seq<Frame>, nodes: seq<Node>, root: Kind)
    requires InStep(frames, nodes, root) && IsContainer(root) && 2 <= |frames| && frames[0].kind == RootFrame
    requires frames[0].nelem >= 2
    requires frames[1].kind != RootFrame && (|frames| >= 3 ==> IsContainer(frames[1].kind))
    ensures |frames| <= 3 ==> nodes != [] && !NullKey(nodes[|nodes| - 1])
  {
  }

  // ---- whole documents --------------------------------------------------------------------

  /** Byte k is the first that stops the parse, and stops it so. */
  predicate StopsAt(inp: Input, p: Parse, buf: bytes, k: nat, stop: Stop)
    requires p.Parsing? ==> Valid(p.lex)
  {
    && k < |buf|
    && var q := ParseBytes(inp, p, buf[..k]);
       q.Parsing? && StoppedBy(ParseByte(inp, q, buf[k]), stop)
  }

  lemma {:induction false} StopsSomewhere(inp: Input, p: Parse, buf: bytes, stop: Stop) returns (k: nat)
    requires p.Parsing? && Valid(p.lex) && StoppedBy(ParseBytes(inp, p, buf), stop)
    ensures StopsAt(inp, p, buf, k, stop)
    decreases |buf|
  {
    hide ParseByte;
    var n := |buf| - 1;
    var q := ParseBytes(inp, p, buf[..n]);
    assert buf == buf[..n] + [buf[n]] && [buf[n]][1..] == [];
    ParseConcat(inp, p, buf[..n], [buf[n]]);
    if q.Parsing? {
      k := n;
    } else {
      ParseStopped(inp, q, [buf[n]]);
      k := StopsSomewhere(inp, p, buf[..n], stop);
      assert buf[..n][..k] == buf[..k];
    }
  }

  lemma StopsThere(inp: Input, p: Parse, buf: bytes, k: nat, stop: Stop)
    requires (p.Parsing? ==> Valid(p.lex)) && StopsAt(inp, p, buf, k, stop)
    ensures StoppedBy(ParseBytes(inp, p, buf), stop)
  {
    hide ParseByte;
    var q := ParseBytes(inp, p, buf[..k]);
    assert buf == buf[..k] + buf[k..] && buf[k..] == [buf[k]] + buf[k + 1..];
    ParseConcat(inp, p, buf[..k], buf[k..]);
    ParseCons(inp, q, buf[k], buf[k + 1..]);
    ParseStopped(inp, ParseByte(inp, q, buf[k]), buf[k + 1..]);
  }

  /** The parse of the first k bytes: white space, or the two stacks in step. */
  lemma PrefixState(inp: Input, column: seq<nat>, buf: bytes, k: nat)
    requires |column| >= 2 && k <= |buf|
    requires var off := SkipWhitespace(buf);
      off < |buf| ==> buf[off] == LBRACE || buf[off] == LBRACKET
    ensures var p := ParseBytes(inp, Parsing(Start(column), []), buf[..k]);
      if k <= SkipWhitespace(buf) then p == Parsing(Start(column).(pos := k), []) else Invariant(p, RootKind(buf))
  {
    hide ParseByte, Step, Invariant, ParseBytes, Start;
    var off := SkipWhitespace(buf);
    StartAtZero(column);
    if k <= off {
      assert AllWhitespace(buf[..k]);
      assert buf[..k] + [] == buf[..k];
      ParseBlanks(inp, Start(column), [], buf[..k], []);
      ParseNothing(inp, Parsing(Start(column).(pos := Start(column).pos + k), []));
    } else {
      PrefixOpens(buf, k);
      Opening(inp, column, buf[..k]);
      var p1 := ParseBytes(inp, Parsing(Start(column), []), buf[..k][..off + 1]);
      BytesInvariant(inp, p1, RootKind(buf), buf[..k][off + 1..]);
    }
  }

  lemma StartAtZero(column: seq<nat>)
    requires |column| >= 2
    ensures var s := Start(column);
      s.pos == 0 && !s.inEscape && |s.frames| == 1
  {
  }

  lemma {:induction false} PrefixOpens(buf: bytes, k: nat)
    requires SkipWhitespace(buf) < k <= |buf|
    ensures SkipWhitespace(buf[..k]) == SkipWhitespace(buf) && RootKind(buf[..k]) == RootKind(buf)
    decreases |buf|
  {
    if IsWhitespace(buf[0]) {
      assert buf[..k][1..] == buf[1..][..k - 1];
      PrefixOpens(buf[1..], k - 1);
    }
  }

  /** White space calls nothing back, and the bracket behind it finds an empty stack. */
  lemma OpeningStops(inp: Input, column: seq<nat>, k: nat, c: byte)
    requires |column| >= 2 && inp.capacity == |column| && (IsWhitespace(c) || c == LBRACE || c == LBRACKET)
    ensures var s := Start(column).(pos := k);
      && !Overflows(inp, s, c) && !Confuses(inp, s, c)
      && ParseByte(inp, Parsing(s, []), c).Parsing?
  {
    var s := Start(column).(pos := k);
    if IsWhitespace(c) {
      BlankStep(s, c);
      QuietByte(inp, s, [], c, Advance(s));
    } else {
      var root := if c == LBRACE then ObjectFrame else ListFrame;
      hide Step;
      FirstStep(s, c, root);
      CallbackByte(inp, s, [], c, Opened(s, root), Push(root, NoSpecial, s.pos));
    }
  }

  /** A byte of the document does one or the other. */
  predicate OverflowsAt(text: bytes, column: seq<nat>, strtod: FloatReader, k: nat)
    requires |column| >= 2
  {
    var buf := Buffer(text);
    var inp := Input(buf, |column|, strtod);
    && k < |buf|
    && var p := ParseBytes(inp, Parsing(Start(column), []), buf[..k]);
       p.Parsing? && Overflows(inp, p.lex, buf[k])
  }

  predicate ConfusesAt(text: bytes, column: seq<nat>, strtod: FloatReader, k: nat)
    requires |column| >= 2
  {
    var buf := Buffer(text);
    var inp := Input(buf, |column|, strtod);
    && k < |buf| && RootKind(buf) == ObjectFrame
    && var p := ParseBytes(inp, Parsing(Start(column), []), buf[..k]);
       p.Parsing? && Confuses(inp, p.lex, buf[k])
  }

  /** A byte of the document makes the tree builder drop a node. */
  predicate LeaksAt(text: bytes, column: seq<nat>, strtod: FloatReader, k: nat)
    requires |column| >= 2
  {
    var buf := Buffer(text);
    var inp := Input(buf, |column|, strtod);
    && k < |buf| && RootKind(buf) == ObjectFrame
    && var p := ParseBytes(inp, Parsing(Start(column), []), buf[..k]);
       p.Parsing? && Leaks(inp, p.lex, buf[k])
  }

  /** At each byte, stopping and the condition come to the same. */
  lemma StopsAtExactly(text: bytes, column: seq<nat>, strtod: FloatReader, k: nat)
    requires |column| >= 2
    ensures var buf := Buffer(text);
      var inp, p := Input(buf, |column|, strtod), Parsing(Start(column), []);
      && (StopsAt(inp, p, buf, k, NodeStackOverflow) <==> OverflowsAt(text, column, strtod, k))
      && (StopsAt(inp, p, buf, k, NotAKeyVal) <==> ConfusesAt(text, column, strtod, k))
  {
    hide ParseByte, Overflows, Confuses, ParseBytes, Start, Invariant, SkipWhitespace;
    var buf := Buffer(text);
    var inp := Input(buf, |column|, strtod);
    if k < |buf| {
      BufferStarts(text);
      PrefixState(inp, column, buf, k);
      var p := ParseBytes(inp, Parsing(Start(column), []), buf[..k]);
      if k <= SkipWhitespace(buf) {
        OpeningStops(inp, column, k, buf[k]);
      } else if p.Parsing? {
        StopsExactly(inp, p, RootKind(buf), buf[k]);
      }
    }
  }

  lemma BufferStarts(text: bytes)
    ensures var buf := Buffer(text);
      var off := SkipWhitespace(buf);
      off < |buf| ==> buf[off] == LBRACE || buf[off] == LBRACKET
  {
  }

  /** A document is refused for one of these reasons exactly if the parse stops so. */
  lemma RefusedExactly(text: bytes, column: seq<nat>, strtod: FloatReader)
    requires |column| >= 2
    ensures var p := ParseText(text, column, strtod);
      && (CreateNode(text, column, strtod) == Err(Undefined(NodeStackOverflow)) <==> StoppedBy(p, NodeStackOverflow))
      && (CreateNode(text, column, strtod) == Err(Undefined(NotAKeyVal)) <==> StoppedBy(p, NotAKeyVal))
  {
    hide ParseBytes, SkipWhitespace, Invariant;
    if SkipWhitespace(text) == |text| {
      BlankDocument(text, column, strtod);
    } else {
      var buf := Buffer(text);
      BufferOpens(text);
      PrefixState(Input(buf, |column|, strtod), column, buf, |buf|);
      assert buf[..|buf|] == buf;
      Concluded(ParseText(text, column, strtod), IsScalarText(text), RootKind(buf));
    }
  }

  /**
   A document overflows the node stack if and only if some byte puts a node on it when the frames
   say that it is full.
   */
  lemma OverflowExactly(text: bytes, column: seq<nat>, strtod: FloatReader)
    requires |column| >= 2
    ensures CreateNode(text, column, strtod) == Err(Undefined(NodeStackOverflow))
       <==> exists k: nat :: OverflowsAt(text, column, strtod, k)
  {
    hide ParseBytes, Start, StopsAt, OverflowsAt, CreateNode;
    var buf := Buffer(text);
    var inp, p := Input(buf, |column|, strtod), Parsing(Start(column), []);
    RefusedExactly(text, column, strtod);
    if StoppedBy(ParseText(text, column, strtod), NodeStackOverflow) {
      var k := StopsSomewhere(inp, p, buf, NodeStackOverflow);
      StopsAtExactly(text, column, strtod, k);
    }
    if k: nat :| OverflowsAt(text, column, strtod, k) {
      StopsAtExactly(text, column, strtod, k);
      StopsThere(inp, p, buf, k, NodeStackOverflow);
    }
  }

  /**
   A document confuses the tree builder if and only if its first value is an object and some byte
   completes another value at the top level, whose own callback finds nothing wrong with it and
   which is not false or zero.
   */
  lemma ConfusedExactly(text: bytes, column: seq<nat>, strtod: FloatReader)
    requires |column| >= 2
    ensures CreateNode(text, column, strtod) == Err(Undefined(NotAKeyVal))
       <==> exists k: nat :: ConfusesAt(text, column, strtod, k)
  {
    hide ParseBytes, Start, StopsAt, ConfusesAt, CreateNode;
    var buf := Buffer(text);
    var inp, p := Input(buf, |column|, strtod), Parsing(Start(column), []);
    RefusedExactly(text, column, strtod);
    if StoppedBy(ParseText(text, column, strtod), NotAKeyVal) {
      var k := StopsSomewhere(inp, p, buf, NotAKeyVal);
      StopsAtExactly(text, column, strtod, k);
    }
    if k: nat :| ConfusesAt(text, column, strtod, k) {
      StopsAtExactly(text, column, strtod, k);
      StopsThere(inp, p, buf, k, NotAKeyVal);
    }
  }

  // ---- inputs -----------------------------------------------------------------------------

  /** The text {},[] . */
  const OBJECT_THEN_LIST: bytes := [LBRACE, RBRACE, COMMA, LBRACKET, RBRACKET]

  /**
   The smallest text that confuses the tree builder: the second value is set in the first object as
   if it were an entry.
   */
  lemma ObjectThenList(strtod: FloatReader)
    ensures CreateNode(OBJECT_THEN_LIST, [0, 0], strtod) == Err(Undefined(NotAKeyVal))
  {
    hide ParseBytes, Start;
    assert SkipWhitespace(OBJECT_THEN_LIST) == 0;
    ObjectThenListParse(Input(OBJECT_THEN_LIST, 2, strtod));
  }

  lemma ObjectThenListParse(inp: Input)
    requires inp.text == OBJECT_THEN_LIST && inp.capacity == 2
    ensures ParseBytes(inp, Parsing(Start([0, 0]), []), OBJECT_THEN_LIST) == CallbackStop(NotAKeyVal, [0, 0])
  {
    hide Step, ParseBytes, ParseByte, Attach, Start, Valid;
    var text := OBJECT_THEN_LIST;
    var s0, s1, s2, s3, s4, s5 := ObjectThenListSteps();
    var d, a := Dict([]), Array([]);
    assert text[1..][1..] == text[2..] && text[2..][1..] == text[3..] && text[3..][1..] == text[4..]
      && text[4..][1..] == [];
    FirstObject(inp, s0, s1, s2, s3);
    ParseOne(inp, Parsing(s0, []), text, Parsing(s1, [d]));
    ParseOne(inp, Parsing(s1, [d]), text[1..], Parsing(s2, [d]));
    ParseOne(inp, Parsing(s2, [d]), text[2..], Parsing(s3, [d]));
    ThenList(inp, s3, s4, s5);
    ParseOne(inp, Parsing(s3, [d]), text[3..], Parsing(s4, [d, a]));
    ParseOne(inp, Parsing(s4, [d, a]), text[4..], CallbackStop(NotAKeyVal, [0, 0]));
    ParseNothing(inp, CallbackStop(NotAKeyVal, [0, 0]));
  }

  lemma FirstObject(inp: Input, s0: Lex, s1: Lex, s2: Lex, s3: Lex)
    requires inp.capacity == 2 && Valid(s0) && Valid(s1) && Valid(s2)
    requires Step(s0, LBRACE) == Next(s1, [Push(ObjectFrame, NoSpecial, 0)])
    requires Step(s1, RBRACE) == Next(s2, [Pop(ObjectFrame, NoSpecial, 0, 0, 0)])
    requires Step(s2, COMMA) == Next(s3, [])
    ensures ParseByte(inp, Parsing(s0, []), LBRACE) == Parsing(s1, [Dict([])])
    ensures ParseByte(inp, Parsing(s1, [Dict([])]), RBRACE) == Parsing(s2, [Dict([])])
    ensures ParseByte(inp, Parsing(s2, [Dict([])]), COMMA) == Parsing(s3, [Dict([])])
  {
    hide Step, ParseByte, Valid, Attach;
    assert [] + [Dict([])] == [Dict([])];
    CallbackByte(inp, s0, [], LBRACE, s1, Push(ObjectFrame, NoSpecial, 0));
    CallbackByte(inp, s1, [Dict([])], RBRACE, s2, Pop(ObjectFrame, NoSpecial, 0, 0, 0));
    QuietByte(inp, s2, [Dict([])], COMMA, s3);
  }

  lemma ThenList(inp: Input, s3: Lex, s4: Lex, s5: Lex)
    requires inp.capacity == 2 && Valid(s3) && Valid(s4)
    requires Step(s3, LBRACKET) == Next(s4, [Push(ListFrame, NoSpecial, 3)])
    requires Step(s4, RBRACKET) == Next(s5, [Pop(ListFrame, NoSpecial, 0, 3, 3)]) && s4.nescapes == [0, 0]
    ensures ParseByte(inp, Parsing(s3, [Dict([])]), LBRACKET) == Parsing(s4, [Dict([]), Array([])])
    ensures ParseByte(inp, Parsing(s4, [Dict([]), Array([])]), RBRACKET) == CallbackStop(NotAKeyVal, [0, 0])
  {
    hide Step, ParseByte, Valid, Attach;
    assert [Dict([])] + [Array([])] == [Dict([]), Array([])];
    CallbackByte(inp, s3, [Dict([])], LBRACKET, s4, Push(ListFrame, NoSpecial, 3));
    AttachToObject(Array([]));
    CallbackByte(inp, s4, [Dict([]), Array([])], RBRACKET, s5, Pop(ListFrame, NoSpecial, 0, 3, 3));
  }

  lemma AttachToObject(v: Node)
    requires !v.KeyVal?
    ensures Attach([Dict([]), v]) == if NullKey(v) then Nodes([Dict([])]) else Stopped(NotAKeyVal)
  {
    assert [Dict([]), v][..1] == [Dict([])];
  }

  lemma ObjectThenListSteps() returns (s0: Lex, s1: Lex, s2: Lex, s3: Lex, s4: Lex, s5: Lex)
    ensures s0 == Start([0, 0]) && Valid(s0) && Valid(s1) && Valid(s2) && Valid(s3) && Valid(s4)
    ensures s4.nescapes == [0, 0]
    ensures Step(s0, LBRACE) == Next(s1, [Push(ObjectFrame, NoSpecial, 0)])
    ensures Step(s1, RBRACE) == Next(s2, [Pop(ObjectFrame, NoSpecial, 0, 0, 0)])
    ensures Step(s2, COMMA) == Next(s3, [])
    ensures Step(s3, LBRACKET) == Next(s4, [Push(ListFrame, NoSpecial, 3)])
    ensures Step(s4, RBRACKET) == Next(s5, [Pop(ListFrame, NoSpecial, 0, 3, 3)])
  {
    hide Step;
    s0, s1, s2, s3 := FirstObjectSteps();
    s4, s5 := Opened(s3, ListFrame), Done(s3, 2);
    OpenStep(s3, ListFrame);
    assert s4.frames[..1] == Bumped(s3.frames);
    CloseStep(s3, ListFrame, s4, RBRACKET);
  }

  lemma AfterFirstObject(s: Lex)
    requires s == Done(Start([0, 0]), 2)
    ensures Valid(s) && Step(s, COMMA) == Next(Separated(s, 1), [])
  {
  }

  /** The text {},0 and a space. */
  const OBJECT_THEN_ZERO: bytes := [LBRACE, RBRACE, COMMA, 0x30, SPACE]

  /** The smallest text that makes the tree builder drop a node: it is accepted, and nothing is left of the zero. */
  lemma ObjectThenZero(strtod: FloatReader)
    ensures CreateNode(OBJECT_THEN_ZERO, [0, 0], strtod) == Ok(Dict([]))
    ensures LeaksAt(OBJECT_THEN_ZERO, [0, 0], strtod, 4)
  {
    hide ParseBytes, Start, Leaks;
    assert SkipWhitespace(OBJECT_THEN_ZERO) == 0;
    ObjectThenZeroParse(Input(OBJECT_THEN_ZERO, 2, strtod));
  }

  lemma ObjectThenZeroParse(inp: Input)
    requires inp.text == OBJECT_THEN_ZERO && inp.capacity == 2
    ensures var p := ParseBytes(inp, Parsing(Start([0, 0]), []), OBJECT_THEN_ZERO[..4]);
      p.Parsing? && Leaks(inp, p.lex, SPACE)
    ensures var p := ParseBytes(inp, Parsing(Start([0, 0]), []), OBJECT_THEN_ZERO);
      p.Parsing? && Level(p.lex) == 0 && p.lex.frames[0].nelem == 2 && p.nodes == [Dict([])]
  {
    hide Step, ParseBytes, ParseByte, Attach, Start, Valid, SpecialNode, BehindDigits, Leaks;
    var text, d := OBJECT_THEN_ZERO, Dict([]);
    var s0, s1, s2, s3 := FirstObjectSteps();
    FirstObject(inp, s0, s1, s2, s3);
    assert text[..4] == [LBRACE] + ([RBRACE] + ([COMMA] + ([0x30] + []))) && text == text[..4] + [SPACE];
    ParseCons(inp, Parsing(s0, []), LBRACE, [RBRACE] + ([COMMA] + ([0x30] + [])));
    ParseCons(inp, Parsing(s1, [d]), RBRACE, [COMMA] + ([0x30] + []));
    ParseCons(inp, Parsing(s2, [d]), COMMA, [0x30] + []);
    var r := ReadInteger(inp, s3, [d], 0, []);
    ThenZero(inp, s3, r);
    assert IntText(0) == [0x30];
    ParseNothing(inp, Parsing(BehindDigits(s3, 1, r), [d]));
    ParseConcat(inp, Parsing(s0, []), text[..4], [SPACE]);
  }

  lemma ThenZero(inp: Input, s3: Lex, r: IntegerRead)
    requires inp.text == OBJECT_THEN_ZERO && inp.capacity == 2 && IntegerFlags(r, 0)
    requires ValueReady(s3) && s3.pos == 3 && s3.frames == [Frame(RootFrame, 1, 0, NoSpecial)] && |s3.nescapes| == 2
    ensures Valid(BehindDigits(s3, 1, r)) && Leaks(inp, BehindDigits(s3, 1, r), SPACE)
    ensures var p := ParseBytes(inp, Parsing(BehindDigits(s3, 1, r), [Dict([])]), [SPACE]);
      p.Parsing? && Level(p.lex) == 0 && p.lex.frames[0].nelem == 2 && p.nodes == [Dict([])]
  {
    hide Step, ParseBytes, ParseByte, Attach, SpecialNode, EndSpecial, Finished;
    var d, sp := Dict([]), if r.sp == Zero then UNSIGNED else r.sp;
    assert IntText(0) == [0x30] && [0x30] + [SPACE] == inp.text[3..5];
    IntegerEvent(inp, s3, 0, r, [SPACE]);
    var s4, s5 := BehindDigits(s3, 1, r), BehindDigits(s3, 1, r.(sp := sp));
    ZeroLeaks(inp, s4, s5, sp);
    AttachToObject(Integer(0));
    assert [d] + [Integer(0)] == [d, Integer(0)];
    BareEndRest(inp, s4, s5, [d], sp, [d], [SPACE]);
    assert [SPACE] + [] == [SPACE];
    ParseBlanks(inp, Done(s3, 1), [d], [SPACE], []);
    ParseNothing(inp, Parsing(Done(s3, 1).(pos := 5), [d]));
  }

  lemma ZeroLeaks(inp: Input, s1: Lex, s2: Lex, sp: Special)
    requires inp.capacity == 2 && Valid(s1) && Valid(s2) && Top(s2).kind == SpecialFrame
    requires Step(s1, SPACE) == EndSpecial(s2, SPACE)
    requires |s1.frames| == 2 && s1.frames[0] == Frame(RootFrame, 2, 0, NoSpecial) && s1.frames[1].kind == SpecialFrame
    requires Finished(s2) == Ok(sp) && SpecialNode(inp, PopEvent(s2, sp)) == Ok(Integer(0))
    ensures Leaks(inp, s1, SPACE)
  {
    hide Step, SpecialNode, Finished;
    assert s1.frames[..1] == [s1.frames[0]];
  }

  lemma FirstObjectSteps() returns (s0: Lex, s1: Lex, s2: Lex, s3: Lex)
    ensures s0 == Start([0, 0]) && Valid(s0) && Valid(s1) && Valid(s2) && Valid(s3)
    ensures Step(s0, LBRACE) == Next(s1, [Push(ObjectFrame, NoSpecial, 0)])
    ensures Step(s1, RBRACE) == Next(s2, [Pop(ObjectFrame, NoSpecial, 0, 0, 0)])
    ensures Step(s2, COMMA) == Next(s3, []) && ValueReady(s3) && s3.pos == 3
    ensures s3.frames == [Frame(RootFrame, 1, 0, NoSpecial)] && s3.nescapes == [0, 0]
  {
    hide Step;
    s0 := Start([0, 0]);
    s1, s2 := Opened(s0, ObjectFrame), Done(s0, 2);
    s3 := Separated(s2, 1);
    OpenStep(s0, ObjectFrame);
    assert s1.frames[..1] == Bumped(s0.frames);
    CloseStep(s0, ObjectFrame, s1, RBRACE);
    AfterFirstObject(s2);
  }

  lemma ParseOne(inp: Input, p: Parse, buf: bytes, p': Parse)
    requires (p.Parsing? ==> Valid(p.lex)) && buf != [] && ParseByte(inp, p, buf[0]) == p'
    ensures ParseBytes(inp, p, buf) == ParseBytes(inp, p', buf[1..])
  {
  }
}
