/** `CreateNodeFromJSON` over the lexer object, in a context that may have been used before. */
module ParserMachine {
  // The callbacks are a function of the events so far, and they stop the lexer when building the
  // tree fails; so the object computes what the byte-at-a-time parser specifies.

  import opened Bytes
  import opened Errors
  import opened Nodes
  import opened Lexer
  import opened LexerMachine
  import opened Parser

  /** The node stack after a whole trace of callbacks. */
  function Fold(inp: Input, trace: seq<Event>): Built { OnEvents(inp, [], trace) }

  /** The callbacks as the lexer sees them: they may ask it to stop. */
  function Halts(inp: Input): Callback {
    (trace: seq<Event>) => Fold(inp, trace).Stopped?
  }

  lemma {:induction false} OnEventsConcat(inp: Input, nodes: seq<Node>, a: seq<Event>, b: seq<Event>)
    ensures var built := OnEvents(inp, nodes, a);
      OnEvents(inp, nodes, a + b) == if built.Nodes? then OnEvents(inp, built.nodes, b) else built
    decreases |a|
  {
    if a == [] {
      assert a + b == b;
    } else {
      assert (a + b)[0] == a[0] && (a + b)[1..] == a[1..] + b;
      match OnEvent(inp, nodes, a[0])
      case Stopped(_) =>
      case Nodes(ns) => OnEventsConcat(inp, ns, a[1..], b);
    }
  }

  lemma {:induction false} DeliverFold(inp: Input, trace: seq<Event>, events: seq<Event>, nodes: seq<Node>)
    requires Fold(inp, trace) == Nodes(nodes)
    ensures var (t, halted) := Deliver(Halts(inp), trace, events);
      Fold(inp, t) == OnEvents(inp, nodes, events) && halted == Fold(inp, t).Stopped?
    decreases |events|
  {
    if events != [] {
      var t := trace + [events[0]];
      FoldSnoc(inp, trace, events[0], nodes);
      OnEventsConcat(inp, nodes, [events[0]], events[1..]);
      assert [events[0]] + events[1..] == events;
      match OnEvent(inp, nodes, events[0])
      case Stopped(_) =>
      case Nodes(ns) => DeliverFold(inp, t, events[1..], ns);
    }
  }

  lemma FoldSnoc(inp: Input, trace: seq<Event>, ev: Event, nodes: seq<Node>)
    requires Fold(inp, trace) == Nodes(nodes)
    ensures Fold(inp, trace + [ev]) == OnEvents(inp, nodes, [ev]) == OnEvent(inp, nodes, ev)
  {
    hide OnEvent;
    OnEventsConcat(inp, [], trace, [ev]);
    assert [ev][1..] == [];
  }

  /** A lexer run and a parse are in the same state. */
  ghost predicate Matches(inp: Input, r: Run, p: Parse) {
    match r
    case Live(s, t) => p.Parsing? && p.lex == s && Fold(inp, t) == Nodes(p.nodes)
    case Failed(e, _, column) => p == LexError(e, column)
    case Halted(t, column) => p.CallbackStop? && p.nescapes == column && Fold(inp, t) == Built.Stopped(p.stop)
  }

  lemma {:induction false} RunMatches(inp: Input, r: Run, p: Parse, buf: bytes)
    requires Matches(inp, r, p) && (r.Live? ==> Valid(r.lex))
    ensures Matches(inp, RunBytes(Halts(inp), r, buf), ParseBytes(inp, p, buf))
    decreases |buf|
  {
    if buf != [] {
      StepMatches(inp, r, p, buf[0]);
      RunMatches(inp, StepRun(Halts(inp), r, buf[0]), ParseByte(inp, p, buf[0]), buf[1..]);
    }
  }

  lemma StepMatches(inp: Input, r: Run, p: Parse, c: byte)
    requires Matches(inp, r, p) && (r.Live? ==> Valid(r.lex))
    ensures Matches(inp, StepRun(Halts(inp), r, c), ParseByte(inp, p, c))
  {
    hide Step, OnEvent, OnEvents, Fold, Deliver;
    if r.Live? {
      var next := Step(r.lex, c);
      DeliverFold(inp, r.trace, next.events, p.nodes);
      if next.events != [] { FoldSnoc(inp, r.trace, next.events[0], p.nodes); }
    }
  }

  /** The state array of `JSONObjectCtx`, as `jsonsl_new` and every parse since have left it. */
  predicate IsContext(stack: array<State>)
    reads stack
  {
    stack.Length >= 2 && stack[0].kind == RootFrame && stack[0].begin == 0
  }

  /** `CreateJSONObjectCtx`: the state array is all zeroes. */
  method CreateContext(levels: nat) returns (stack: array<State>)
    requires levels >= 2
    ensures fresh(stack) && IsContext(stack) && stack.Length == levels && Slots(stack) == seq(levels, _ => 0)
  {
    stack := new State[levels](_ => State(RootFrame, NoSpecial, 0, 0, 0));
  }

  /** `CreateNodeFromJSON`, in a context that earlier parses may have used. */
  method CreateNodeFromJSON(stack: array<State>, text: bytes, strtod: FloatReader) returns (r: Result<Node, ParseError>)
    requires IsContext(stack)
    modifies stack
    ensures IsContext(stack)
    ensures r == CreateNode(text, old(Slots(stack)), strtod)
    ensures Slots(stack) == ColumnLeft(text, old(Slots(stack)), strtod)
  {
    var off := 0;
    while off < |text| && IsWhitespace(text[off])
      invariant 0 <= off <= |text|
      invariant SkipWhitespace(text) == off + SkipWhitespace(text[off..])
    {
      assert text[off..][0] == text[off] && text[off..][1..] == text[off + 1..];
      off := off + 1;
    }
    assert SkipWhitespace(text) == off;
    var scalar := off < |text| && text[off] != LBRACE && text[off] != LBRACKET;
    var buf := if scalar then [LBRACKET] + text[off..] + [RBRACKET] else text;
    r := ParseBuffer(stack, buf, scalar, strtod);
  }

  /** From where the buffer is ready: reset, feed, and see what came of it. */
  method ParseBuffer(stack: array<State>, buf: bytes, scalar: bool, strtod: FloatReader)
      returns (r: Result<Node, ParseError>)
    requires IsContext(stack)
    modifies stack
    ensures IsContext(stack)
    ensures var p := old(ParseBytes(Input(buf, stack.Length, strtod), Parsing(Start(Slots(stack)), []), buf));
      r == Conclude(p, scalar) && Slots(stack) == ColumnOf(p)
  {
    hide ParseBytes, RunBytes, Conclude;
    var inp := Input(buf, stack.Length, strtod);
    ghost var column := Slots(stack);
    var parser := new Jsonsl.Reset(stack, Halts(inp));
    parser.Feed(buf);
    ghost var p := ParseBytes(inp, Parsing(Start(column), []), buf);
    StartMatches(inp, Start(column));
    RunMatches(inp, Live(Start(column), []), Parsing(Start(column), []), buf);
    assert Matches(inp, parser.Result(), p);
    assert Slots(stack) == parser.column;

    var built := Fold(inp, parser.trace);
    match parser.status {
      case Error(e) =>
        r := Err(LexerError(e));
        LexErrorConcluded(p, scalar);
      case Stopped =>
        r := match built.stop
          case CallbackError(e) => Err(if e != Success then LexerError(e) else Incomplete)
          case s => Err(Undefined(s));
        StopConcluded(p, scalar);
      case Running => r := Finalize(parser, built.nodes, scalar);
    }
  }

  lemma StartMatches(inp: Input, s: Lex)
    ensures Matches(inp, Live(s, []), Parsing(s, []))
  {
  }

  lemma LexErrorConcluded(p: Parse, scalar: bool)
    requires p.LexError?
    ensures Conclude(p, scalar) == Err(LexerError(p.error))
  {
  }

  lemma StopConcluded(p: Parse, scalar: bool)
    requires p.CallbackStop?
    ensures Conclude(p, scalar) ==
      match p.stop
      case CallbackError(e) => Err(if e != Success then LexerError(e) else Incomplete)
      case s => Err(Undefined(s))
  {
  }

  /** The checks and the result at the end of a feed without errors. */
  method Finalize(parser: Jsonsl, nodes: seq<Node>, scalar: bool) returns (r: Result<Node, ParseError>)
    requires parser.Ready()
    ensures r == Conclude(Parsing(parser.Abs(), nodes), scalar)
  {
    if parser.level != 0 {
      return Err(Incomplete);
    }
    if parser.stack[0].nelem == 0 {
      return Err(ValueNotFound);
    }
    if nodes == [] {
      return Err(Undefined(NotAKeyVal));
    }
    if scalar {
      if nodes[0].Array? && nodes[0].items != [] {
        return Ok(nodes[0].items[0]);
      }
      return Ok(Null);
    }
    return Ok(nodes[|nodes| - 1]);
  }
}
