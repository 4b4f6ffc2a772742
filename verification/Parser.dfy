/**
 The parser of json_object.c: callbacks that build the tree on a stack of nodes, and
 `CreateNodeFromJSON` around the lexer.
 */
module Parser {
  import opened Bytes
  import opened Decimal
  import opened Errors
  import opened Escape
  import opened Nodes
  import opened Lexer

  /** `strtod` on a float token: None when the caller's checks reject the result. */
  type FloatReader = bytes -> Option<double>

  /** The buffer that positions refer to, the length of the node stack, and the float reader. */
  datatype Input = Input(text: bytes, capacity: nat, strtod: FloatReader)

  /**
   Why a callback stops the run. CallbackError is `errorCallback`, which can be handed
   SUCCESS. The other two are where the model does not follow the source: it writes past the
   node stack, or takes a node that is no key-value pair for one.
   */
  datatype Stop =
    | CallbackError(error: JsonError)
    | NodeStackOverflow
    | NotAKeyVal

  datatype Built = Nodes(nodes: seq<Node>) | Stopped(stop: Stop)

  function Slice(text: bytes, lo: nat, hi: nat): bytes {
    if lo <= hi <= |text| then text[lo..hi] else []
  }

  /** `_pushNode`. */
  function PushNode(inp: Input, nodes: seq<Node>, n: Node): Built {
    if |nodes| >= inp.capacity then Stopped(NodeStackOverflow) else Nodes(nodes + [n])
  }

  /** `pushCallback`: only containers make a node when they open. */
  function OnPush(inp: Input, nodes: seq<Node>, kind: Kind): Built {
    match kind
    case ObjectFrame => PushNode(inp, nodes, Dict([]))
    case ListFrame => PushNode(inp, nodes, Array([]))
    case _ => Nodes(nodes)
  }

  /** The text between the quotes of a string or key, unescaped if the lexer saw an escape. */
  function StringBody(inp: Input, ev: Event): Result<bytes, JsonError>
    requires ev.Pop?
  {
    var raw := Slice(inp.text, ev.begin + 1, ev.end);
    if ev.nescapes == 0 then Ok(raw)
    else
      match Unescape(raw, 0)
      case Err(e) => Err(e)
      case Ok(s) => if s == [] then Err(Success) else Ok(s)
  }

  predicate IsFloat(sp: Special) { sp.Numeric? && (sp.float || sp.exponent) }

  /** The node of a bareword. */
  function SpecialNode(inp: Input, ev: Event): Result<Node, JsonError>
    requires ev.Pop?
  {
    var token := Slice(inp.text, ev.begin, ev.end);
    match ev.special
    case TrueWord => Ok(Boolean(true))
    case FalseWord => Ok(Boolean(false))
    case NullWord => Ok(Null)
    case sp =>
      if IsFloat(sp) then
        match inp.strtod(token)
        case None => Err(InvalidNumber)
        case Some(d) => Ok(Number(d))
      else
        match ReadInt(token)
        case None => Err(InvalidNumber)
        case Some(i) => Ok(Integer(i))
  }

  /** The first part of `popCallback`: a finished scalar or key goes on the stack. */
  function PopValue(inp: Input, nodes: seq<Node>, ev: Event): Built
    requires ev.Pop?
  {
    match ev.kind
    case StringFrame =>
      (match StringBody(inp, ev)
       case Err(e) => Stopped(CallbackError(e))
       case Ok(s) => PushNode(inp, nodes, Text(s)))
    case KeyFrame =>
      (match StringBody(inp, ev)
       case Err(e) => Stopped(CallbackError(e))
       case Ok(s) => PushNode(inp, nodes, KeyVal(CString(s), Null)))
    case SpecialFrame =>
      (match SpecialNode(inp, ev)
       case Err(e) => Stopped(CallbackError(e))
       case Ok(n) => PushNode(inp, nodes, n))
    case _ => Nodes(nodes)
  }

  /**
   `Node_DictSetKeyVal` on the node at the top of the stack. A node with a null key is refused, and
   as nothing looks at the answer, it is dropped. Any other node that is no pair is used as one: its
   first word is the address of the key, and of the null value a null pointer is read.
   */
  function SetInDict(nodes: seq<Node>, kv: Node): Built {
    if nodes == [] then Stopped(NotAKeyVal)
    else
      var d := nodes[|nodes| - 1];
      if d.Dict? && NullKey(kv) then Nodes(nodes)
      else if d.Dict? && AllKeyVals(d.entries) && kv.KeyVal? then
        Nodes(nodes[|nodes| - 1 := Dict(SetKeyVal(d.entries, kv))])
      else
        Stopped(NotAKeyVal)
  }

  /** The second part: whatever popped, a key excepted, is set in the node below it. */
  function Attach(nodes: seq<Node>): Built
    requires |nodes| >= 2
  {
    var n, below := nodes[|nodes| - 1], nodes[..|nodes| - 1];
    match below[|below| - 1]
    case Dict(_) => SetInDict(below, n)
    case Array(items) => Nodes(below[|below| - 1 := Array(items + [n])])
    case KeyVal(k, _) => SetInDict(below[..|below| - 1], KeyVal(k, n))
    case Null => Stopped(NotAKeyVal)
    case _ => Nodes(nodes)
  }

  function OnPop(inp: Input, nodes: seq<Node>, ev: Event): Built
    requires ev.Pop?
  {
    match PopValue(inp, nodes, ev)
    case Stopped(e) => Stopped(e)
    case Nodes(ns) => if |ns| > 1 && ev.kind != KeyFrame then Attach(ns) else Nodes(ns)
  }

  function OnEvent(inp: Input, nodes: seq<Node>, ev: Event): Built {
    match ev
    case Push(kind, _, _) => OnPush(inp, nodes, kind)
    case Pop(_, _, _, _, _) => OnPop(inp, nodes, ev)
  }

  function OnEvents(inp: Input, nodes: seq<Node>, events: seq<Event>): Built
    decreases |events|
  {
    if events == [] then Nodes(nodes)
    else
      match OnEvent(inp, nodes, events[0])
      case Stopped(e) => Stopped(e)
      case Nodes(ns) => OnEvents(inp, ns, events[1..])
  }

  // ---- the two stacks together ------------------------------------------------------------

  /** A parse that has ended leaves the column of escape counts behind, for the next one in the same context. */
  datatype Parse =
    | Parsing(lex: Lex, nodes: seq<Node>)
    | LexError(error: JsonError, nescapes: seq<nat>)
    | CallbackStop(stop: Stop, nescapes: seq<nat>)

  function ColumnOf(p: Parse): seq<nat> { if p.Parsing? then p.lex.nescapes else p.nescapes }

  predicate StoppedBy(p: Parse, stop: Stop) { p.CallbackStop? && p.stop == stop }

  /** The column when a callback of this step stops: the first POP has not cleared its slot yet. */
  function StopColumn(inp: Input, s: Lex, nodes: seq<Node>, next: StepResult): seq<nat> {
    if next.events != [] && next.events[0].Pop? && OnEvent(inp, nodes, next.events[0]).Stopped? then s.nescapes
    else Column(next)
  }

  function Settle(inp: Input, s: Lex, nodes: seq<Node>, next: StepResult): Parse {
    match OnEvents(inp, nodes, next.events)
    case Stopped(e) => CallbackStop(e, StopColumn(inp, s, nodes, next))
    case Nodes(ns) =>
      match next
      case Next(s', _) => Parsing(s', ns)
      case Fail(e, _, column) => LexError(e, column)
  }

  function ParseByte(inp: Input, p: Parse, c: byte): (p': Parse)
    requires p.Parsing? ==> Valid(p.lex)
    ensures p'.Parsing? ==> Valid(p'.lex)
  {
    if p.Parsing? then Settle(inp, p.lex, p.nodes, Step(p.lex, c)) else p
  }

  function ParseBytes(inp: Input, p: Parse, buf: bytes): (p': Parse)
    requires p.Parsing? ==> Valid(p.lex)
    ensures p'.Parsing? ==> Valid(p'.lex)
    decreases |buf|
  {
    if buf == [] then p else ParseBytes(inp, ParseByte(inp, p, buf[0]), buf[1..])
  }

  lemma ParseNothing(inp: Input, p: Parse)
    requires p.Parsing? ==> Valid(p.lex)
    ensures ParseBytes(inp, p, []) == p
  {
  }

  /** Nothing is read after an error. */
  lemma {:induction false} ParseStopped(inp: Input, p: Parse, buf: bytes)
    requires !p.Parsing?
    ensures ParseBytes(inp, p, buf) == p
    decreases |buf|
  {
    if buf != [] {
      ParseStopped(inp, p, buf[1..]);
    }
  }

  lemma {:induction false} ParseConcat(inp: Input, p: Parse, a: bytes, b: bytes)
    requires p.Parsing? ==> Valid(p.lex)
    ensures ParseBytes(inp, p, a + b) == ParseBytes(inp, ParseBytes(inp, p, a), b)
    decreases |a|
  {
    if a == [] {
      assert a + b == b;
    } else {
      assert (a + b)[0] == a[0] && (a + b)[1..] == a[1..] + b;
      ParseConcat(inp, ParseByte(inp, p, a[0]), a[1..], b);
    }
  }

  // ---- a document -------------------------------------------------------------------------

  datatype ParseError =
    | LexerError(error: JsonError)
    | Incomplete
    | ValueNotFound
    | Undefined(stop: Stop)

  function SkipWhitespace(text: bytes): (off: nat)
    ensures off <= |text|
    ensures off < |text| ==> !IsWhitespace(text[off])
    ensures forall i :: 0 <= i < off ==> IsWhitespace(text[i])
  {
    if text == [] || !IsWhitespace(text[0]) then 0 else 1 + SkipWhitespace(text[1..])
  }

  /** A text whose first byte, white space aside, opens no container is wrapped in a list. */
  predicate IsScalarText(text: bytes) {
    var off := SkipWhitespace(text);
    off < |text| && text[off] != LBRACE && text[off] != LBRACKET
  }

  function Buffer(text: bytes): bytes {
    if IsScalarText(text) then [LBRACKET] + text[SkipWhitespace(text)..] + [RBRACKET] else text
  }

  /** What the end of the buffer finds. */
  function Conclude(p: Parse, scalar: bool): (r: Result<Node, ParseError>)
    requires p.Parsing? ==> Valid(p.lex)
  {
    match p
    case LexError(e, _) => Err(LexerError(e))
    case CallbackStop(CallbackError(e), _) => Err(if e != Success then LexerError(e) else Incomplete)
    case CallbackStop(s, _) => Err(Undefined(s))
    case Parsing(s, nodes) =>
      if Level(s) != 0 then Err(Incomplete)
      else if s.frames[0].nelem == 0 then Err(ValueNotFound)
      else if nodes == [] then Err(Undefined(NotAKeyVal))
      else if !scalar then Ok(nodes[|nodes| - 1])
      else if nodes[0].Array? && nodes[0].items != [] then Ok(nodes[0].items[0])
      else Ok(Null)
  }

  /** Lexer and callbacks on the whole text, in a context whose escape counts are column. */
  function ParseText(text: bytes, column: seq<nat>, strtod: FloatReader): (p: Parse)
    requires |column| >= 2
    ensures p.Parsing? ==> Valid(p.lex)
  {
    var buf := Buffer(text);
    ParseBytes(Input(buf, |column|, strtod), Parsing(Start(column), []), buf)
  }

  /** `CreateNodeFromJSON` in that context. */
  function CreateNode(text: bytes, column: seq<nat>, strtod: FloatReader): Result<Node, ParseError>
    requires |column| >= 2
  {
    Conclude(ParseText(text, column, strtod), IsScalarText(text))
  }

  /** The escape counts it leaves behind. */
  function ColumnLeft(text: bytes, column: seq<nat>, strtod: FloatReader): seq<nat>
    requires |column| >= 2
  {
    ColumnOf(ParseText(text, column, strtod))
  }
}
