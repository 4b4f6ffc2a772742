/**
 The printer of json_object.c: callbacks of the tree walk that append to a buffer, and the
 text they leave, as a recursive function of the tree.
 */
module Printer {
  import opened Bytes
  import opened Decimal
  import opened Escape
  import opened Nodes
  import opened Serializer

  /** The serializer's options, and `%.17g` as an opaque function. */
  datatype Format = Format(indent: bytes, newline: bytes, space: bytes, noescape: bool, dtoa: double -> bytes)

  /** `_JSONBuilderContext`, as far as it changes. */
  datatype Builder = Builder(buf: bytes, depth: int)

  function Indent(f: Format, depth: int): bytes
    decreases depth
  {
    if depth <= 0 then [] else f.indent + Indent(f, depth - 1)
  }

  lemma {:induction false} NoIndent(f: Format, d: int)
    requires f.indent == []
    ensures Indent(f, d) == []
    decreases d
  {
    if d > 0 { NoIndent(f, d - 1); }
  }

  /** What follows an opening bracket. */
  function Lead(f: Format, ns: seq<Node>, depth: int): bytes {
    if ns != [] then f.newline + Indent(f, depth + 1) else []
  }

  /** What precedes a closing bracket; the indentation comes even in an empty container. */
  function Trail(f: Format, ns: seq<Node>, depth: int): bytes {
    (if ns != [] then f.newline else []) + Indent(f, depth)
  }

  function Separator(f: Format, depth: int): bytes {
    [COMMA] + f.newline + Indent(f, depth)
  }

  /** The text of a scalar, or of an entry up to its value. */
  function Head(f: Format, n: Node): bytes {
    match n
    case Null => NULL_TEXT
    case Boolean(b) => if b then TRUE_TEXT else FALSE_TEXT
    case Integer(i) => IntText(i)
    case Number(d) => f.dtoa(d)
    case Text(s) => Quoted(s, f.noescape)
    case KeyVal(k, _) => Quoted(k, f.noescape) + [COLON] + f.space
    case _ => []
  }

  /** The text of a tree at a depth. */
  function Print(f: Format, n: Node, depth: int): bytes
    decreases n, 1
  {
    match n
    case Dict(es) => [LBRACE] + Lead(f, es, depth) + PrintEach(f, es, depth + 1) + Trail(f, es, depth) + [RBRACE]
    case Array(items) =>
      [LBRACKET] + Lead(f, items, depth) + PrintEach(f, items, depth + 1) + Trail(f, items, depth) + [RBRACKET]
    case KeyVal(_, v) => Head(f, n) + Print(f, v, depth)
    case _ => Head(f, n)
  }

  function PrintEach(f: Format, ns: seq<Node>, depth: int): bytes
    decreases ns, 0
  {
    if ns == [] then [] else Print(f, ns[0], depth) + PrintRest(f, ns[1..], depth)
  }

  function PrintRest(f: Format, ns: seq<Node>, depth: int): bytes
    decreases ns, 0
  {
    if ns == [] then [] else Separator(f, depth) + Print(f, ns[0], depth) + PrintRest(f, ns[1..], depth)
  }

  // ---- the callbacks ----------------------------------------------------------------------

  const MASKS := Masks(ALL_TYPES, {DictType, ArrayType}, {DictType, ArrayType})

  /** `_JSONSerialize_BeginValue`. */
  function BeginValue(f: Format, b: Builder, n: Node): Builder {
    match n
    case Dict(es) => Builder(b.buf + [LBRACE] + Lead(f, es, b.depth), b.depth + 1)
    case Array(items) => Builder(b.buf + [LBRACKET] + Lead(f, items, b.depth), b.depth + 1)
    case _ => b.(buf := b.buf + Head(f, n))
  }

  /** `_JSONSerialize_EndValue`. */
  function EndValue(f: Format, b: Builder, n: Node): Builder {
    match n
    case Dict(es) => Builder(b.buf + Trail(f, es, b.depth - 1) + [RBRACE], b.depth - 1)
    case Array(items) => Builder(b.buf + Trail(f, items, b.depth - 1) + [RBRACKET], b.depth - 1)
    case _ => b
  }

  function Apply(f: Format, b: Builder, c: Callback): Builder {
    match c
    case Begin(n) => BeginValue(f, b, n)
    case End(n) => EndValue(f, b, n)
    case Delim => b.(buf := b.buf + Separator(f, b.depth))
  }

  function Callbacks(f: Format): (Builder, Callback) -> Builder {
    (b: Builder, c: Callback) => Apply(f, b, c)
  }

  lemma FoldOne(f: Format, b: Builder, c: Callback)
    ensures Fold(Callbacks(f), b, [c]) == Apply(f, b, c)
  {
    assert [c][1..] == [];
  }

  lemma FoldNothing(f: Format, b: Builder)
    ensures Fold(Callbacks(f), b, []) == b
  {
  }

  lemma CallsOfScalar(n: Node)
    requires !n.Dict? && !n.Array? && !n.KeyVal?
    ensures Calls(n, MASKS) == [Begin(n)]
  {
  }

  lemma CallsOfKeyVal(n: Node)
    requires n.KeyVal?
    ensures Calls(n, MASKS) == [Begin(n)] + Calls(n.val, MASKS)
  {
    assert BeginOf(n, MASKS) == [Begin(n)] && EndOf(n, MASKS) == [];
  }

  lemma CallsOfContainer(n: Node)
    requires n.Dict? || n.Array?
    ensures Calls(n, MASKS) == [Begin(n)] + CallsEach(Children(n), [Delim], MASKS) + [End(n)]
  {
    assert BeginOf(n, MASKS) == [Begin(n)] && EndOf(n, MASKS) == [End(n)] && DelimOf(n, MASKS) == [Delim];
  }

  /** The callbacks append the text of the tree and restore the depth. */
  lemma {:induction false} FoldCalls(f: Format, b: Builder, n: Node)
    ensures Fold(Callbacks(f), b, Calls(n, MASKS)) == Builder(b.buf + Print(f, n, b.depth), b.depth)
    decreases n, 1
  {
    hide Calls, Fold, Head, PrintEach, Lead, Trail;
    match n
    case Dict(es) => FoldContainer(f, b, n, es, LBRACE, RBRACE);
    case Array(items) => FoldContainer(f, b, n, items, LBRACKET, RBRACKET);
    case KeyVal(_, v) =>
      CallsOfKeyVal(n);
      FoldConcat(Callbacks(f), b, [Begin(n)], Calls(v, MASKS));
      FoldOne(f, b, Begin(n));
      FoldCalls(f, BeginValue(f, b, n), v);
      assert b.buf + Head(f, n) + Print(f, v, b.depth) == b.buf + (Head(f, n) + Print(f, v, b.depth));
    case _ =>
      CallsOfScalar(n);
      FoldOne(f, b, Begin(n));
  }

  lemma FoldContainer(f: Format, b: Builder, n: Node, ns: seq<Node>, open: byte, close: byte)
    requires (n.Dict? && n.entries == ns && open == LBRACE && close == RBRACE)
          || (n.Array? && n.items == ns && open == LBRACKET && close == RBRACKET)
    ensures Fold(Callbacks(f), b, Calls(n, MASKS))
         == Builder(b.buf + ([open] + Lead(f, ns, b.depth) + PrintEach(f, ns, b.depth + 1)
                             + Trail(f, ns, b.depth) + [close]), b.depth)
    decreases ns, 2
  {
    hide Calls, CallsEach, Fold, Print, PrintEach;
    var inner := CallsEach(ns, [Delim], MASKS);
    CallsOfContainer(n);
    FoldConcat(Callbacks(f), b, [Begin(n)] + inner, [End(n)]);
    FoldConcat(Callbacks(f), b, [Begin(n)], inner);
    FoldOne(f, b, Begin(n));
    var b1 := BeginValue(f, b, n);
    FoldEach(f, b1, ns);
    var b2 := b1.(buf := b1.buf + PrintEach(f, ns, b1.depth));
    FoldOne(f, b2, End(n));
    Reassociate(b.buf, [open], Lead(f, ns, b.depth), PrintEach(f, ns, b.depth + 1), Trail(f, ns, b.depth), [close]);
  }

  lemma Reassociate(a: bytes, b: bytes, c: bytes, d: bytes, e: bytes, g: bytes)
    ensures a + b + c + d + e + g == a + (b + c + d + e + g)
  {
  }

  lemma FoldEach(f: Format, b: Builder, ns: seq<Node>)
    ensures Fold(Callbacks(f), b, CallsEach(ns, [Delim], MASKS)) == b.(buf := b.buf + PrintEach(f, ns, b.depth))
    decreases ns, 1
  {
    hide Calls, Fold, Print, CallsRest, PrintRest;
    if ns == [] {
      FoldNothing(f, b);
      assert b.buf + [] == b.buf;
    } else {
      var first, rest := Calls(ns[0], MASKS), CallsRest(ns[1..], [Delim], MASKS);
      FoldConcat(Callbacks(f), b, first, rest);
      FoldCalls(f, b, ns[0]);
      var b1 := b.(buf := b.buf + Print(f, ns[0], b.depth));
      FoldRest(f, b1, ns[1..]);
      assert b1.buf + PrintRest(f, ns[1..], b.depth) == b.buf + PrintEach(f, ns, b.depth);
    }
  }

  lemma FoldRest(f: Format, b: Builder, ns: seq<Node>)
    ensures Fold(Callbacks(f), b, CallsRest(ns, [Delim], MASKS)) == b.(buf := b.buf + PrintRest(f, ns, b.depth))
    decreases ns, 0
  {
    hide Calls, Fold, Print;
    if ns == [] {
      FoldNothing(f, b);
      assert b.buf + [] == b.buf;
    } else {
      var first, rest := Calls(ns[0], MASKS), CallsRest(ns[1..], [Delim], MASKS);
      FoldConcat(Callbacks(f), b, [Delim] + first, rest);
      FoldConcat(Callbacks(f), b, [Delim], first);
      FoldOne(f, b, Delim);
      var b1 := b.(buf := b.buf + Separator(f, b.depth));
      FoldCalls(f, b1, ns[0]);
      var b2 := b1.(buf := b1.buf + Print(f, ns[0], b.depth));
      FoldRest(f, b2, ns[1..]);
      Reassociate(b.buf, Separator(f, b.depth), Print(f, ns[0], b.depth), PrintRest(f, ns[1..], b.depth), [], []);
      assert PrintRest(f, ns, b.depth) + [] + [] == PrintRest(f, ns, b.depth);
      assert b2.buf + PrintRest(f, ns[1..], b.depth) + [] + [] == b2.buf + PrintRest(f, ns[1..], b.depth);
    }
  }

  /** `SerializeNodeToJSON`: the walk with the printing callbacks appends the tree's text. */
  method SerializeNodeToJSON(node: Node, f: Format, json: bytes) returns (r: bytes)
    ensures r == json + Print(f, node, 0)
  {
    var b := NodeSerializer(node, MASKS, Callbacks(f), Builder(json, 0));
    FoldCalls(f, Builder(json, 0), node);
    r := b.buf;
  }
}
