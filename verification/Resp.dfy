/**
 JSON.RESP (object_type.c): the same walk writes a tree as replies. The stream of replies is
 one complete value: every array header is followed by exactly the elements it announces.
 */
module Resp {
  import opened Bytes
  import opened Decimal
  import opened Nodes
  import opened Preorder
  import opened Serializer

  datatype Reply =
    | NullReply
    | SimpleString(text: bytes)
    | LongLong(i: int64)
    | DoubleReply(d: double)
    | Bulk(s: bytes)
    | ArrayHeader(len: nat)

  /** `_ObjectTypeToResp_Begin`. */
  function Replies(n: Node): seq<Reply> {
    match n
    case Null => [NullReply]
    case Boolean(b) => [SimpleString(if b then TRUE_TEXT else FALSE_TEXT)]
    case Integer(i) => [LongLong(i)]
    case Number(d) => [DoubleReply(d)]
    case Text(s) => [Bulk(s)]
    case KeyVal(k, _) => [ArrayHeader(2), Bulk(CString(k))]
    case Dict(es) => [ArrayHeader(|es| + 1), SimpleString([LBRACE])]
    case Array(items) => [ArrayHeader(|items| + 1), SimpleString([LBRACKET])]
  }

  method ObjectTypeToRespReply(node: Node, ctx: seq<Reply>) returns (out: seq<Reply>)
    ensures out == ctx + Flatten(Replies, node)
  {
    out := Write(node, Replies, ctx);
  }

  // ---- what a client reads ----------------------------------------------------------------

  /** A value of the protocol. */
  datatype Value = Simple(reply: Reply) | Elements(elements: seq<Value>)

  datatype Read<T> = Got(value: T, rest: seq<Reply>) | Short

  /** One value off the stream, as the protocol defines it. */
  function ReadValue(s: seq<Reply>): (r: Read<Value>)
    ensures r.Got? ==> |r.rest| < |s|
    decreases |s|, 0
  {
    if s == [] then Short
    else if !s[0].ArrayHeader? then Got(Simple(s[0]), s[1..])
    else
      match ReadValues(s[0].len, s[1..])
      case Short => Short
      case Got(vs, rest) => Got(Elements(vs), rest)
  }

  function ReadValues(k: nat, s: seq<Reply>): (r: Read<seq<Value>>)
    ensures r.Got? ==> |r.rest| <= |s|
    decreases |s|, 1
  {
    if k == 0 then Got([], s)
    else
      match ReadValue(s)
      case Short => Short
      case Got(v, rest) =>
        match ReadValues(k - 1, rest)
        case Short => Short
        case Got(vs, rest') => Got([v] + vs, rest')
  }

  /** The value a tree stands for: containers carry their opening bracket as a first element. */
  function Meaning(n: Node): Value
    decreases n, 1
  {
    match n
    case Dict(es) => Elements([Simple(SimpleString([0x7b]))] + Meanings(es))
    case Array(items) => Elements([Simple(SimpleString([0x5b]))] + Meanings(items))
    case KeyVal(k, v) => Elements([Simple(Bulk(CString(k))), Meaning(v)])
    case Null => Simple(NullReply)
    case Boolean(b) => Simple(SimpleString(if b then [0x74, 0x72, 0x75, 0x65] else [0x66, 0x61, 0x6c, 0x73, 0x65]))
    case Integer(i) => Simple(LongLong(i))
    case Number(d) => Simple(DoubleReply(d))
    case Text(s) => Simple(Bulk(s))
  }

  function Meanings(ns: seq<Node>): seq<Value>
    decreases ns, 0
  {
    if ns == [] then [] else [Meaning(ns[0])] + Meanings(ns[1..])
  }

  /** A container's header, its first element, and then its children. */
  lemma ReadContainer(n: Node, vs: seq<Value>, body: seq<Reply>, rest: seq<Reply>)
    requires n.Dict? || n.Array? || n.KeyVal?
    requires ReadValues(|Children(n)|, body) == Got(vs, rest)
    ensures ReadValue(Replies(n) + body) == Got(Elements([Simple(Replies(n)[1])] + vs), rest)
  {
    var s := Replies(n) + body;
    assert s[0] == Replies(n)[0] && s[1..] == [Replies(n)[1]] + body;
    var tail := [Replies(n)[1]] + body;
    assert tail[1..] == body;
    assert ReadValue(tail) == Got(Simple(Replies(n)[1]), body);
    assert s[0].len == |Children(n)| + 1;
  }

  lemma MeaningUnfold(n: Node)
    requires n.Dict? || n.Array? || n.KeyVal?
    ensures Meaning(n) == Elements([Simple(Replies(n)[1])] + Meanings(Children(n)))
  {
    if n.KeyVal? {
      assert Meanings([n.val]) == [Meaning(n.val)] + Meanings([]);
    }
  }

  lemma Regroup(a: seq<Reply>, b: seq<Reply>, c: seq<Reply>)
    ensures (a + b) + c == a + (b + c)
  {
  }

  /** For every tree, malformed ones too: a client reads one value, the tree's, and nothing is left over. */
  lemma {:induction false} ReadReplies(n: Node, rest: seq<Reply>)
    ensures ReadValue(Flatten(Replies, n) + rest) == Got(Meaning(n), rest)
    decreases n, 1
  {
    hide Flatten, FlattenAll, Replies, Meanings;
    var ns := Children(n);
    FlattenChildren(Replies, n);
    Regroup(Replies(n), FlattenAll(Replies, ns), rest);
    if n.Dict? || n.Array? || n.KeyVal? {
      ChildrenSmaller(n);
      ReadEach(n, ns, rest);
      ReadContainer(n, Meanings(ns), FlattenAll(Replies, ns) + rest, rest);
      MeaningUnfold(n);
    } else {
      ReadScalar(n, rest);
    }
  }

  lemma ReadScalar(n: Node, rest: seq<Reply>)
    requires !n.Dict? && !n.Array? && !n.KeyVal?
    ensures ReadValue(Replies(n) + (FlattenAll(Replies, []) + rest)) == Got(Meaning(n), rest)
  {
    assert [] + rest == rest;
    assert (Replies(n) + rest)[1..] == rest;
  }

  lemma {:induction false} ReadEach(n: Node, ns: seq<Node>, rest: seq<Reply>)
    requires forall i :: 0 <= i < |ns| ==> ns[i] < n
    ensures ReadValues(|ns|, FlattenAll(Replies, ns) + rest) == Got(Meanings(ns), rest)
    decreases n, 0, |ns|
  {
    hide Flatten, ReadValue, Meaning;
    if ns == [] {
      assert FlattenAll(Replies, ns) + rest == rest;
    } else {
      var first, others := Flatten(Replies, ns[0]), FlattenAll(Replies, ns[1..]);
      Regroup(first, others, rest);
      ReadReplies(ns[0], others + rest);
      ReadEach(n, ns[1..], rest);
    }
  }
}
