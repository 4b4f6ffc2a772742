/**
 `Node_Serializer`: the walk over a tree with an explicit stack and callbacks, against the
 recursive sequence of callbacks it stands for.
 */
module Serializer {
  import opened Nodes

  datatype NodeType = NullType | StringType | NumberType | IntegerType | BooleanType | DictType | ArrayType | KeyValType

  function TypeOf(n: Node): NodeType {
    match n
    case Null => NullType
    case Boolean(_) => BooleanType
    case Integer(_) => IntegerType
    case Number(_) => NumberType
    case Text(_) => StringType
    case KeyVal(_, _) => KeyValType
    case Dict(_) => DictType
    case Array(_) => ArrayType
  }

  const ALL_TYPES := {NullType, StringType, NumberType, IntegerType, BooleanType, DictType, ArrayType, KeyValType}

  datatype Callback = Begin(n: Node) | End(n: Node) | Delim

  /** The type masks xBegin, xEnd and xDelim. */
  datatype Masks = Masks(xBegin: set<NodeType>, xEnd: set<NodeType>, xDelim: set<NodeType>)

  /** What the walk calls S_CONTAINER over. */
  function Children(n: Node): seq<Node> {
    match n
    case Dict(es) => es
    case Array(items) => items
    case KeyVal(_, v) => [v]
    case _ => []
  }

  function BeginOf(n: Node, m: Masks): seq<Callback> {
    if TypeOf(n) in m.xBegin then [Begin(n)] else []
  }

  function EndOf(n: Node, m: Masks): seq<Callback> {
    if TypeOf(n) in m.xEnd then [End(n)] else []
  }

  function DelimOf(n: Node, m: Masks): seq<Callback> {
    if TypeOf(n) in m.xDelim then [Delim] else []
  }

  /** The callbacks for a tree: its Begin, its children with a delimiter before all but the first, its End. */
  function Calls(n: Node, m: Masks): seq<Callback>
    decreases n, 1
  {
    BeginOf(n, m) +
    (match n
     case Dict(es) => CallsEach(es, DelimOf(n, m), m)
     case Array(items) => CallsEach(items, DelimOf(n, m), m)
     case KeyVal(_, v) => Calls(v, m)
     case _ => []) +
    EndOf(n, m)
  }

  function CallsEach(ns: seq<Node>, delim: seq<Callback>, m: Masks): seq<Callback>
    decreases ns, 0
  {
    if ns == [] then []
    else Calls(ns[0], m) + CallsRest(ns[1..], delim, m)
  }

  /** The same for children that are not the first. */
  function CallsRest(ns: seq<Node>, delim: seq<Callback>, m: Masks): seq<Callback>
    decreases ns, 0
  {
    if ns == [] then []
    else delim + Calls(ns[0], m) + CallsRest(ns[1..], delim, m)
  }

  /** A context as the callbacks leave it. */
  function Fold<S>(f: (S, Callback) -> S, s: S, calls: seq<Callback>): S
    decreases |calls|
  {
    if calls == [] then s else Fold(f, f(s, calls[0]), calls[1..])
  }

  lemma {:induction false} FoldConcat<S>(f: (S, Callback) -> S, s: S, a: seq<Callback>, b: seq<Callback>)
    ensures Fold(f, s, a + b) == Fold(f, Fold(f, s, a), b)
    decreases |a|
  {
    if a == [] {
      assert a + b == b;
    } else {
      assert (a + b)[0] == a[0] && (a + b)[1..] == a[1..] + b;
      FoldConcat(f, f(s, a[0]), a[1..], b);
    }
  }

  // ---- the machine ------------------------------------------------------------------------

  datatype State = S_INIT | S_BEGIN_VALUE | S_CONT_VALUE | S_CONTAINER | S_END_VALUE | S_END

  /** The callbacks still due for the children of n from index i on. */
  function Remaining(n: Node, i: nat, m: Masks): seq<Callback>
    requires i <= |Children(n)|
  {
    if i == 0 then CallsEach(Children(n), DelimOf(n, m), m)
    else CallsRest(Children(n)[i..], DelimOf(n, m), m)
  }

  /** The vectors `nodes` and `indices`, which grow and shrink together, top first. */
  datatype Stack = Bottom | On(node: Node, index: nat, below: Stack)

  ghost predicate ValidStack(st: Stack) {
    st.On? ==> st.index <= |Children(st.node)| && ValidStack(st.below)
  }

  /** The callbacks due for a stack of started nodes, from the top down. */
  ghost function Due(st: Stack, m: Masks): seq<Callback>
    requires ValidStack(st)
  {
    if st.Bottom? then []
    else Remaining(st.node, st.index, m) + (EndOf(st.node, m) + Due(st.below, m))
  }

  /** All callbacks due in a state of the machine. */
  ghost function DueIn(state: State, st: Stack, m: Masks): seq<Callback>
    requires ValidStack(st) && st.On?
  {
    match state
    case S_BEGIN_VALUE => Calls(st.node, m) + Due(st.below, m)
    case S_END_VALUE => EndOf(st.node, m) + Due(st.below, m)
    case _ => Due(st, m)
  }

  /** Nodes of a tree, nulls included. */
  function Count(n: Node): (c: nat)
    ensures c >= 1
    decreases n, 1
  {
    match n
    case Dict(es) => 1 + CountAll(es)
    case Array(items) => 1 + CountAll(items)
    case KeyVal(_, v) => 1 + Count(v)
    case _ => 1
  }

  function CountAll(ns: seq<Node>): nat
    decreases ns, 0
  {
    if ns == [] then 0 else Count(ns[0]) + CountAll(ns[1..])
  }

  /** Work left in the children of started nodes, and a step for each node to be popped. */
  ghost function Work(st: Stack): nat
    requires ValidStack(st)
  {
    if st.Bottom? then 0
    else 16 * CountAll(Children(st.node)[st.index..]) + 4 + Work(st.below)
  }

  /** Every step of the machine lowers this. */
  ghost function WorkIn(state: State, st: Stack): nat
    requires ValidStack(st)
  {
    Work(st) +
    match state
    case S_BEGIN_VALUE => 7
    case S_CONT_VALUE => 3
    case S_CONTAINER => 2
    case S_END_VALUE => 1
    case _ => 0
  }

  lemma CallsUnfold(n: Node, m: Masks)
    ensures Calls(n, m) == BeginOf(n, m) + Remaining(n, 0, m) + EndOf(n, m)
  {
    if n.KeyVal? {
      assert CallsEach([n.val], DelimOf(n, m), m) == Calls(n.val, m) + CallsRest([], DelimOf(n, m), m);
    }
  }

  lemma RemainingUnfold(n: Node, i: nat, m: Masks)
    requires i < |Children(n)|
    ensures Remaining(n, i, m)
         == (if i == 0 then [] else DelimOf(n, m)) + Calls(Children(n)[i], m) + Remaining(n, i + 1, m)
  {
    var ns := Children(n);
    assert ns[i..][0] == ns[i] && ns[i..][1..] == ns[i + 1..];
  }

  lemma RemainingEnd(n: Node, m: Masks)
    ensures Remaining(n, |Children(n)|, m) == []
  {
    assert Children(n)[|Children(n)|..] == [];
  }

  lemma Reassociate(a: seq<Callback>, b: seq<Callback>, c: seq<Callback>, d: seq<Callback>)
    ensures a + b + c + d == a + (b + (c + d))
  {
  }

  /** S_BEGIN_VALUE: the node's Begin, then everything that was due without it. */
  lemma Started(st: Stack, m: Masks)
    requires ValidStack(st) && st.On? && st.index == 0
    ensures DueIn(S_BEGIN_VALUE, st, m) == BeginOf(st.node, m) + Due(st, m)
    ensures Children(st.node) == [] ==> Due(st, m) == DueIn(S_END_VALUE, st, m)
  {
    CallsUnfold(st.node, m);
    var b, r, e, d := BeginOf(st.node, m), Remaining(st.node, 0, m), EndOf(st.node, m), Due(st.below, m);
    Reassociate(b, r, e, d);
    assert r == [] ==> r + (e + d) == e + d;
  }

  /** S_CONTAINER with no child left. */
  lemma Exhausted(st: Stack, m: Masks)
    requires ValidStack(st) && st.On? && st.index == |Children(st.node)|
    ensures Due(st, m) == DueIn(S_END_VALUE, st, m)
  {
    RemainingEnd(st.node, m);
    var e := EndOf(st.node, m) + Due(st.below, m);
    assert [] + e == e;
  }

  /** S_CONTAINER with a child left. */
  function ChildOn(st: Stack): Stack
    requires st.On? && st.index < |Children(st.node)|
  {
    On(Children(st.node)[st.index], 0, st.(index := st.index + 1))
  }

  function DelimBefore(st: Stack, m: Masks): seq<Callback>
    requires st.On?
  {
    if st.index != 0 then DelimOf(st.node, m) else []
  }

  /** The delimiter now, the child on the stack, the rest due as before. */
  lemma ChildPushed(st: Stack, m: Masks)
    requires ValidStack(st) && st.On? && st.index < |Children(st.node)|
    ensures Due(st, m) == DelimBefore(st, m) + DueIn(S_BEGIN_VALUE, ChildOn(st), m)
  {
    hide Calls, Remaining;
    var child := Children(st.node)[st.index];
    RemainingUnfold(st.node, st.index, m);
    var d, c, r := DelimBefore(st, m), Calls(child, m), Remaining(st.node, st.index + 1, m);
    var e := EndOf(st.node, m) + Due(st.below, m);
    assert Due(st, m) == (d + c + r) + e;
    assert DueIn(S_BEGIN_VALUE, ChildOn(st), m) == c + (r + e);
    Reassociate(d, c, r, e);
  }

  lemma ChildPushedWork(st: Stack)
    requires ValidStack(st) && st.On? && st.index < |Children(st.node)|
    ensures WorkIn(S_BEGIN_VALUE, ChildOn(st)) < WorkIn(S_CONTAINER, st)
  {
    var ns, child := Children(st.node), Children(st.node)[st.index];
    assert ns[st.index..][0] == child && ns[st.index..][1..] == ns[st.index + 1..];
    CountChildren(child);
    var next := st.(index := st.index + 1);
    assert CountAll(ns[st.index..]) == Count(child) + CountAll(ns[st.index + 1..]);
    assert Work(st) == 16 * CountAll(ns[st.index..]) + 4 + Work(st.below);
    assert Work(next) == 16 * CountAll(ns[st.index + 1..]) + 4 + Work(st.below);
    assert Children(child)[0..] == Children(child);
    assert Work(ChildOn(st)) == 16 * CountAll(Children(child)) + 4 + Work(next);
  }

  lemma CountChildren(n: Node)
    ensures CountAll(Children(n)) == Count(n) - 1
  {
    if n.KeyVal? {
      assert CountAll([n.val]) == Count(n.val) + CountAll([]);
    }
  }

  /**
   The walk. Whatever the callbacks do to their context, it ends as the recursive sequence
   of calls leaves it, on every tree.
   */
  method NodeSerializer<S>(root: Node, m: Masks, f: (S, Callback) -> S, ctx: S) returns (s: S)
    ensures s == Fold(f, ctx, Calls(root, m))
  {
    hide Fold, DueIn, Due, Calls;
    s := ctx;
    var st := On(root, 0, Bottom);
    var state := S_BEGIN_VALUE;
    RootDue(root, m);
    while state != S_END
      invariant state != S_INIT && ValidStack(st)
      invariant state == S_END ==> s == Fold(f, ctx, Calls(root, m))
      invariant state != S_END ==> st.On?
      invariant state == S_BEGIN_VALUE ==> st.index == 0
      invariant state != S_END ==> Fold(f, s, DueIn(state, st, m)) == Fold(f, ctx, Calls(root, m))
      decreases WorkIn(state, st)
    {
      match state {
        case S_BEGIN_VALUE =>
          s := BeginValue(f, s, st, m);
          state := if st.node != Null then S_CONT_VALUE else S_END_VALUE;
        case S_CONT_VALUE =>
          ContValue(st, m);
          state := if st.node.Dict? || st.node.Array? || st.node.KeyVal? then S_CONTAINER else S_END_VALUE;
        case S_CONTAINER =>
          if st.index < |Children(st.node)| {
            ChildPushedWork(st);
            s := BeginChild(f, s, st, m);
            st := ChildOn(st);
            state := S_BEGIN_VALUE;
          } else {
            ContValue(st, m);
            state := S_END_VALUE;
          }
        case S_END_VALUE =>
          s := EndValue(f, s, st, m);
          st := st.below;
          state := if st.On? then S_CONT_VALUE else S_END;
      }
    }
  }

  lemma RootDue(root: Node, m: Masks)
    ensures DueIn(S_BEGIN_VALUE, On(root, 0, Bottom), m) == Calls(root, m)
  {
  }

  lemma ContValue(st: Stack, m: Masks)
    requires ValidStack(st) && st.On?
    ensures DueIn(S_CONT_VALUE, st, m) == DueIn(S_CONTAINER, st, m) == Due(st, m)
    ensures st.index == |Children(st.node)| ==> Due(st, m) == DueIn(S_END_VALUE, st, m)
  {
    if st.index == |Children(st.node)| {
      Exhausted(st, m);
    }
  }

  method BeginValue<S>(f: (S, Callback) -> S, s: S, st: Stack, m: Masks) returns (r: S)
    requires ValidStack(st) && st.On? && st.index == 0
    ensures var next := if st.node != Null then S_CONT_VALUE else S_END_VALUE;
      Fold(f, r, DueIn(next, st, m)) == Fold(f, s, DueIn(S_BEGIN_VALUE, st, m))
  {
    Started(st, m);
    FoldConcat(f, s, BeginOf(st.node, m), Due(st, m));
    r := Call(f, s, BeginOf(st.node, m));
  }

  method BeginChild<S>(f: (S, Callback) -> S, s: S, st: Stack, m: Masks) returns (r: S)
    requires ValidStack(st) && st.On? && st.index < |Children(st.node)|
    ensures Fold(f, r, DueIn(S_BEGIN_VALUE, ChildOn(st), m)) == Fold(f, s, DueIn(S_CONTAINER, st, m))
  {
    ChildPushed(st, m);
    FoldConcat(f, s, DelimBefore(st, m), DueIn(S_BEGIN_VALUE, ChildOn(st), m));
    r := Call(f, s, DelimBefore(st, m));
  }

  method EndValue<S>(f: (S, Callback) -> S, s: S, st: Stack, m: Masks) returns (r: S)
    requires ValidStack(st) && st.On?
    ensures Fold(f, s, DueIn(S_END_VALUE, st, m))
         == if st.below.On? then Fold(f, r, DueIn(S_CONT_VALUE, st.below, m)) else r
  {
    FoldConcat(f, s, EndOf(st.node, m), Due(st.below, m));
    r := Call(f, s, EndOf(st.node, m));
  }

  /** At most one callback, when its type is in the mask. */
  method Call<S>(f: (S, Callback) -> S, s: S, call: seq<Callback>) returns (r: S)
    requires |call| <= 1
    ensures r == Fold(f, s, call)
  {
    r := if call == [] then s else f(s, call[0]);
  }
}
