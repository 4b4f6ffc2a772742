/**
 Persistence (object_type.c): a tree is written as a flat stream of typed items and rebuilt
 from it by a machine with an explicit stack.
 */
module Rdb {
  import opened Bytes
  import opened Decimal
  import opened Nodes
  import opened Preorder

  datatype Item = Unsigned(u: nat) | Signed(i: int64) | Double(d: double) | StringBuffer(s: bytes)

  const N_NULL := 0x1
  const N_STRING := 0x2
  const N_NUMBER := 0x4
  const N_INTEGER := 0x8
  const N_BOOLEAN := 0x10
  const N_DICT := 0x20
  const N_ARRAY := 0x40
  const N_KEYVAL := 0x80

  const ONE: byte := 0x31
  const ZERO: byte := 0x30

  /** `_ObjectTypeSave_Begin`; a key is written up to its first NUL. */
  function Header(n: Node): seq<Item> {
    match n
    case Null => [Unsigned(N_NULL)]
    case Boolean(b) => [Unsigned(N_BOOLEAN), StringBuffer([if b then ONE else ZERO])]
    case Integer(i) => [Unsigned(N_INTEGER), Signed(i)]
    case Number(d) => [Unsigned(N_NUMBER), Double(d)]
    case Text(s) => [Unsigned(N_STRING), StringBuffer(s)]
    case KeyVal(k, _) => [Unsigned(N_KEYVAL), StringBuffer(CString(k))]
    case Dict(es) => [Unsigned(N_DICT), Unsigned(|es|)]
    case Array(items) => [Unsigned(N_ARRAY), Unsigned(|items|)]
  }

  function Encode(n: Node): seq<Item> { Flatten(Header, n) }

  function EncodeAll(ns: seq<Node>): seq<Item> { FlattenAll(Header, ns) }

  method ObjectTypeRdbSave(value: Node, rdb: seq<Item>) returns (out: seq<Item>)
    ensures out == rdb + Encode(value)
  {
    out := Write(value, Header, rdb);
  }

  // ---- reading, by structural recursion ---------------------------------------------------

  /**
   Malformed: the next item has another kind than the one asked for, or there is none.
   UnknownType: the type just read is none of the eight.
   */
  datatype LoadError = Malformed | UnknownType

  /** Undefined: a dictionary is handed a node that is neither a pair nor refused, and takes it for a pair. */
  datatype Load = Loaded(node: Node, rest: seq<Item>) | Failed(error: LoadError) | Undefined

  /** `(NodeType)`: the 64-bit item as an enum of 32 bits. */
  function TypeOf(u: nat): nat { u % 0x1_0000_0000 }

  predicate Known(t: nat) { t in {N_NULL, N_STRING, N_NUMBER, N_INTEGER, N_BOOLEAN, N_DICT, N_ARRAY, N_KEYVAL} }

  /** A null pointer, or a node other than a pair whose first word is not zero. */
  predicate Unfit(n: Node) { !n.KeyVal? && !NullKey(n) }

  /**
   S_END_VALUE: the finished node goes into the container below it. A dictionary refuses a node with
   a null key, which nothing looks at.
   */
  function AddTo(container: Node, n: Node): Option<Node> {
    match container
    case KeyVal(k, _) => Some(KeyVal(k, n))
    case Dict(es) =>
      if NullKey(n) then Some(container)
      else if AllKeyVals(es) && n.KeyVal? then Some(Dict(SetKeyVal(es, n)))
      else None
    case Array(items) => Some(Array(items + [n]))
    case _ => Some(container)
  }

  /** A value: its type, then its body. */
  function LoadValue(s: seq<Item>): (r: Load)
    ensures r.Loaded? ==> |r.rest| < |s|
    decreases |s|, 0
  {
    if s == [] || !s[0].Unsigned? then Failed(Malformed) else LoadBody(TypeOf(s[0].u), s[1..])
  }

  /** What one read after the type gives: a finished scalar, or a container and how many children it awaits. */
  datatype Start =
    | Scalar(node: Node, rest: seq<Item>)
    | Open(node: Node, children: nat, rest: seq<Item>)
    | Bad(error: LoadError)

  function BeginLoad(t: nat, s: seq<Item>): (r: Start)
    ensures r.Scalar? ==> |r.rest| <= |s|
    ensures r.Open? ==> |r.rest| < |s|
    ensures r == Bad(UnknownType) <==> !Known(t)
  {
    if t == N_NULL then Scalar(Null, s)
    else if !Known(t) then Bad(UnknownType)
    else if s == [] then Bad(Malformed)
    else
      match s[0]
      case StringBuffer(b) =>
        if t == N_BOOLEAN then Scalar(Boolean(b != [] && b[0] == ONE), s[1..])
        else if t == N_STRING then Scalar(Text(b), s[1..])
        else if t == N_KEYVAL then Open(KeyVal(CString(b), Null), 1, s[1..])
        else Bad(Malformed)
      case Signed(i) => if t == N_INTEGER then Scalar(Integer(i), s[1..]) else Bad(Malformed)
      case Double(d) => if t == N_NUMBER then Scalar(Number(d), s[1..]) else Bad(Malformed)
      case Unsigned(len) =>
        if t == N_DICT then Open(Dict([]), len, s[1..])
        else if t == N_ARRAY then Open(Array([]), len, s[1..])
        else Bad(Malformed)
  }

  function LoadBody(t: nat, s: seq<Item>): (r: Load)
    ensures r.Loaded? ==> |r.rest| <= |s|
    decreases |s|, 2
  {
    match BeginLoad(t, s)
    case Scalar(n, rest) => Loaded(n, rest)
    case Open(c, k, rest) => LoadInto(c, k, rest)
    case Bad(e) => Failed(e)
  }

  /** k more children of a container. */
  function LoadInto(container: Node, k: nat, s: seq<Item>): (r: Load)
    ensures r.Loaded? ==> |r.rest| <= |s|
    decreases |s|, 1
  {
    if k == 0 then Loaded(container, s)
    else
      match LoadValue(s)
      case Loaded(n, rest) =>
        (match AddTo(container, n)
         case None => Undefined
         case Some(c) => LoadInto(c, k - 1, rest))
      case r => r
  }

  // ---- the types a stream makes the loader read --------------------------------------------

  /** The types of the value at the head of a stream and of everything in it, as they are met. */
  function TypesRead(s: seq<Item>): seq<nat>
    decreases |s|, 0
  {
    if s == [] || !s[0].Unsigned? then [] else [TypeOf(s[0].u)] + TypesInBody(TypeOf(s[0].u), s[1..])
  }

  function TypesInBody(t: nat, s: seq<Item>): seq<nat>
    decreases |s|, 2
  {
    match BeginLoad(t, s)
    case Open(c, k, rest) => TypesInto(c, k, rest)
    case _ => []
  }

  /** Of k children, up to the first that is not there or cannot be added. */
  function TypesInto(container: Node, k: nat, s: seq<Item>): seq<nat>
    decreases |s|, 1
  {
    if k == 0 then []
    else
      TypesRead(s) +
      match LoadValue(s)
      case Loaded(n, rest) =>
        (match AddTo(container, n)
         case None => []
         case Some(c) => TypesInto(c, k - 1, rest))
      case _ => []
  }

  predicate AllKnown(ts: seq<nat>) { forall i :: 0 <= i < |ts| ==> Known(ts[i]) }

  lemma KnownConcat(a: seq<nat>, b: seq<nat>)
    ensures AllKnown(a + b) <==> AllKnown(a) && AllKnown(b)
  {
    assert forall i :: 0 <= i < |a| ==> (a + b)[i] == a[i];
    assert forall i :: 0 <= i < |b| ==> (a + b)[|a| + i] == b[i];
  }

  /** The recursion meets an unknown type exactly when one is among those read. */
  lemma {:induction false} UnknownExactly(s: seq<Item>)
    ensures LoadValue(s) == Failed(UnknownType) <==> !AllKnown(TypesRead(s))
    decreases |s|, 0
  {
    hide LoadBody, TypesInBody, Known;
    if s != [] && s[0].Unsigned? {
      var t := TypeOf(s[0].u);
      KnownConcat([t], TypesInBody(t, s[1..]));
      UnknownInBody(t, s[1..]);
      assert AllKnown([t]) <==> Known(t) by { assert [t][0] == t; }
    }
  }

  lemma {:induction false} UnknownInBody(t: nat, s: seq<Item>)
    ensures LoadBody(t, s) == Failed(UnknownType) <==> !Known(t) || !AllKnown(TypesInBody(t, s))
    decreases |s|, 2
  {
    hide LoadInto, TypesInto, Known;
    match BeginLoad(t, s)
    case Open(c, k, rest) => UnknownInto(c, k, rest);
    case _ =>
  }

  lemma {:induction false} UnknownInto(c: Node, k: nat, s: seq<Item>)
    ensures LoadInto(c, k, s) == Failed(UnknownType) <==> !AllKnown(TypesInto(c, k, s))
    decreases |s|, 1
  {
    hide LoadValue, TypesRead, AddTo, Known;
    if k > 0 {
      UnknownExactly(s);
      assert TypesRead(s) + [] == TypesRead(s);
      match LoadValue(s)
      case Loaded(n, rest) =>
        if AddTo(c, n).Some? {
          var c' := AddTo(c, n).value;
          UnknownInto(c', k - 1, rest);
          KnownConcat(TypesRead(s), TypesInto(c', k - 1, rest));
        }
      case _ =>
    }
  }

  // ---- the nodes a stream makes the loader hand to dictionaries ------------------------------

  /** For the value at the head of a stream and everything in it, as they are handed over. */
  function Handed(s: seq<Item>): seq<Node>
    decreases |s|, 0
  {
    if s == [] || !s[0].Unsigned? then [] else HandedInBody(TypeOf(s[0].u), s[1..])
  }

  function HandedInBody(t: nat, s: seq<Item>): seq<Node>
    decreases |s|, 2
  {
    match BeginLoad(t, s)
    case Open(c, k, rest) => HandedInto(c, k, rest)
    case _ => []
  }

  /** Of k children, up to the first that is not there or that a dictionary takes for a pair. */
  function HandedInto(container: Node, k: nat, s: seq<Item>): seq<Node>
    decreases |s|, 1
  {
    if k == 0 then []
    else
      Handed(s) +
      match LoadValue(s)
      case Loaded(n, rest) =>
        (if container.Dict? then [n] else []) +
        (match AddTo(container, n)
         case None => []
         case Some(c) => HandedInto(c, k - 1, rest))
      case _ => []
  }

  predicate NoneUnfit(ns: seq<Node>) { forall i :: 0 <= i < |ns| ==> !Unfit(ns[i]) }

  lemma UnfitConcat(a: seq<Node>, b: seq<Node>)
    ensures NoneUnfit(a + b) <==> NoneUnfit(a) && NoneUnfit(b)
  {
    assert forall i :: 0 <= i < |a| ==> (a + b)[i] == a[i];
    assert forall i :: 0 <= i < |b| ==> (a + b)[|a| + i] == b[i];
  }

  /** A dictionary being loaded has pairs for entries. */
  predicate Tidy(c: Node) { c.Dict? ==> AllKeyVals(c.entries) }

  lemma AddExactly(c: Node, n: Node)
    requires Tidy(c)
    ensures AddTo(c, n).None? <==> !NoneUnfit(if c.Dict? then [n] else [])
    ensures AddTo(c, n).Some? ==> Tidy(AddTo(c, n).value)
  {
    assert [n][0] == n;
  }

  /** The recursion becomes undefined exactly when one of the nodes handed to dictionaries is unfit. */
  lemma {:induction false} UndefinedExactly(s: seq<Item>)
    ensures LoadValue(s) == Undefined <==> !NoneUnfit(Handed(s))
    decreases |s|, 0
  {
    hide LoadBody, HandedInBody, Unfit;
    if s != [] && s[0].Unsigned? { UndefinedInBody(TypeOf(s[0].u), s[1..]); }
  }

  lemma {:induction false} UndefinedInBody(t: nat, s: seq<Item>)
    ensures LoadBody(t, s) == Undefined <==> !NoneUnfit(HandedInBody(t, s))
    decreases |s|, 2
  {
    hide LoadInto, HandedInto, Unfit, Known;
    match BeginLoad(t, s)
    case Open(c, k, rest) => UndefinedInto(c, k, rest);
    case _ =>
  }

  lemma {:induction false} UndefinedInto(c: Node, k: nat, s: seq<Item>)
    requires Tidy(c)
    ensures LoadInto(c, k, s) == Undefined <==> !NoneUnfit(HandedInto(c, k, s))
    decreases |s|, 1
  {
    hide LoadValue, Handed, AddTo, NoneUnfit;
    NothingUnfit();
    if k > 0 {
      UndefinedExactly(s);
      match LoadValue(s)
      case Loaded(n, rest) =>
        var own := if c.Dict? then [n] else [];
        AddExactly(c, n);
        var more := if AddTo(c, n).None? then [] else HandedInto(AddTo(c, n).value, k - 1, rest);
        if AddTo(c, n).Some? { UndefinedInto(AddTo(c, n).value, k - 1, rest); }
        UnfitConcat(own, more);
        UnfitConcat(Handed(s), own + more);
      case _ => UnfitConcat(Handed(s), []);
    }
  }

  lemma NothingUnfit()
    ensures NoneUnfit([])
  {
  }

  // ---- the machine ------------------------------------------------------------------------

  datatype State = S_INIT | S_BEGIN_VALUE | S_END_VALUE | S_CONTAINER | S_END

  /** The vectors `nodes` and `indices`, top first. */
  datatype Stack = Bottom | On(container: Node, index: nat, below: Stack)

  /** The machine's variables, and the stream that is left; or why a read ended the run; or undefined behaviour. */
  datatype Machine =
    | Machine(state: State, t: nat, node: Node, st: Stack, s: seq<Item>)
    | Aborted(error: LoadError)
    | UndefinedBehaviour

  function Init(rdb: seq<Item>): Machine { Machine(S_INIT, 0, Null, Bottom, rdb) }

  predicate Sound(m: Machine) { m.Machine? && m.state == S_CONTAINER ==> m.st.On? }

  predicate Ended(m: Machine) { m.Aborted? || (m.Machine? && m.state == S_END && m.st.Bottom?) }

  /** Reading a type. */
  function ReadType(m: Machine): Machine
    requires m.Machine?
  {
    if m.s == [] || !m.s[0].Unsigned? then Aborted(Malformed)
    else m.(state := S_BEGIN_VALUE, t := TypeOf(m.s[0].u), s := m.s[1..])
  }

  /** One turn of the loop. The inner switch has no case for an unknown type, which changes nothing. */
  function Turn(m: Machine): (r: Machine)
    requires Sound(m)
    ensures Sound(r)
  {
    if !m.Machine? then m
    else
      match m.state
      case S_INIT => ReadType(m)
      case S_BEGIN_VALUE =>
        (match BeginLoad(m.t, m.s)
         case Scalar(n, rest) => m.(node := n, s := rest, state := S_END_VALUE)
         case Open(c, k, rest) => m.(node := c, st := On(c, k, m.st), s := rest, state := S_CONTAINER)
         case Bad(e) => if e == UnknownType then m else Aborted(e))
      case S_END_VALUE =>
        if m.st.Bottom? then m.(state := S_END)
        else
          (match AddTo(m.st.container, m.node)
           case Some(c) => m.(st := m.st.(container := c), state := S_CONTAINER)
           case None => UndefinedBehaviour)
      case S_CONTAINER =>
        if m.st.index > 0 then ReadType(m.(st := m.st.(index := m.st.index - 1)))
        else m.(node := m.st.container, st := m.st.below, state := S_END_VALUE)
      case S_END => m
  }

  function Turns(m: Machine, k: nat): (r: Machine)
    requires Sound(m)
    ensures Sound(r)
    decreases k
  {
    if k == 0 then m else Turns(Turn(m), k - 1)
  }

  /**
   `ObjectTypeRdbLoad`, for as many turns as the caller waits. The loop of the source has no
   bound; `EndsExactly` says when it needs none.
   */
  method ObjectTypeRdbLoad(rdb: seq<Item>, turns: nat) returns (m: Machine)
    ensures m == Turns(Init(rdb), turns)
  {
    var state, node, st, s := S_INIT, Null, Bottom, rdb;
    var t: nat, left := 0, turns;
    while state != S_END && left > 0
      invariant Sound(Machine(state, t, node, st, s))
      invariant Turns(Machine(state, t, node, st, s), left) == Turns(Init(rdb), turns)
      decreases left
    {
      left := left - 1;
      match state {
        case S_INIT =>
          if s == [] || !s[0].Unsigned? {
            StaysPut(Aborted(Malformed), left);
            return Aborted(Malformed);
          }
          t, s, state := TypeOf(s[0].u), s[1..], S_BEGIN_VALUE;
        case S_BEGIN_VALUE =>
          match BeginLoad(t, s) {
            case Scalar(n, rest) => node, s, state := n, rest, S_END_VALUE;
            case Open(c, k, rest) => node, st, s, state := c, On(c, k, st), rest, S_CONTAINER;
            case Bad(UnknownType) =>
            case Bad(e) =>
              StaysPut(Aborted(e), left);
              return Aborted(e);
          }
        case S_END_VALUE =>
          if st.On? {
            match AddTo(st.container, node) {
              case Some(c) => st, state := On(c, st.index, st.below), S_CONTAINER;
              case None =>
                StaysPut(UndefinedBehaviour, left);
                return UndefinedBehaviour;
            }
          } else {
            state := S_END;
          }
        case S_CONTAINER =>
          if st.index > 0 {
            if s == [] || !s[0].Unsigned? {
              StaysPut(Aborted(Malformed), left);
              return Aborted(Malformed);
            }
            st, t, s, state := On(st.container, st.index - 1, st.below), TypeOf(s[0].u), s[1..], S_BEGIN_VALUE;
          } else {
            node, st, state := st.container, st.below, S_END_VALUE;
          }
      }
    }
    m := Machine(state, t, node, st, s);
    if state == S_END { StaysPut(m, left); }
  }

  lemma {:induction false} StaysPut(m: Machine, k: nat)
    requires Sound(m) && Turn(m) == m
    ensures Turns(m, k) == m
    decreases k
  {
    if k > 0 { StaysPut(m, k - 1); }
  }

  lemma {:induction false} TurnsConcat(m: Machine, j: nat, k: nat)
    requires Sound(m)
    ensures Turns(m, j + k) == Turns(Turns(m, j), k)
    decreases j
  {
    if j > 0 { TurnsConcat(Turn(m), j - 1, k); }
  }

  // ---- the machine and the recursion --------------------------------------------------------

  /** What the recursion makes of a finished node and the containers waiting below it. */
  ghost function Resume(st: Stack, n: Node, s: seq<Item>): Load
    decreases st, 0
  {
    match st
    case Bottom => Loaded(n, s)
    case On(c, k, below) =>
      match AddTo(c, n)
      case None => Undefined
      case Some(c') => Continue(below, LoadInto(c', k, s))
  }

  ghost function Continue(st: Stack, r: Load): Load
    decreases st, 1
  {
    match r
    case Loaded(n, s) => Resume(st, n, s)
    case _ => r
  }

  /** What is still to come in each state. */
  ghost function Outlook(m: Machine): Load
    requires Sound(m)
  {
    if m.Aborted? then Failed(m.error)
    else if m.UndefinedBehaviour? then Undefined
    else
      match m.state
      case S_INIT => Continue(m.st, LoadValue(m.s))
      case S_BEGIN_VALUE => Continue(m.st, LoadBody(m.t, m.s))
      case S_CONTAINER => Continue(m.st.below, LoadInto(m.st.container, m.st.index, m.s))
      case _ => Resume(m.st, m.node, m.s)
  }

  /** At a type that is none of the eight. */
  predicate Stuck(m: Machine) { m.Machine? && m.state == S_BEGIN_VALUE && !Known(m.t) }

  /** Nothing more happens, or nothing more is known. */
  predicate Halted(m: Machine) { Ended(m) || m.UndefinedBehaviour? || Stuck(m) }

  function Rank(state: State): nat {
    match state
    case S_BEGIN_VALUE => 3
    case S_END_VALUE => 2
    case S_CONTAINER => 1
    case S_INIT => 1
    case S_END => 0
  }

  function Depth(st: Stack): nat { if st.Bottom? then 0 else 1 + Depth(st.below) }

  /** How many turns there can be before the machine has ended or is stuck. */
  function Budget(m: Machine): nat { if !m.Machine? then 0 else 3 * |m.s| + 2 * Depth(m.st) + Rank(m.state) }

  /** A turn keeps what the recursion expects, and uses up some of the budget unless there is nothing to do. */
  lemma TurnKeeps(m: Machine)
    requires Sound(m) && (m.Machine? && m.state == S_END ==> m.st.Bottom?)
    ensures var r := Turn(m);
      && Outlook(r) == Outlook(m)
      && (r.Machine? && r.state == S_END ==> r.st.Bottom?)
      && (if Halted(m) then r == m else Budget(r) < Budget(m))
  {
    hide LoadInto, AddTo, Known;
    if m.Machine? {
      if m.state == S_BEGIN_VALUE { BodyUnfold(m.t, m.s); }
      if m.state == S_CONTAINER { IntoUnfold(m.st.container, m.st.index, m.st.below, m.s); }
    }
  }

  lemma {:induction false} TurnsKeep(m: Machine, k: nat)
    requires Sound(m) && (m.Machine? && m.state == S_END ==> m.st.Bottom?)
    ensures var r := Turns(m, k);
      && Outlook(r) == Outlook(m)
      && (k >= Budget(m) ==> Halted(r))
    decreases k
  {
    hide Outlook, Turn, Ended, Stuck;
    if k > 0 {
      TurnKeeps(m);
      if Turn(m) == m {
        StaysPut(m, k);
      } else {
        TurnsKeep(Turn(m), k - 1);
      }
    } else if Budget(m) == 0 {
      NoBudget(m);
    }
  }

  lemma NoBudget(m: Machine)
    requires Sound(m) && Budget(m) == 0
    ensures Halted(m)
  {
  }

  lemma SettledOutlook(m: Machine)
    requires Sound(m)
    ensures Ended(m) ==> Outlook(m) == if m.Aborted? then Failed(m.error) else Loaded(m.node, m.s)
    ensures m.UndefinedBehaviour? ==> Outlook(m) == Undefined
    ensures Stuck(m) ==> Outlook(m) == Failed(UnknownType)
  {
    hide LoadInto, Known;
    if Stuck(m) { BodyUnfold(m.t, m.s); }
  }

  /** The machine never aborts for an unknown type. */
  lemma {:induction false} NeverUnknown(m: Machine, k: nat)
    requires Sound(m) && m != Aborted(UnknownType)
    ensures Turns(m, k) != Aborted(UnknownType)
    decreases k
  {
    hide Turn;
    if k > 0 {
      TurnNotUnknown(m);
      NeverUnknown(Turn(m), k - 1);
    }
  }

  lemma TurnNotUnknown(m: Machine)
    requires Sound(m) && m != Aborted(UnknownType)
    ensures Turn(m) != Aborted(UnknownType)
  {
    hide Known;
  }

  /**
   The machine ends on a stream if and only if every type it reads is one of the eight, and no
   dictionary is handed an unfit node. Then it ends within three turns for each item and one more,
   with what the recursion loads. At an unfit node its behaviour is undefined; at an unknown type
   it stays for ever.
   */
  lemma EndsExactly(rdb: seq<Item>, k: nat)
    ensures Ended(Turns(Init(rdb), k)) ==> AllKnown(TypesRead(rdb)) && NoneUnfit(Handed(rdb))
    ensures k >= 3 * |rdb| + 1 ==>
      var m := Turns(Init(rdb), k);
      if !AllKnown(TypesRead(rdb)) then Stuck(m) && Turn(m) == m
      else if !NoneUnfit(Handed(rdb)) then m == UndefinedBehaviour
      else Ended(m) && LoadValue(rdb) == if m.Aborted? then Failed(m.error) else Loaded(m.node, m.s)
  {
    hide Turn, Turns, TypesRead, AllKnown, Handed, NoneUnfit, LoadValue, Known;
    var m := Turns(Init(rdb), k);
    assert Outlook(Init(rdb)) == LoadValue(rdb) by { assert Init(rdb).st == Bottom; AtBottom(LoadValue(rdb)); }
    TurnsKeep(Init(rdb), k);
    SettledOutlook(m);
    UnknownExactly(rdb);
    UndefinedExactly(rdb);
    NeverUnknown(Init(rdb), k);
    if Stuck(m) { TurnKeeps(m); }
  }

  lemma AtBottom(r: Load)
    ensures Continue(Bottom, r) == r
  {
  }

  /** The smallest stream on which the loader never ends. */
  lemma NeverEnds(k: nat)
    ensures !Ended(Turns(Init([Unsigned(3)]), k))
  {
    var rdb := [Unsigned(3)];
    assert TypesRead(rdb) == [3] + TypesInBody(3, rdb[1..]);
    assert TypesRead(rdb)[0] == 3 && !Known(3);
    EndsExactly(rdb, k);
  }

  /** A dictionary of one entry, which is the integer zero: the loader ends, with the empty dictionary. */
  lemma ZeroDropped(k: nat)
    requires k >= 13
    ensures var m := Turns(Init([Unsigned(N_DICT), Unsigned(1), Unsigned(N_INTEGER), Signed(0)]), k);
      Ended(m) && m.Machine? && m.node == Dict([]) && m.s == []
  {
    hide Turns, AllKnown, TypesRead, NoneUnfit, Handed, LoadValue;
    var rdb := [Unsigned(N_DICT), Unsigned(1), Unsigned(N_INTEGER), Signed(0)];
    assert rdb == [Unsigned(N_DICT), Unsigned(1), Unsigned(N_INTEGER)] + [Signed(0)];
    OneEntry(N_INTEGER, [Signed(0)], Integer(0));
    UnknownExactly(rdb);
    UndefinedExactly(rdb);
    EndsExactly(rdb, k);
  }

  /** And one whose entry is a null pointer: undefined. */
  lemma NullEntry(k: nat)
    requires k >= 10
    ensures Turns(Init([Unsigned(N_DICT), Unsigned(1), Unsigned(N_NULL)]), k) == UndefinedBehaviour
  {
    hide Turns, AllKnown, TypesRead, NoneUnfit, Handed, LoadValue;
    var rdb := [Unsigned(N_DICT), Unsigned(1), Unsigned(N_NULL)];
    assert rdb == rdb + [];
    OneEntry(N_NULL, [], Null);
    UnknownExactly(rdb);
    UndefinedExactly(rdb);
    EndsExactly(rdb, k);
  }

  lemma OneEntry(t: nat, body: seq<Item>, n: Node)
    requires t < 0x1_0000_0000 && BeginLoad(t, body) == Scalar(n, [])
    ensures LoadValue([Unsigned(N_DICT), Unsigned(1), Unsigned(t)] + body)
         == if AddTo(Dict([]), n).None? then Undefined else Loaded(AddTo(Dict([]), n).value, [])
  {
    hide AddTo, BeginLoad;
    var s := [Unsigned(N_DICT), Unsigned(1), Unsigned(t)] + body;
    assert s[1..] == [Unsigned(1), Unsigned(t)] + body && s[1..][1..] == [Unsigned(t)] + body;
    assert ([Unsigned(t)] + body)[1..] == body;
    DictHeader(s[1..]);
    BodyUnfold(N_DICT, s[1..]);
    BodyUnfold(t, body);
    var r := AddTo(Dict([]), n);
    if r.Some? { assert LoadInto(r.value, 0, []) == Loaded(r.value, []); }
  }

  lemma DictHeader(s: seq<Item>)
    requires s != [] && s[0].Unsigned?
    ensures BeginLoad(N_DICT, s) == Open(Dict([]), s[0].u, s[1..])
  {
  }

  lemma BodyUnfold(t: nat, s: seq<Item>)
    ensures LoadBody(t, s) == match BeginLoad(t, s)
                              case Scalar(n, rest) => Loaded(n, rest)
                              case Open(c, k, rest) => LoadInto(c, k, rest)
                              case Bad(e) => Failed(e)
  {
  }

  /** A child first, then the rest of the children: as S_CONTAINER goes about it. */
  lemma IntoUnfold(c: Node, k: nat, below: Stack, s: seq<Item>)
    ensures Continue(below, LoadInto(c, k, s)) ==
      if k == 0 then Resume(below, c, s)
      else if s == [] || !s[0].Unsigned? then Failed(Malformed)
      else Continue(On(c, k - 1, below), LoadBody(TypeOf(s[0].u), s[1..]))
  {
    hide LoadBody, AddTo;
    if k > 0 && s != [] && s[0].Unsigned? {
      match LoadBody(TypeOf(s[0].u), s[1..])
      case Loaded(n, rest) =>
        if AddTo(c, n).Some? { assert LoadInto(c, k, s) == LoadInto(AddTo(c, n).value, k - 1, rest); }
      case _ =>
    }
  }

  // ---- the round trip ---------------------------------------------------------------------

  lemma EncodeUnfold(n: Node)
    ensures Encode(n) == Header(n) + EncodeAll(Serializer.Children(n))
  {
    FlattenChildren(Header, n);
  }

  /** Reading the children of a container, whatever it holds already. */
  ghost predicate Accepts(c: Node, ns: seq<Node>) {
    match c
    case Dict(es) => AllKeyVals(es + ns) && DistinctKeys(es + ns)
    case Array(_) => true
    case KeyVal(_, _) => |ns| <= 1
    case _ => ns == []
  }

  function WithChildren(c: Node, ns: seq<Node>): Node {
    match c
    case Dict(es) => Dict(es + ns)
    case Array(items) => Array(items + ns)
    case KeyVal(k, v) => if ns == [] then c else KeyVal(k, ns[0])
    case _ => c
  }

  lemma AddFirst(c: Node, ns: seq<Node>)
    requires Accepts(c, ns) && ns != []
    ensures var r := AddTo(c, ns[0]);
      r.Some? && Accepts(r.value, ns[1..]) && WithChildren(r.value, ns[1..]) == WithChildren(c, ns)
  {
    match c
    case Dict(es) =>
      assert forall i :: 0 <= i < |es| ==> (es + ns)[i] == es[i];
      assert (es + ns)[|es|] == ns[0];
      assert Find(es, ns[0].key) == |es|;
      assert es + [ns[0]] + ns[1..] == es + ns;
    case Array(items) => assert items + [ns[0]] + ns[1..] == items + ns;
    case _ =>
  }

  lemma Regroup(a: seq<Item>, b: seq<Item>, c: seq<Item>)
    ensures (a + b) + c == a + (b + c)
  {
  }

  /** A container as it is when its header has been read. */
  function Fresh(n: Node): Node {
    match n
    case Dict(_) => Dict([])
    case Array(_) => Array([])
    case KeyVal(k, _) => KeyVal(k, Null)
    case _ => n
  }

  predicate HasChildren(n: Node) { n.Dict? || n.Array? || n.KeyVal? }

  lemma HeaderParts(n: Node, rest: seq<Item>)
    ensures var h, s := Header(n), Header(n) + rest;
      && 1 <= |h| <= 2 && s[0] == h[0] && h[0].Unsigned? && TypeOf(h[0].u) == h[0].u
      && (|h| == 1 ==> s[1..] == rest)
      && (|h| == 2 ==> s[1..] == [h[1]] + rest && s[1..][0] == h[1] && s[1..][1..] == rest)
  {
  }

  lemma HeaderLoads(n: Node, rest: seq<Item>)
    requires WellFormed(n)
    ensures var s := Header(n) + rest;
      && s != [] && s[0].Unsigned?
      && BeginLoad(TypeOf(s[0].u), s[1..])
        == if HasChildren(n) then Open(Fresh(n), |Serializer.Children(n)|, rest) else Scalar(n, rest)
  {
    hide TypeOf;
    HeaderParts(n, rest);
    match n
    case Null =>
    case Dict(_) =>
    case Array(_) =>
    case KeyVal(_, _) =>
    case _ =>
  }

  lemma FreshAccepts(n: Node)
    requires WellFormed(n) && HasChildren(n)
    ensures Accepts(Fresh(n), Serializer.Children(n)) && WithChildren(Fresh(n), Serializer.Children(n)) == n
  {
    match n
    case Dict(es) => assert [] + es == es;
    case Array(items) => assert [] + items == items;
    case _ =>
  }

  /** Loading undoes saving: the tree, its order of entries, and not one item more. */
  lemma {:induction false} LoadEncode(n: Node, rest: seq<Item>)
    requires WellFormed(n)
    ensures LoadValue(Encode(n) + rest) == Loaded(n, rest)
    decreases n, 1
  {
    hide BeginLoad, Header, Encode, EncodeAll, Accepts, WithChildren, LoadInto, Fresh;
    var ns := Serializer.Children(n);
    EncodeUnfold(n);
    Regroup(Header(n), EncodeAll(ns), rest);
    HeaderLoads(n, EncodeAll(ns) + rest);
    var s := Header(n) + (EncodeAll(ns) + rest);
    BodyUnfold(TypeOf(s[0].u), s[1..]);
    if HasChildren(n) {
      FreshAccepts(n);
      ChildrenWellFormed(n);
      LoadIntoEncode(n, Fresh(n), ns, rest);
    } else {
      NoChildren(rest);
    }
  }

  lemma ChildrenWellFormed(n: Node)
    requires WellFormed(n)
    ensures forall i :: 0 <= i < |Serializer.Children(n)| ==>
      Serializer.Children(n)[i] < n && WellFormed(Serializer.Children(n)[i])
  {
  }

  lemma NoChildren(rest: seq<Item>)
    ensures EncodeAll([]) + rest == rest
  {
  }

  lemma {:induction false} LoadIntoEncode(n: Node, c: Node, ns: seq<Node>, rest: seq<Item>)
    requires Accepts(c, ns) && forall i :: 0 <= i < |ns| ==> ns[i] < n && WellFormed(ns[i])
    ensures LoadInto(c, |ns|, EncodeAll(ns) + rest) == Loaded(WithChildren(c, ns), rest)
    decreases n, 0, |ns|
  {
    hide LoadValue, Encode, AddTo, Accepts;
    if ns == [] {
      NoChildren(rest);
      assert WithChildren(c, []) == c by { EmptyChildren(c); }
    } else {
      AddFirst(c, ns);
      EncodeAllUnfold(ns);
      Regroup(Encode(ns[0]), EncodeAll(ns[1..]), rest);
      LoadEncode(ns[0], EncodeAll(ns[1..]) + rest);
      LoadIntoEncode(n, AddTo(c, ns[0]).value, ns[1..], rest);
    }
  }

  lemma EmptyChildren(c: Node)
    ensures WithChildren(c, []) == c
  {
    match c
    case Dict(es) => assert es + [] == es;
    case Array(items) => assert items + [] == items;
    case _ =>
  }

  lemma EncodeAllUnfold(ns: seq<Node>)
    requires ns != []
    ensures EncodeAll(ns) == Encode(ns[0]) + EncodeAll(ns[1..])
  {
  }

  /** The encoding is uniquely readable: no tree's items begin another's. */
  lemma EncodePrefixFree(a: Node, b: Node, x: seq<Item>, y: seq<Item>)
    requires WellFormed(a) && WellFormed(b) && Encode(a) + x == Encode(b) + y
    ensures a == b && x == y
  {
    LoadEncode(a, x);
    LoadEncode(b, y);
  }

  /** Save, then load from the same place in the stream: the loader ends, with the tree and the rest of the stream. */
  method SaveThenLoad(value: Node, tail: seq<Item>) returns (m: Machine)
    requires WellFormed(value)
    ensures m.Machine? && m.state == S_END && m.node == value && m.s == tail
  {
    hide Turns, AllKnown, TypesRead, NoneUnfit, Handed, LoadValue;
    var saved := ObjectTypeRdbSave(value, []);
    LoadEncode(value, tail);
    assert [] + Encode(value) == Encode(value);
    var rdb := saved + tail;
    m := ObjectTypeRdbLoad(rdb, 3 * |rdb| + 1);
    UnknownExactly(rdb);
    UndefinedExactly(rdb);
    EndsExactly(rdb, 3 * |rdb| + 1);
  }
}
