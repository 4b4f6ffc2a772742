/** Every node the parser allocates is kept, freed or lost, once. */
module Ledger {
  // The nodes get names in the order in which they are made. For each tree on the node stack the
  // ledger has the names of its nodes, in preorder, and it has the names of the nodes freed and of
  // those leaked: dropped without being freed.

  import opened Bytes
  import opened Nodes
  import opened Lexer
  import opened Parser
  import opened RoundTrip
  import opened TwoStacks

  type Name = nat

  datatype Book = Book(trees: seq<seq<Name>>, freed: seq<Name>, leaked: seq<Name>, made: nat)

  const EMPTY := Book([], [], [], 0)

  /** The names given out so far. */
  function Names(made: nat): seq<Name> { seq(made, i => i) }

  function Flat(trees: seq<seq<Name>>): seq<Name> {
    if trees == [] then [] else trees[0] + Flat(trees[1..])
  }

  /** Every name given out is in one place: on the stack, or among those freed or leaked. */
  ghost predicate Accounted(b: Book) {
    multiset(Flat(b.trees)) + multiset(b.freed) + multiset(b.leaked) == multiset(Names(b.made))
  }

  /** Each tree on the stack has as many names as nodes. */
  predicate Labelled(nodes: seq<Node>, trees: seq<seq<Name>>) {
    |trees| == |nodes| && forall i :: 0 <= i < |nodes| ==> |trees[i]| == Size(nodes[i])
  }

  /** A pair on the stack has no value yet. */
  predicate Pending(nodes: seq<Node>) { forall i :: 0 <= i < |nodes| ==> nodes[i].KeyVal? ==> nodes[i].val.Null? }

  // ---- what the callbacks do --------------------------------------------------------------

  /** A node goes on the stack; the null value is a null pointer. */
  function Put(b: Book, n: Node): Book {
    if n.Null? then b.(trees := b.trees + [[]]) else b.(trees := b.trees + [[b.made]], made := b.made + 1)
  }

  /** `Node_DictSetKeyVal` on the dictionary on top: the entry it replaces is freed. */
  function Enter(b: Book, es: seq<Node>, key: bytes, entry: seq<Name>): Book
    requires AllKeyVals(es) && b.trees != [] && |b.trees[|b.trees| - 1]| == 1 + TotalSize(es)
  {
    var k, i := |b.trees| - 1, Find(es, key);
    var names := b.trees[k];
    if i == |es| then b.(trees := b.trees[k := names + entry])
    else
      EntrySplit(es, i);
      var lo := 1 + TotalSize(es[..i]);
      var hi := lo + Size(es[i]);
      b.(trees := b.trees[k := names[..lo] + entry + names[hi..]], freed := b.freed + names[lo..hi])
  }

  lemma EntrySplit(es: seq<Node>, i: nat)
    requires i < |es|
    ensures TotalSize(es) == TotalSize(es[..i]) + Size(es[i]) + TotalSize(es[i + 1..])
  {
    assert es == es[..i] + ([es[i]] + es[i + 1..]);
    TotalSizeConcat(es[..i], [es[i]] + es[i + 1..]);
    assert ([es[i]] + es[i + 1..])[1..] == es[i + 1..];
  }

  /** The tree on top goes into the one below it, or nowhere if it is a scalar with a null key for a dictionary. */
  function Join(nodes: seq<Node>, b: Book): Book
    requires |nodes| >= 2 && Labelled(nodes, b.trees) && Attach(nodes).Nodes?
  {
    var k := |nodes| - 1;
    match nodes[k - 1]
    case Array(_) => b.(trees := b.trees[..k - 1] + [b.trees[k - 1] + b.trees[k]])
    case Dict(es) =>
      if NullKey(nodes[k]) then b.(trees := b.trees[..k], leaked := b.leaked + b.trees[k])
      else Enter(b.(trees := b.trees[..k]), es, nodes[k].key, b.trees[k])
    case KeyVal(key, _) =>
      Enter(b.(trees := b.trees[..k - 1]), nodes[k - 2].entries, key, b.trees[k - 1] + b.trees[k])
    case _ => b
  }

  /** A callback; one that stops with an error has made nothing. */
  function OnCall(inp: Input, nodes: seq<Node>, b: Book, ev: Event): Book
    requires Labelled(nodes, b.trees)
  {
    if OnEvent(inp, nodes, ev).Stopped? then b
    else if ev.Push? then
      if IsContainer(ev.kind) then Put(b, Dict([])) else b
    else
      var put := PopValue(inp, nodes, ev).nodes;
      var b1 := if |put| > |nodes| then Put(b, put[|nodes|]) else b;
      PutLabelled(inp, nodes, b, ev);
      if |put| > 1 && ev.kind != KeyFrame then Join(put, b1) else b1
  }

  lemma PutLabelled(inp: Input, nodes: seq<Node>, b: Book, ev: Event)
    requires Labelled(nodes, b.trees) && ev.Pop? && PopValue(inp, nodes, ev).Nodes?
    ensures var put := PopValue(inp, nodes, ev).nodes;
      && (put == nodes || put == nodes + [put[|nodes|]])
      && Labelled(put, if |put| > |nodes| then Put(b, put[|nodes|]).trees else b.trees)
      && (Pending(nodes) ==> Pending(put))
  {
    hide StringBody, SpecialNode, Put, Size;
    var put := PopValue(inp, nodes, ev).nodes;
    if IsStringy(ev.kind) || ev.kind == SpecialFrame {
      var n := put[|nodes|];
      if ev.kind == SpecialFrame { BarewordSize(inp, ev); }
      PutOne(nodes, b, n);
    }
  }

  lemma PutOne(nodes: seq<Node>, b: Book, n: Node)
    requires Labelled(nodes, b.trees) && (n.Text? || (n.KeyVal? && n.val.Null?) || Size(n) == if n.Null? then 0 else 1)
    ensures Labelled(nodes + [n], Put(b, n).trees)
  {
  }

  lemma BarewordSize(inp: Input, ev: Event)
    requires ev.Pop? && SpecialNode(inp, ev).Ok?
    ensures var n := SpecialNode(inp, ev).value;
      !n.KeyVal? && Size(n) == if n.Null? then 0 else 1
  {
  }

  function OnCalls(inp: Input, nodes: seq<Node>, b: Book, events: seq<Event>): Book
    requires Labelled(nodes, b.trees) && Pending(nodes)
    decreases |events|
  {
    if events == [] then b
    else
      var b1 := OnCall(inp, nodes, b, events[0]);
      CallLabelled(inp, nodes, b, events[0]);
      match OnEvent(inp, nodes, events[0])
      case Stopped(_) => b1
      case Nodes(ns) => OnCalls(inp, ns, b1, events[1..])
  }

  // ---- the books balance ------------------------------------------------------------------

  lemma {:induction false} FlatConcat(a: seq<seq<Name>>, b: seq<seq<Name>>)
    ensures Flat(a + b) == Flat(a) + Flat(b)
    decreases |a|
  {
    if a == [] {
      assert a + b == b;
    } else {
      assert (a + b)[1..] == a[1..] + b;
      FlatConcat(a[1..], b);
    }
  }

  lemma FlatSnoc(a: seq<seq<Name>>, x: seq<Name>)
    ensures Flat(a + [x]) == Flat(a) + x
  {
    FlatConcat(a, [x]);
    assert [x][1..] == [] && Flat([x]) == x + Flat([]);
  }

  lemma NamesSnoc(made: nat)
    ensures Names(made + 1) == Names(made) + [made]
  {
  }

  lemma PutAccounted(b: Book, n: Node)
    requires Accounted(b)
    ensures Accounted(Put(b, n))
  {
    hide Flat, Names;
    NamesSnoc(b.made);
    FlatSnoc(b.trees, []);
    FlatSnoc(b.trees, [b.made]);
  }

  /** Setting an entry moves its names into the dictionary's, and those it replaces to the freed. */
  lemma EnterAccounted(b: Book, es: seq<Node>, kv: Node, entry: seq<Name>)
    requires AllKeyVals(es) && b.trees != [] && |b.trees[|b.trees| - 1]| == 1 + TotalSize(es)
    requires kv.KeyVal? && |entry| == Size(kv)
    ensures var r, k := Enter(b, es, kv.key, entry), |b.trees| - 1;
      && multiset(Flat(r.trees)) + multiset(r.freed) == multiset(Flat(b.trees)) + multiset(entry) + multiset(b.freed)
      && r.made == b.made && r.leaked == b.leaked && |r.trees| == |b.trees| && r.trees[..k] == b.trees[..k]
      && |r.trees[k]| == 1 + TotalSize(SetKeyVal(es, kv))
  {
    hide Flat, Size, TotalSize, SetKeyVal, Enter;
    var top, gone := TopEntered(b, es, kv, entry);
    TopRenamed(b.trees, top, gone, entry, b.freed);
  }

  /** The entry's names come into the top tree, and those of the entry it replaces go. */
  lemma TopEntered(b: Book, es: seq<Node>, kv: Node, entry: seq<Name>) returns (top: seq<Name>, gone: seq<Name>)
    requires AllKeyVals(es) && b.trees != [] && |b.trees[|b.trees| - 1]| == 1 + TotalSize(es)
    requires kv.KeyVal? && |entry| == Size(kv)
    ensures Enter(b, es, kv.key, entry) == b.(trees := b.trees[|b.trees| - 1 := top], freed := b.freed + gone)
    ensures multiset(top) + multiset(gone) == multiset(b.trees[|b.trees| - 1]) + multiset(entry)
    ensures |top| == 1 + TotalSize(SetKeyVal(es, kv))
  {
    hide Size, TotalSize, Find;
    var i, names := Find(es, kv.key), b.trees[|b.trees| - 1];
    if i < |es| {
      EntryReplaced(es, kv, i, names, entry);
      var lo, hi := 1 + TotalSize(es[..i]), 1 + TotalSize(es[..i]) + Size(es[i]);
      top, gone := names[..lo] + entry + names[hi..], names[lo..hi];
    } else {
      TotalSizeSnoc(es, kv);
      top, gone := names + entry, [];
      assert b.freed + [] == b.freed;
    }
  }

  /** If the names in the top tree change, and those gone are freed, all are accounted for. */
  lemma TopRenamed(trees: seq<seq<Name>>, top: seq<Name>, gone: seq<Name>, come: seq<Name>, freed: seq<Name>)
    requires trees != []
    requires multiset(top) + multiset(gone) == multiset(trees[|trees| - 1]) + multiset(come)
    ensures multiset(Flat(trees[|trees| - 1 := top])) + multiset(freed + gone)
         == multiset(Flat(trees)) + multiset(come) + multiset(freed)
  {
    hide Flat;
    var k := |trees| - 1;
    assert trees == trees[..k] + [trees[k]] && trees[k := top] == trees[..k] + [top];
    FlatSnoc(trees[..k], trees[k]);
    FlatSnoc(trees[..k], top);
    Regroup(multiset(Flat(trees[..k])), multiset(top), multiset(freed), multiset(gone), multiset(trees[k]),
            multiset(come));
  }

  lemma Regroup(f: multiset<Name>, x: multiset<Name>, d: multiset<Name>, g: multiset<Name>, y: multiset<Name>,
                c: multiset<Name>)
    requires x + g == y + c
    ensures (f + x) + (d + g) == (f + y) + c + d
  {
    assert (f + x) + (d + g) == f + d + (x + g);
  }

  /** The names of one entry go, others take their place. */
  lemma EntryReplaced(es: seq<Node>, kv: Node, i: nat, names: seq<Name>, entry: seq<Name>)
    requires i < |es| && |names| == 1 + TotalSize(es) && |entry| == Size(kv)
    ensures var lo := 1 + TotalSize(es[..i]);
      var hi := lo + Size(es[i]);
      && hi <= |names|
      && multiset(names[..lo] + entry + names[hi..]) + multiset(names[lo..hi]) == multiset(names) + multiset(entry)
      && |names[..lo] + entry + names[hi..]| == 1 + TotalSize(es[i := kv])
  {
    hide Size, TotalSize;
    EntrySplit(es, i);
    var lo, hi := 1 + TotalSize(es[..i]), 1 + TotalSize(es[..i]) + Size(es[i]);
    MiddleReplaced(names, lo, hi, entry);
    TotalSizeUpdate(es, i, kv);
  }

  lemma MiddleReplaced(names: seq<Name>, lo: nat, hi: nat, entry: seq<Name>)
    requires lo <= hi <= |names|
    ensures multiset(names[..lo] + entry + names[hi..]) + multiset(names[lo..hi]) == multiset(names) + multiset(entry)
    ensures |names[..lo] + entry + names[hi..]| == |names| - (hi - lo) + |entry|
  {
    assert names == names[..lo] + names[lo..hi] + names[hi..];
  }

  lemma TotalSizeSnoc(a: seq<Node>, n: Node)
    ensures TotalSize(a + [n]) == TotalSize(a) + Size(n)
  {
    TotalSizeConcat(a, [n]);
    assert TotalSize([n]) == Size(n) + TotalSize([]);
  }

  lemma FlatTop(trees: seq<seq<Name>>)
    requires trees != []
    ensures Flat(trees) == Flat(trees[..|trees| - 1]) + trees[|trees| - 1]
  {
    var k := |trees| - 1;
    assert trees == trees[..k] + [trees[k]];
    FlatSnoc(trees[..k], trees[k]);
  }

  /** Setting a finished tree in its place loses no name and doubles none. */
  lemma JoinAccounted(nodes: seq<Node>, b: Book)
    requires |nodes| >= 2 && Labelled(nodes, b.trees) && Pending(nodes) && Attach(nodes).Nodes? && Accounted(b)
    ensures Accounted(Join(nodes, b)) && Labelled(Attach(nodes).nodes, Join(nodes, b).trees)
    ensures Pending(Attach(nodes).nodes)
  {
    hide Flat, Names, Enter, Attach;
    var k := |nodes| - 1;
    JoinLabelled(nodes, b);
    FlatTop(b.trees);
    FlatTop(b.trees[..k]);
    assert b.trees[..k][..k - 1] == b.trees[..k - 1];
    match nodes[k - 1]
    case Array(items) => FlatSnoc(b.trees[..k - 1], b.trees[k - 1] + b.trees[k]);
    case Dict(es) =>
      if !NullKey(nodes[k]) {
        InDict(nodes);
        EnterAccounted(b.(trees := b.trees[..k]), es, nodes[k], b.trees[k]);
      }
    case KeyVal(key, v) =>
      InPair(nodes);
      EnterAccounted(b.(trees := b.trees[..k - 1]), nodes[k - 2].entries, KeyVal(key, nodes[k]),
          b.trees[k - 1] + b.trees[k]);
    case _ =>
  }

  lemma InDict(nodes: seq<Node>)
    requires |nodes| >= 2 && nodes[|nodes| - 2].Dict? && Attach(nodes).Nodes? && !NullKey(nodes[|nodes| - 1])
    ensures var k := |nodes| - 1;
      && nodes[k].KeyVal? && AllKeyVals(nodes[k - 1].entries)
      && Attach(nodes).nodes == nodes[..k - 1] + [Dict(SetKeyVal(nodes[k - 1].entries, nodes[k]))]
  {
    hide SetKeyVal;
    var k := |nodes| - 1;
    assert nodes[..k][k - 1] == nodes[k - 1];
  }

  lemma Dropped(nodes: seq<Node>)
    requires |nodes| >= 2 && nodes[|nodes| - 2].Dict? && NullKey(nodes[|nodes| - 1])
    ensures Attach(nodes) == Nodes(nodes[..|nodes| - 1])
  {
  }

  lemma InPair(nodes: seq<Node>)
    requires |nodes| >= 2 && nodes[|nodes| - 2].KeyVal? && Attach(nodes).Nodes? && Pending(nodes)
    ensures var k := |nodes| - 1;
      && k >= 2 && nodes[k - 2].Dict? && AllKeyVals(nodes[k - 2].entries) && nodes[k - 1].val.Null?
      && Size(KeyVal(nodes[k - 1].key, nodes[k])) == Size(nodes[k - 1]) + Size(nodes[k])
      && Attach(nodes).nodes
        == nodes[..k - 2] + [Dict(SetKeyVal(nodes[k - 2].entries, KeyVal(nodes[k - 1].key, nodes[k])))]
  {
    hide SetKeyVal;
    var k := |nodes| - 1;
    assert nodes[..k][..k - 1] == nodes[..k - 1];
  }

  lemma CallAccounted(inp: Input, nodes: seq<Node>, b: Book, ev: Event)
    requires Labelled(nodes, b.trees) && Pending(nodes) && Accounted(b)
    ensures var built := OnEvent(inp, nodes, ev);
      && Accounted(OnCall(inp, nodes, b, ev))
      && (built.Nodes? ==> Labelled(built.nodes, OnCall(inp, nodes, b, ev).trees) && Pending(built.nodes))
  {
    hide Accounted, Join, Attach, StringBody, SpecialNode;
    var built := OnEvent(inp, nodes, ev);
    if built.Nodes? {
      if ev.Push? {
        PutAccounted(b, Dict([]));
      } else {
        var put := PopValue(inp, nodes, ev).nodes;
        PutLabelled(inp, nodes, b, ev);
        if |put| > |nodes| { PutAccounted(b, put[|nodes|]); }
        if |put| > 1 && ev.kind != KeyFrame {
          JoinAccounted(put, if |put| > |nodes| then Put(b, put[|nodes|]) else b);
        }
      }
    }
  }

  lemma CallLabelled(inp: Input, nodes: seq<Node>, b: Book, ev: Event)
    requires Labelled(nodes, b.trees) && Pending(nodes)
    ensures var built := OnEvent(inp, nodes, ev);
      built.Nodes? ==> Labelled(built.nodes, OnCall(inp, nodes, b, ev).trees) && Pending(built.nodes)
  {
    hide Join, Attach, StringBody, SpecialNode;
    var built := OnEvent(inp, nodes, ev);
    if built.Nodes? && ev.Pop? {
      var put := PopValue(inp, nodes, ev).nodes;
      PutLabelled(inp, nodes, b, ev);
      if |put| > 1 && ev.kind != KeyFrame {
        JoinLabelled(put, if |put| > |nodes| then Put(b, put[|nodes|]) else b);
      }
    }
  }

  lemma JoinLabelled(nodes: seq<Node>, b: Book)
    requires |nodes| >= 2 && Labelled(nodes, b.trees) && Pending(nodes) && Attach(nodes).Nodes?
    ensures Labelled(Attach(nodes).nodes, Join(nodes, b).trees) && Pending(Attach(nodes).nodes)
  {
    hide SetKeyVal, Enter, Attach, Flat, TotalSize;
    var k := |nodes| - 1;
    match nodes[k - 1]
    case Array(items) =>
      InArray(nodes);
      TotalSizeSnoc(items, nodes[k]);
    case Dict(es) =>
      if NullKey(nodes[k]) {
        Dropped(nodes);
      } else {
        InDict(nodes);
        EnterAccounted(b.(trees := b.trees[..k]), es, nodes[k], b.trees[k]);
      }
    case KeyVal(key, _) =>
      InPair(nodes);
      EnterAccounted(b.(trees := b.trees[..k - 1]), nodes[k - 2].entries, KeyVal(key, nodes[k]),
          b.trees[k - 1] + b.trees[k]);
    case _ => Elsewhere(nodes);
  }

  lemma InArray(nodes: seq<Node>)
    requires |nodes| >= 2 && nodes[|nodes| - 2].Array?
    ensures var k := |nodes| - 1;
      Attach(nodes) == Nodes(nodes[..k - 1] + [Array(nodes[k - 1].items + [nodes[k]])])
  {
  }

  lemma Elsewhere(nodes: seq<Node>)
    requires |nodes| >= 2 && Attach(nodes).Nodes?
    requires var n := nodes[|nodes| - 2]; !n.Array? && !n.Dict? && !n.KeyVal?
    ensures Attach(nodes) == Nodes(nodes)
  {
  }

  lemma {:induction false} CallsAccounted(inp: Input, nodes: seq<Node>, b: Book, events: seq<Event>)
    requires Labelled(nodes, b.trees) && Pending(nodes) && Accounted(b)
    ensures var built, r := OnEvents(inp, nodes, events), OnCalls(inp, nodes, b, events);
      && Accounted(r) && (built.Nodes? ==> Labelled(built.nodes, r.trees) && Pending(built.nodes))
    decreases |events|
  {
    hide Accounted, OnCall, OnEvent;
    if events != [] {
      CallAccounted(inp, nodes, b, events[0]);
      match OnEvent(inp, nodes, events[0])
      case Stopped(_) =>
      case Nodes(ns) => CallsAccounted(inp, ns, OnCall(inp, nodes, b, events[0]), events[1..]);
    }
  }

  // ---- whole texts ------------------------------------------------------------------------

  /** A parse and its book belong together. */
  predicate Kept(p: Parse, b: Book) { p.Parsing? ==> Valid(p.lex) && Labelled(p.nodes, b.trees) && Pending(p.nodes) }

  /** The book after a buffer; a parse that stops leaves it as it was at the stop. */
  function OnBytes(inp: Input, p: Parse, b: Book, buf: bytes): Book
    requires Kept(p, b)
    decreases |buf|
  {
    if buf == [] || !p.Parsing? then b
    else
      var b1 := OnCalls(inp, p.nodes, b, Step(p.lex, buf[0]).events);
      ByteKept(inp, p, b, buf[0]);
      OnBytes(inp, ParseByte(inp, p, buf[0]), b1, buf[1..])
  }

  lemma ByteKept(inp: Input, p: Parse, b: Book, c: byte)
    requires Kept(p, b) && p.Parsing?
    ensures Kept(ParseByte(inp, p, c), OnCalls(inp, p.nodes, b, Step(p.lex, c).events))
  {
    hide Step, OnEvents, OnCalls, StopColumn;
    CallsLabelled(inp, p.nodes, b, Step(p.lex, c).events);
  }

  lemma {:induction false} CallsLabelled(inp: Input, nodes: seq<Node>, b: Book, events: seq<Event>)
    requires Labelled(nodes, b.trees) && Pending(nodes)
    ensures var built, r := OnEvents(inp, nodes, events), OnCalls(inp, nodes, b, events);
      built.Nodes? ==> Labelled(built.nodes, r.trees) && Pending(built.nodes)
    decreases |events|
  {
    hide OnCall, OnEvent;
    if events != [] {
      CallLabelled(inp, nodes, b, events[0]);
      match OnEvent(inp, nodes, events[0])
      case Stopped(_) =>
      case Nodes(ns) => CallsLabelled(inp, ns, OnCall(inp, nodes, b, events[0]), events[1..]);
    }
  }

  lemma {:induction false} BytesAccounted(inp: Input, p: Parse, b: Book, buf: bytes)
    requires Kept(p, b) && Accounted(b)
    ensures Accounted(OnBytes(inp, p, b, buf)) && Kept(ParseBytes(inp, p, buf), OnBytes(inp, p, b, buf))
    decreases |buf|
  {
    hide Accounted, Step, ParseByte, OnCalls, Labelled, Pending;
    if buf != [] {
      if p.Parsing? {
        var b1 := OnCalls(inp, p.nodes, b, Step(p.lex, buf[0]).events);
        CallsAccounted(inp, p.nodes, b, Step(p.lex, buf[0]).events);
        ByteKept(inp, p, b, buf[0]);
        BytesAccounted(inp, ParseByte(inp, p, buf[0]), b1, buf[1..]);
      } else {
        ParseStopped(inp, p, buf);
      }
    }
  }

  lemma EmptyKept(p: Parse)
    requires p.Parsing? && Valid(p.lex) && p.nodes == []
    ensures Kept(p, EMPTY)
  {
  }

  lemma NoBytes(inp: Input, p: Parse, b: Book)
    requires Kept(p, b)
    ensures OnBytes(inp, p, b, []) == b
  {
  }

  /** The book after one byte more. */
  lemma {:induction false} OneByteMore(inp: Input, p: Parse, b: Book, a: bytes, c: byte)
    requires Kept(p, b)
    ensures var q, r := ParseBytes(inp, p, a), OnBytes(inp, p, b, a);
      && Kept(q, r)
      && OnBytes(inp, p, b, a + [c]) == if q.Parsing? then OnCalls(inp, q.nodes, r, Step(q.lex, c).events) else r
    decreases |a|
  {
    hide Step, ParseByte, OnCalls, Labelled, Pending;
    if !p.Parsing? {
      ParseStopped(inp, p, a);
    } else if a == [] {
      assert a + [c] == [c] && [c][1..] == [];
      ByteKept(inp, p, b, c);
      NoBytes(inp, ParseByte(inp, p, c), OnCalls(inp, p.nodes, b, Step(p.lex, c).events));
    } else {
      assert (a + [c])[0] == a[0] && (a + [c])[1..] == a[1..] + [c];
      ByteKept(inp, p, b, a[0]);
      OneByteMore(inp, ParseByte(inp, p, a[0]), OnCalls(inp, p.nodes, b, Step(p.lex, a[0]).events), a[1..], c);
    }
  }

  /** The book of a document. */
  function BookOf(text: bytes, column: seq<nat>, strtod: FloatReader): Book
    requires |column| >= 2
  {
    var buf := Buffer(text);
    OnBytes(Input(buf, |column|, strtod), Parsing(Start(column), []), EMPTY, buf)
  }

  /** What `CreateNodeFromJSON` hands out, and what it has freed when it returns: on an error, all of the stack. */
  datatype Settlement = Settlement(kept: seq<Name>, freed: seq<Name>)

  function Settle(b: Book, r: Result<Node, ParseError>, scalar: bool): Settlement {
    match r
    case Err(_) => Settlement([], b.freed + Flat(b.trees))
    case Ok(v) =>
      if b.trees == [] then Settlement([], b.freed)
      else if !scalar then Settlement(b.trees[|b.trees| - 1], b.freed)
      else
        // the list around a scalar goes, without its first element
        var names := b.trees[0];
        if 1 + Size(v) <= |names| then Settlement(names[1..1 + Size(v)], b.freed + names[..1] + names[1 + Size(v)..])
        else Settlement([], b.freed)
  }

  lemma {:induction false} NamesOnce(made: nat)
    ensures forall id: Name :: multiset(Names(made))[id] == if id < made then 1 else 0
  {
    if made > 0 {
      NamesSnoc(made - 1);
      NamesOnce(made - 1);
    } else {
      assert Names(0) == [];
    }
  }

  /** Handing out and freeing loses no name of a book with one tree, and doubles none. */
  lemma SettledNames(b: Book, r: Result<Node, ParseError>, scalar: bool)
    requires r.Ok? ==> |b.trees| == 1 && Fits(r.value, scalar, |b.trees[0]|)
    ensures var s := Settle(b, r, scalar);
      && multiset(s.kept) + multiset(s.freed) == multiset(Flat(b.trees)) + multiset(b.freed)
      && (r.Ok? ==> |s.kept| == Size(r.value))
  {
    hide Size, Flat;
    if r.Ok? {
      OneTree(b.trees);
      var names := b.trees[0];
      if scalar && names != [] {
        var k := 1 + Size(r.value);
        assert names == names[..1] + names[1..k] + names[k..];
      }
    }
  }

  /** The value is the tree, or within the list around it. */
  predicate Fits(v: Node, scalar: bool, names: nat) {
    if scalar then 1 + Size(v) <= names || (names == 0 && Size(v) == 0) else Size(v) == names
  }

  lemma OneTree(trees: seq<seq<Name>>)
    requires |trees| == 1
    ensures Flat(trees) == trees[0]
  {
    assert trees[1..] == [] && Flat(trees) == trees[0] + Flat([]);
  }

  lemma ConcludedFits(p: Parse, scalar: bool)
    requires (p.Parsing? ==> Valid(p.lex)) && Conclude(p, scalar).Ok? && p.Parsing? && |p.nodes| == 1
    ensures Fits(Conclude(p, scalar).value, scalar, Size(p.nodes[0]))
  {
    var n := p.nodes[0];
    if scalar && n.Array? && n.items != [] {
      assert TotalSize(n.items) == Size(n.items[0]) + TotalSize(n.items[1..]);
    }
  }

  /**
   For every text that the model follows to its end, accepted or not, and every context: each node
   made is in the result, freed or leaked, and that once; and the result has no other nodes.
   */
  lemma EachNodeOnce(text: bytes, column: seq<nat>, strtod: FloatReader)
    requires |column| >= 2
    ensures var r, b := CreateNode(text, column, strtod), BookOf(text, column, strtod);
      var s := Settle(b, r, IsScalarText(text));
      (r.Ok? || !r.error.Undefined?) ==>
        && (forall id: Name ::
              multiset(s.kept)[id] + multiset(s.freed)[id] + multiset(b.leaked)[id] == if id < b.made then 1 else 0)
        && (r.Ok? ==> |s.kept| == Size(r.value))
  {
    hide ParseBytes, OnBytes, Step, Buffer, IsScalarText, Flat, Size, Conclude, Valid, Start, Settle, Fits;
    var buf, p0 := Buffer(text), Parsing(Start(column), []);
    var inp, scalar := Input(buf, |column|, strtod), IsScalarText(text);
    var r, b, p := CreateNode(text, column, strtod), BookOf(text, column, strtod), ParseText(text, column, strtod);
    EmptyBook();
    BytesAccounted(inp, p0, EMPTY, buf);
    NamesOnce(b.made);
    if r.Ok? {
      ResultWellFormed(text, column, strtod);
      ConcludedFits(p, scalar);
    }
    SettledNames(b, r, scalar);
    var s := Settle(b, r, scalar);
    assert multiset(s.kept) + multiset(s.freed) + multiset(b.leaked) == multiset(Names(b.made));
    forall id: Name
      ensures multiset(s.kept)[id] + multiset(s.freed)[id] + multiset(b.leaked)[id] == multiset(Names(b.made))[id]
    {
      assert (multiset(s.kept) + multiset(s.freed) + multiset(b.leaked))[id]
          == multiset(s.kept)[id] + multiset(s.freed)[id] + multiset(b.leaked)[id];
    }
  }

  lemma EmptyBook()
    ensures Accounted(EMPTY) && Labelled([], EMPTY.trees) && Pending([])
  {
    assert Names(0) == [];
  }
}
