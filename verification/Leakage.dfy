/** Which nodes the parser loses, exactly. */
module Leakage {
  // A scalar with a null key that ends at the top level of a document whose first value is an object
  // is refused by `Node_DictSetKeyVal`, and dropped. No other node is leaked.

  import opened Bytes
  import opened Nodes
  import opened Lexer
  import opened Parser
  import opened RoundTrip
  import opened TwoStacks
  import opened Stops
  import Ledger
  import Nesting

  // ---- a callback -------------------------------------------------------------------------

  predicate CallLeaks(inp: Input, nodes: seq<Node>, ev: Event) {
    && ev.Pop? && ev.kind != KeyFrame && OnEvent(inp, nodes, ev).Nodes?
    && var put := PopValue(inp, nodes, ev).nodes;
       |put| > 1 && put[|put| - 2].Dict? && NullKey(put[|put| - 1])
  }

  /** Such a node has one name, and it is leaked. */
  lemma CallLeaked(inp: Input, nodes: seq<Node>, b: Ledger.Book, ev: Event)
    requires Ledger.Labelled(nodes, b.trees) && Ledger.Pending(nodes)
    ensures |Ledger.OnCall(inp, nodes, b, ev).leaked| == |b.leaked| + if CallLeaks(inp, nodes, ev) then 1 else 0
  {
    hide StringBody, SpecialNode, Attach;
    if OnEvent(inp, nodes, ev).Nodes? && ev.Pop? {
      Ledger.PutLabelled(inp, nodes, b, ev);
      var put := PopValue(inp, nodes, ev).nodes;
      if |put| > 1 && ev.kind != KeyFrame {
        JoinLeaked(put, if |put| > |nodes| then Ledger.Put(b, put[|nodes|]) else b);
      }
    }
  }

  lemma JoinLeaked(nodes: seq<Node>, b: Ledger.Book)
    requires |nodes| >= 2 && Ledger.Labelled(nodes, b.trees) && Attach(nodes).Nodes?
    ensures var k := |nodes| - 1;
      |Ledger.Join(nodes, b).leaked| == |b.leaked| + if nodes[k - 1].Dict? && NullKey(nodes[k]) then 1 else 0
  {
  }

  // ---- a byte -----------------------------------------------------------------------------

  /** What a step pops first is the innermost frame. */
  lemma InnermostFirst(s: Lex, c: byte)
    requires Valid(s)
    ensures var events := Step(s, c).events;
      events != [] && events[0].Pop? ==> |s.frames| >= 2 && events[0].kind == Top(s).kind
  {
    hide Step;
    Nesting.StepCloses(s, c);
  }

  /** The stacks after a bareword's POP. */
  lemma PoppedInStep(inp: Input, s: Lex, nodes: seq<Node>, root: Kind, ev: Event)
    requires Valid(s) && WellInStep(s.frames, nodes, root) && IsContainer(root) && Top(s).kind == SpecialFrame
    requires ev.Pop? && ev.kind == SpecialFrame && OnEvent(inp, nodes, ev).Nodes?
    ensures WellInStep(s.frames[..|s.frames| - 1], OnEvent(inp, nodes, ev).nodes, root)
  {
    hide OnEvent, Under, WellFormed, PopValue;
    ScalarUnder(s.frames, nodes, root);
    PopInStep(inp, s.frames[..|s.frames| - 1], nodes, root, ev);
  }

  /** A first POP leaks a node if and only if it is a scalar with a null key behind a first object. */
  lemma FirstLeaks(inp: Input, s: Lex, nodes: seq<Node>, root: Kind, ev: Event)
    requires Valid(s) && WellInStep(s.frames, nodes, root) && IsContainer(root) && |s.frames| >= 2
    requires ev.Pop? && ev.kind == Top(s).kind
    ensures CallLeaks(inp, nodes, ev) <==>
      && root == ObjectFrame && s.frames[0].nelem >= 2 && |s.frames| == 2
      && IsNothing(inp, ev) && NodeCount(s.frames) < inp.capacity
  {
    hide StringBody, SpecialNode, NodeCount, AllWellFormed;
    InStepCount(s.frames, nodes, root);
  }

  /** A container's POP leaks nothing. */
  lemma ContainerKept(inp: Input, frames: seq<Frame>, nodes: seq<Node>, root: Kind, ev: Event)
    requires WellInStep(frames, nodes, root) && ev.Pop? && IsContainer(ev.kind)
    requires frames[|frames| - 1].kind == RootFrame || IsContainer(frames[|frames| - 1].kind)
    ensures !CallLeaks(inp, nodes, ev)
  {
    hide Under;
  }

  /** Behind the opening bracket, a byte leaks a node exactly where said, and never two. */
  lemma ByteLeaked(inp: Input, p: Parse, b: Ledger.Book, root: Kind, c: byte)
    requires Invariant(p, root) && p.Parsing? && Ledger.Kept(p, b)
    ensures |Ledger.OnCalls(inp, p.nodes, b, Step(p.lex, c).events).leaked|
         == |b.leaked| + if root == ObjectFrame && Leaks(inp, p.lex, c) then 1 else 0
  {
    hide Step, Ledger.OnCall, OnEvent, CallLeaks, WellInStep, IsNothing, NodeCount, Ledger.Labelled, Ledger.Pending;
    var s, nodes, events := p.lex, p.nodes, Step(p.lex, c).events;
    EventsShape(s, c);
    if events != [] {
      var ev := events[0];
      CallLeaked(inp, nodes, b, ev);
      Ledger.CallLabelled(inp, nodes, b, ev);
      if ev.Push? {
        PushKeeps(inp, nodes, ev);
      } else {
        InnermostFirst(s, c);
        FirstLeaks(inp, s, nodes, root, ev);
      }
      if |events| == 2 && OnEvent(inp, nodes, ev).Nodes? {
        var ns, b1 := OnEvent(inp, nodes, ev).nodes, Ledger.OnCall(inp, nodes, b, ev);
        PoppedInStep(inp, s, nodes, root, ev);
        ContainerKept(inp, s.frames[..|s.frames| - 1], ns, root, events[1]);
        CallLeaked(inp, ns, b1, events[1]);
        OneMoreCall(inp, ns, b1, events[1]);
        assert events[1..] == [events[1]];
      }
    }
  }

  lemma PushKeeps(inp: Input, nodes: seq<Node>, ev: Event)
    requires ev.Push?
    ensures !CallLeaks(inp, nodes, ev)
  {
  }

  lemma OneMoreCall(inp: Input, nodes: seq<Node>, b: Ledger.Book, ev: Event)
    requires Ledger.Labelled(nodes, b.trees) && Ledger.Pending(nodes)
    ensures Ledger.OnCalls(inp, nodes, b, [ev]) == Ledger.OnCall(inp, nodes, b, ev)
  {
    hide Ledger.OnCall, OnEvent;
    Ledger.CallLabelled(inp, nodes, b, ev);
  }

  // ---- whole texts ------------------------------------------------------------------------

  /** Nothing is leaked up to the opening bracket. */
  lemma OpeningKeeps(inp: Input, column: seq<nat>, b: Ledger.Book, k: nat, c: byte)
    requires |column| >= 2 && (IsWhitespace(c) || c == LBRACE || c == LBRACKET)
    requires Ledger.Kept(Parsing(Start(column).(pos := k), []), b)
    ensures var s := Start(column).(pos := k);
      && !Leaks(inp, s, c)
      && Ledger.OnCalls(inp, [], b, Step(s, c).events).leaked == b.leaked
  {
    var s := Start(column).(pos := k);
    if IsWhitespace(c) {
      BlankStep(s, c);
    } else {
      var root := if c == LBRACE then ObjectFrame else ListFrame;
      hide Step;
      FirstStep(s, c, root);
      OneMoreCall(inp, [], b, Push(root, NoSpecial, s.pos));
    }
  }

  /** The bytes before the k-th at which a node is leaked. */
  ghost function LeaksBefore(text: bytes, column: seq<nat>, strtod: FloatReader, k: nat): set<nat>
    requires |column| >= 2
  {
    set j: nat | j < k && LeaksAt(text, column, strtod, j)
  }

  lemma {:induction false} PrefixLeaked(text: bytes, column: seq<nat>, strtod: FloatReader, k: nat)
    requires |column| >= 2 && k <= |Buffer(text)|
    ensures var buf := Buffer(text);
      |Ledger.OnBytes(Input(buf, |column|, strtod), Parsing(Start(column), []), Ledger.EMPTY, buf[..k]).leaked|
      == |LeaksBefore(text, column, strtod, k)|
  {
    hide Step, Leaks, Invariant, Start, ParseBytes, SkipWhitespace, Ledger.OnBytes, Ledger.OnCalls, Ledger.Kept, Valid;
    hide RootKind, ParseByte;
    var buf := Buffer(text);
    var inp, p0 := Input(buf, |column|, strtod), Parsing(Start(column), []);
    Ledger.EmptyKept(p0);
    if k == 0 {
      Ledger.NoBytes(inp, p0, Ledger.EMPTY);
      assert LeaksBefore(text, column, strtod, k) == {};
    } else {
      PrefixLeaked(text, column, strtod, k - 1);
      var a, c := buf[..k - 1], buf[k - 1];
      assert buf[..k] == a + [c];
      Ledger.OneByteMore(inp, p0, Ledger.EMPTY, a, c);
      var p, b := ParseBytes(inp, p0, a), Ledger.OnBytes(inp, p0, Ledger.EMPTY, a);
      BufferStarts(text);
      PrefixState(inp, column, buf, k - 1);
      if k - 1 <= SkipWhitespace(buf) {
        OpeningByte(buf, k - 1);
        OpeningKeeps(inp, column, b, k - 1, c);
      } else if p.Parsing? {
        ByteLeaked(inp, p, b, RootKind(buf), c);
      }
      OneMoreLeak(text, column, strtod, k - 1);
    }
  }

  lemma OpeningByte(buf: bytes, k: nat)
    requires k < |buf| && k <= SkipWhitespace(buf)
    requires var off := SkipWhitespace(buf);
      off < |buf| ==> buf[off] == LBRACE || buf[off] == LBRACKET
    ensures IsWhitespace(buf[k]) || buf[k] == LBRACE || buf[k] == LBRACKET
  {
  }

  lemma OneMoreLeak(text: bytes, column: seq<nat>, strtod: FloatReader, k: nat)
    requires |column| >= 2
    ensures |LeaksBefore(text, column, strtod, k + 1)|
         == |LeaksBefore(text, column, strtod, k)| + if LeaksAt(text, column, strtod, k) then 1 else 0
  {
    hide LeaksAt;
    var before := LeaksBefore(text, column, strtod, k);
    assert LeaksBefore(text, column, strtod, k + 1)
        == before + if LeaksAt(text, column, strtod, k) then {k} else {};
  }

  /**
   For every text and every context: as many nodes are leaked as there are bytes, each after a prefix
   that parses, that complete false or zero at the top level behind a first object.
   */
  lemma LeakedExactly(text: bytes, column: seq<nat>, strtod: FloatReader)
    requires |column| >= 2
    ensures |Ledger.BookOf(text, column, strtod).leaked| == |LeaksBefore(text, column, strtod, |Buffer(text)|)|
    ensures Ledger.BookOf(text, column, strtod).leaked == [] <==> !exists k: nat :: LeaksAt(text, column, strtod, k)
  {
    hide Ledger.OnBytes, Leaks, ParseBytes;
    var buf := Buffer(text);
    var all := LeaksBefore(text, column, strtod, |buf|);
    assert buf[..|buf|] == buf;
    PrefixLeaked(text, column, strtod, |buf|);
    if k: nat :| LeaksAt(text, column, strtod, k) {
      assert k in all;
    } else {
      assert all == {};
    }
  }

  /** So {},0 and a space is accepted as the empty object, and its zero is leaked. */
  lemma ZeroLeaked(strtod: FloatReader)
    ensures CreateNode(OBJECT_THEN_ZERO, [0, 0], strtod) == Ok(Dict([]))
    ensures Ledger.BookOf(OBJECT_THEN_ZERO, [0, 0], strtod).leaked != []
  {
    hide CreateNode, LeaksAt;
    ObjectThenZero(strtod);
    LeakedExactly(OBJECT_THEN_ZERO, [0, 0], strtod);
  }
}
