/** The lexer's and the parser's stacks stay in step. */
module TwoStacks {
  // That holds on every text. The proof follows the lexer's own case analysis; a byte makes at
  // most two callbacks.

  import opened Bytes
  import opened Nodes
  import opened Lexer
  import opened Parser
  import opened RoundTrip

  predicate IsA(n: Node, kind: Kind) {
    if kind == ObjectFrame then n.Dict? else n.Array?
  }

  /**
   The nodes below a child frame of this kind. One node for each open container, and above
   an object's node its pending key, unless the child is the key itself. At the root there
   is nothing while the first value is open, and that value's container ever after.
   */
  predicate Under(frames: seq<Frame>, nodes: seq<Node>, child: Kind, root: Kind)
    decreases |frames|
  {
    && frames != []
    && var f, below, k := frames[|frames| - 1], frames[..|frames| - 1], |nodes| - 1;
       match f.kind
       case RootFrame =>
         if f.nelem >= 2 then k == 0 && IsA(nodes[0], root) && child != KeyFrame
         else f.nelem == 1 && nodes == [] && child == root
       case ListFrame =>
         child != KeyFrame && k >= 0 && nodes[k].Array? && Under(below, nodes[..k], ListFrame, root)
       case ObjectFrame =>
         if child == KeyFrame then
           f.nelem % 2 == 1 && k >= 0 && nodes[k].Dict? && Under(below, nodes[..k], ObjectFrame, root)
         else
           f.nelem % 2 == 0 && k >= 1 && nodes[k].KeyVal? && nodes[k].val.Null? && nodes[k - 1].Dict?
           && Under(below, nodes[..k - 1], ObjectFrame, root)
       case _ => false
  }

  /** The nodes for a whole stack of frames: an object on top that awaits a value has its key pending. */
  predicate InStep(frames: seq<Frame>, nodes: seq<Node>, root: Kind) {
    && frames != []
    && var f, below, k := frames[|frames| - 1], frames[..|frames| - 1], |nodes| - 1;
       match f.kind
       case RootFrame => f.nelem >= 1 && k == 0 && IsA(nodes[0], root)
       case ListFrame => k >= 0 && nodes[k].Array? && Under(below, nodes[..k], ListFrame, root)
       case ObjectFrame =>
         if f.nelem % 2 == 1 then
           k >= 1 && nodes[k].KeyVal? && nodes[k].val.Null? && nodes[k - 1].Dict?
           && Under(below, nodes[..k - 1], ObjectFrame, root)
         else k >= 0 && nodes[k].Dict? && Under(below, nodes[..k], ObjectFrame, root)
       case kind => Under(below, nodes, kind, root)
  }

  predicate WellInStep(frames: seq<Frame>, nodes: seq<Node>, root: Kind) {
    InStep(frames, nodes, root) && AllWellFormed(nodes)
  }

  /** The invariant of a parse whose document's first value is a container of kind root. */
  ghost predicate Invariant(p: Parse, root: Kind) {
    && IsContainer(root)
    && (p.Parsing? ==> Valid(p.lex) && WellInStep(p.lex.frames, p.nodes, root))
  }

  // ---- pushing and popping frames ---------------------------------------------------------

  /** A child frame opens: what was in step is now under the child. */
  lemma PushUnder(frames: seq<Frame>, nodes: seq<Node>, root: Kind, child: Kind)
    requires InStep(frames, nodes, root) && IsContainer(root)
    requires var f := frames[|frames| - 1];
      f.kind == RootFrame || f.kind == ListFrame || f.kind == ObjectFrame
    requires var f := frames[|frames| - 1];
      f.kind == ObjectFrame ==> (child == KeyFrame <==> f.nelem % 2 == 0)
    requires frames[|frames| - 1].kind != ObjectFrame ==> child != KeyFrame
    ensures Under(Bumped(frames), nodes, child, root)
  {
    var k := |frames| - 1;
    assert Bumped(frames)[..k] == frames[..k];
  }

  /** A container's own node goes on the stack with its frame. */
  lemma OpenInStep(frames: seq<Frame>, nodes: seq<Node>, root: Kind, f: Frame, n: Node)
    requires Under(frames, nodes, f.kind, root) && IsContainer(f.kind) && f.nelem == 0 && IsA(n, f.kind)
    ensures InStep(frames + [f], nodes + [n], root)
  {
    hide Under;
    assert (frames + [f])[..|frames|] == frames && (nodes + [n])[..|nodes|] == nodes;
  }

  lemma ScalarInStep(frames: seq<Frame>, nodes: seq<Node>, root: Kind, f: Frame)
    requires Under(frames, nodes, f.kind, root) && !IsContainer(f.kind) && f.kind != RootFrame
    ensures InStep(frames + [f], nodes, root)
  {
    hide Under;
    assert (frames + [f])[..|frames|] == frames;
  }

  /** The top frame's own flags do not matter. */
  lemma TopChanged(frames: seq<Frame>, nodes: seq<Node>, root: Kind, f: Frame)
    requires InStep(frames, nodes, root) && !IsContainer(f.kind) && f.kind != RootFrame
    requires f.kind == frames[|frames| - 1].kind
    ensures InStep(frames[|frames| - 1 := f], nodes, root)
  {
    hide Under;
    assert frames[|frames| - 1 := f][..|frames| - 1] == frames[..|frames| - 1];
  }

  /** A key is on the stack: its object awaits the value. */
  lemma KeyInStep(frames: seq<Frame>, nodes: seq<Node>, root: Kind, kv: Node)
    requires Under(frames, nodes, KeyFrame, root) && IsContainer(root) && kv.KeyVal? && kv.val.Null?
    ensures InStep(frames, nodes + [kv], root)
  {
    var m := nodes + [kv];
    assert m[..|m| - 1] == nodes && m[..|m| - 2] == nodes[..|nodes| - 1];
  }

  /**
   A finished value is on the stack above what is under it. If it is the document's first,
   it stays; in a list, an object or a first list, it is taken in; after a first object it
   is dropped if its key is null, and treated as a key-value pair if not.
   */
  lemma ValueInStep(frames: seq<Frame>, nodes: seq<Node>, root: Kind, child: Kind, v: Node)
    requires Under(frames, nodes, child, root) && IsContainer(root) && child != KeyFrame && AllWellFormed(nodes)
    requires IsValue(v) && (IsContainer(child) ==> IsA(v, child))
    ensures var f := frames[|frames| - 1];
      var extra := f.kind == RootFrame && f.nelem >= 2 && root == ObjectFrame;
      if nodes == [] then InStep(frames, nodes + [v], root)
      else
        && (extra && !NullKey(v) <==> Attach(nodes + [v]) == Stopped(NotAKeyVal))
        && (extra && NullKey(v) ==> Attach(nodes + [v]) == Nodes(nodes))
        && (!(extra && !NullKey(v)) ==>
              Attach(nodes + [v]).Nodes? && WellInStep(frames, Attach(nodes + [v]).nodes, root))
  {
    var f, k := frames[|frames| - 1], |nodes| - 1;
    if nodes != [] {
      if f.kind == RootFrame {
        ValueAtRoot(nodes, root, v);
      } else if f.kind == ListFrame {
        AppendInStep(frames, nodes, root, v);
      } else {
        SetInStep(frames, nodes, root, v);
      }
    }
  }

  lemma ValueAtRoot(nodes: seq<Node>, root: Kind, v: Node)
    requires |nodes| == 1 && IsA(nodes[0], root) && IsContainer(root) && AllWellFormed(nodes) && IsValue(v)
    ensures root == ObjectFrame ==> Attach(nodes + [v]) == if NullKey(v) then Nodes(nodes) else Stopped(NotAKeyVal)
    ensures root == ListFrame ==> Attach(nodes + [v]) == Nodes([Array(nodes[0].items + [v])])
    ensures root == ListFrame ==> AllWellFormed([Array(nodes[0].items + [v])])
  {
    assert (nodes + [v])[..1] == nodes;
    if root == ListFrame {
      AppendWellFormed(nodes, v);
      assert nodes[0 := Array(nodes[0].items + [v])] == [Array(nodes[0].items + [v])];
    }
  }

  lemma AppendInStep(frames: seq<Frame>, nodes: seq<Node>, root: Kind, v: Node)
    requires nodes != [] && nodes[|nodes| - 1].Array? && AllWellFormed(nodes) && IsValue(v) && frames != []
    requires frames[|frames| - 1].kind == ListFrame
    requires Under(frames[..|frames| - 1], nodes[..|nodes| - 1], ListFrame, root)
    ensures Attach(nodes + [v]).Nodes? && WellInStep(frames, Attach(nodes + [v]).nodes, root)
  {
    var k := |nodes| - 1;
    assert (nodes + [v])[..|nodes|] == nodes;
    AppendWellFormed(nodes, v);
    assert nodes[k := Array(nodes[k].items + [v])][..k] == nodes[..k];
  }

  lemma AppendWellFormed(nodes: seq<Node>, v: Node)
    requires nodes != [] && nodes[|nodes| - 1].Array? && AllWellFormed(nodes) && IsValue(v)
    ensures var k := |nodes| - 1;
      AllWellFormed(nodes[k := Array(nodes[k].items + [v])])
  {
    var k := |nodes| - 1;
    var items := nodes[k].items;
    assert WellFormed(nodes[k]);
    assert AllWellFormed(items + [v]);
    var ns := nodes[k := Array(items + [v])];
    assert forall i :: 0 <= i < k ==> ns[i] == nodes[i];
    assert WellFormed(ns[k]);
  }

  lemma WellFormedSnoc(nodes: seq<Node>, n: Node)
    requires AllWellFormed(nodes) && WellFormed(n)
    ensures AllWellFormed(nodes + [n])
  {
  }

  lemma SetInStep(frames: seq<Frame>, nodes: seq<Node>, root: Kind, v: Node)
    requires |nodes| >= 2 && AllWellFormed(nodes) && IsValue(v) && frames != []
    requires frames[|frames| - 1].kind == ObjectFrame && frames[|frames| - 1].nelem % 2 == 0
    requires var k := |nodes| - 1;
      nodes[k].KeyVal? && nodes[k - 1].Dict? && Under(frames[..|frames| - 1], nodes[..k - 1], ObjectFrame, root)
    ensures Attach(nodes + [v]).Nodes?
    ensures WellInStep(frames, Attach(nodes + [v]).nodes, root)
  {
    var k := |nodes| - 1;
    var kv := KeyVal(nodes[k].key, v);
    var es := nodes[k - 1].entries;
    assert WellFormed(nodes[k]) && WellFormed(nodes[k - 1]);
    assert (nodes + [v])[..|nodes|] == nodes;
    var below := nodes[..k];
    SetKeyValWellFormed(es, kv);
    var ns := below[k - 1 := Dict(SetKeyVal(es, kv))];
    assert Attach(nodes + [v]) == Nodes(ns);
    assert ns[..k - 1] == nodes[..k - 1];
  }

  lemma SetKeyValWellFormed(es: seq<Node>, kv: Node)
    requires AllKeyVals(es) && DistinctKeys(es) && AllWellFormed(es) && kv.KeyVal? && WellFormed(kv)
    ensures WellFormed(Dict(SetKeyVal(es, kv)))
  {
    SetKeyValDistinct(es, kv);
    var r := SetKeyVal(es, kv);
    assert forall i :: 0 <= i < |r| ==> r[i] == kv || (i < |es| && r[i] == es[i]);
  }

  // ---- callbacks --------------------------------------------------------------------------

  /** A string, bareword or container that pops, other than a key. */
  lemma PopInStep(inp: Input, frames: seq<Frame>, nodes: seq<Node>, root: Kind, ev: Event)
    requires ev.Pop? && (ev.kind == StringFrame || ev.kind == SpecialFrame)
    requires Under(frames, nodes, ev.kind, root) && IsContainer(root) && AllWellFormed(nodes)
    ensures Settled(OnEvent(inp, nodes, ev), frames, root, PopValue(inp, nodes, ev))
  {
    match PopValue(inp, nodes, ev)
    case Stopped(_) =>
    case Nodes(ns) =>
      var v := ns[|nodes|];
      assert ns == nodes + [v] && IsValue(v);
      WellFormedSnoc(nodes, v);
      ValueInStep(frames, nodes, root, ev.kind, v);
  }

  lemma PopContainerInStep(inp: Input, frames: seq<Frame>, nodes: seq<Node>, root: Kind, ev: Event, v: Node)
    requires ev.Pop? && IsContainer(ev.kind) && IsA(v, ev.kind) && WellFormed(v)
    requires Under(frames, nodes, ev.kind, root) && IsContainer(root) && AllWellFormed(nodes)
    ensures Settled(OnEvent(inp, nodes + [v], ev), frames, root, Nodes(nodes + [v]))
  {
    hide Attach, AllWellFormed, WellFormed;
    assert IsValue(v);
    WellFormedSnoc(nodes, v);
    ValueInStep(frames, nodes, root, ev.kind, v);
  }

  /** The value on top would be used as a pair, were it set in a dictionary. */
  predicate Pairless(put: Built) { put.Nodes? && put.nodes != [] && !NullKey(put.nodes[|put.nodes| - 1]) }

  /** After a value's callback: in step, unless it stopped; and a stop by confusion is one at an extra value. */
  ghost predicate Settled(b: Built, frames: seq<Frame>, root: Kind, put: Built) {
    && frames != []
    && var f := frames[|frames| - 1];
       var extra := f.kind == RootFrame && f.nelem >= 2 && root == ObjectFrame;
       && (b == Stopped(NotAKeyVal) <==> extra && Pairless(put))
       && (b.Stopped? && put.Nodes? ==> extra)
       && (b.Nodes? ==> WellInStep(frames, b.nodes, root))
  }

  lemma PopKeyInStep(inp: Input, frames: seq<Frame>, nodes: seq<Node>, root: Kind, ev: Event)
    requires ev.Pop? && ev.kind == KeyFrame
    requires Under(frames, nodes, KeyFrame, root) && IsContainer(root) && AllWellFormed(nodes)
    ensures var b := OnEvent(inp, nodes, ev);
      if b.Nodes? then WellInStep(frames, b.nodes, root) else b.stop != NotAKeyVal
  {
    match PopValue(inp, nodes, ev)
    case Stopped(_) =>
    case Nodes(ns) =>
      var kv := ns[|nodes|];
      assert ns == nodes + [kv] && WellFormed(kv);
      WellFormedSnoc(nodes, kv);
      KeyInStep(frames, nodes, root, kv);
  }

  // ---- steps ------------------------------------------------------------------------------

  /** The byte completes a value at the top level that is not the document's first. */
  predicate ExtraValue(s: Lex, events: seq<Event>)
    requires Valid(s)
  {
    && s.frames[0].nelem >= 2 && events != [] && events[0].Pop?
    && (|s.frames| == 2 || (|s.frames| == 3 && |events| == 2 && events[1].Pop?))
  }

  /** An extra value that is a scalar on the stack has been dropped if its key is null; a container's never is. */
  predicate Mistaken(s: Lex, put: Built) { put.Nodes? && (|s.frames| == 2 ==> Pairless(put)) }

  /** What a step keeps, and when it confuses the tree builder: at an extra value that finds room on the stack. */
  ghost predicate Kept(inp: Input, s: Lex, nodes: seq<Node>, root: Kind, r: StepResult)
    requires Valid(s)
  {
    var b := OnEvents(inp, nodes, r.events);
    && (b == Stopped(NotAKeyVal) <==>
          root == ObjectFrame && ExtraValue(s, r.events) && Mistaken(s, PopValue(inp, nodes, r.events[0])))
    && (b.Nodes? && r.Next? ==> WellInStep(r.lex.frames, b.nodes, root))
  }

  lemma StepInStep(inp: Input, s: Lex, nodes: seq<Node>, root: Kind, c: byte)
    requires Valid(s) && WellInStep(s.frames, nodes, root) && IsContainer(root)
    ensures var r := Step(s, c);
      Kept(inp, s, nodes, root, r)
  {
    var k := Top(s).kind;
    if IsStringy(k) {
      StringInStep(inp, s, nodes, root, c);
    } else if k == SpecialFrame {
      SpecialInStep(inp, s, nodes, root, c);
    } else if IsWhitespace(c) {
    } else if SpecialStart(c) != NoSpecial {
      BeginSpecialInStep(inp, s, nodes, root, c);
    } else if c == QUOTE {
      BeginStringInStep(inp, s, nodes, root);
    } else if c == BACKSLASH {
    } else {
      TokenInStep(inp, s, nodes, root, c);
    }
  }

  lemma ScalarUnder(frames: seq<Frame>, nodes: seq<Node>, root: Kind)
    requires InStep(frames, nodes, root)
    requires var kind := frames[|frames| - 1].kind; !IsContainer(kind) && kind != RootFrame
    ensures Under(frames[..|frames| - 1], nodes, frames[|frames| - 1].kind, root)
  {
  }

  lemma StringInStep(inp: Input, s: Lex, nodes: seq<Node>, root: Kind, c: byte)
    requires Valid(s) && WellInStep(s.frames, nodes, root) && IsContainer(root)
    requires IsStringy(Top(s).kind)
    ensures var r := InString(s, c);
      Kept(inp, s, nodes, root, r)
  {
    hide OnEvent, InStep, Under, AllWellFormed, PopValue;
    if !s.inEscape && c == QUOTE {
      var ev := PopEvent(s, NoSpecial);
      EventsOne(inp, nodes, ev);
      ScalarUnder(s.frames, nodes, root);
      if Top(s).kind == KeyFrame {
        PopKeyInStep(inp, s.frames[..|s.frames| - 1], nodes, root, ev);
      } else {
        PopInStep(inp, s.frames[..|s.frames| - 1], nodes, root, ev);
      }
    }
  }

  lemma BeginStringInStep(inp: Input, s: Lex, nodes: seq<Node>, root: Kind)
    requires Valid(s) && WellInStep(s.frames, nodes, root) && IsContainer(root)
    requires !s.inEscape && (|s.frames| == 1 || IsContainer(Top(s).kind))
    ensures var r := BeginString(s);
      Kept(inp, s, nodes, root, r)
  {
    hide BeginString, WellInStep;
    BeginStringShape(s);
    var r := BeginString(s);
    if r.Next? {
      ScalarWellInStep(s, nodes, root, Top(r.lex));
      EventsOne(inp, nodes, r.events[0]);
    }
  }

  /** A string, a key or a bareword opens where it may. */
  lemma ScalarWellInStep(s: Lex, nodes: seq<Node>, root: Kind, f: Frame)
    requires Valid(s) && WellInStep(s.frames, nodes, root) && IsContainer(root)
    requires (|s.frames| == 1 || IsContainer(Top(s).kind)) && !IsContainer(f.kind) && f.kind != RootFrame
    requires if Top(s).kind == ObjectFrame then f.kind == KeyFrame <==> Top(s).nelem % 2 == 0 else f.kind != KeyFrame
    ensures WellInStep(Bumped(s.frames) + [f], nodes, root)
  {
    hide AllWellFormed, Under;
    PushUnder(s.frames, nodes, root, f.kind);
    ScalarInStep(Bumped(s.frames), nodes, root, f);
  }

  /** How a string, a key, a bareword or a container starts: its parent counts it, and one frame is pushed. */
  predicate Starts(s: Lex, r: StepResult)
    requires s.frames != []
  {
    if r.Fail? then r.events == []
    else
      && r.lex.frames != []
      && var f := r.lex.frames[|r.lex.frames| - 1];
         && f.kind != RootFrame && r.lex.frames == Bumped(s.frames) + [f]
         && r.events == [Push(f.kind, f.special, s.pos)] && f.begin == s.pos
         && (IsContainer(f.kind) ==> f.nelem == 0)
         && (if Top(s).kind == ObjectFrame then f.kind == KeyFrame <==> Top(s).nelem % 2 == 0 else f.kind != KeyFrame)
  }

  lemma BeginStringShape(s: Lex)
    requires Valid(s) && !s.inEscape && (|s.frames| == 1 || IsContainer(Top(s).kind))
    ensures Starts(s, BeginString(s))
    ensures var r := BeginString(s);
      r.Next? ==> IsStringy(Top(r.lex).kind)
  {
  }

  lemma BeginSpecialShape(s: Lex, c: byte)
    requires Valid(s) && !s.inEscape && (|s.frames| == 1 || IsContainer(Top(s).kind))
    ensures Starts(s, BeginSpecial(s, c))
    ensures var r := BeginSpecial(s, c);
      r.Next? ==> Top(r.lex).kind == SpecialFrame
  {
  }

  lemma OpenContainerShape(s: Lex, c: byte)
    requires Valid(s) && !s.inEscape && (|s.frames| == 1 || IsContainer(Top(s).kind))
    ensures Starts(s, OpenContainer(s, c))
    ensures var r := OpenContainer(s, c);
      r.Next? ==> Top(r.lex).kind == if c == LBRACE then ObjectFrame else ListFrame
  {
  }

  lemma BeginSpecialInStep(inp: Input, s: Lex, nodes: seq<Node>, root: Kind, c: byte)
    requires Valid(s) && WellInStep(s.frames, nodes, root) && IsContainer(root)
    requires !s.inEscape && (|s.frames| == 1 || IsContainer(Top(s).kind))
    ensures var r := BeginSpecial(s, c);
      && Kept(inp, s, nodes, root, r)
      && (r.events != [] ==> !r.events[0].Pop?)
  {
    hide BeginSpecial, WellInStep;
    BeginSpecialShape(s, c);
    var r := BeginSpecial(s, c);
    if r.Next? {
      ScalarWellInStep(s, nodes, root, Top(r.lex));
      EventsOne(inp, nodes, r.events[0]);
    }
  }

  lemma OpenContainerInStep(inp: Input, s: Lex, nodes: seq<Node>, root: Kind, c: byte)
    requires Valid(s) && WellInStep(s.frames, nodes, root) && IsContainer(root)
    requires !s.inEscape && (|s.frames| == 1 || IsContainer(Top(s).kind)) && (c == LBRACE || c == LBRACKET)
    ensures var r := OpenContainer(s, c);
      && Kept(inp, s, nodes, root, r)
      && (r.events != [] ==> !r.events[0].Pop?)
  {
    hide OpenContainer, OnEvent, WellInStep;
    OpenContainerShape(s, c);
    var r := OpenContainer(s, c);
    if r.Next? {
      var f := Top(r.lex);
      var n, ev := if c == LBRACE then Dict([]) else Array([]), Push(f.kind, f.special, s.pos);
      OpenedWellInStep(s, nodes, root, f, n);
      EventsOne(inp, nodes, ev);
      OpenEvent(inp, nodes, ev, n);
    }
  }

  lemma OpenedWellInStep(s: Lex, nodes: seq<Node>, root: Kind, f: Frame, n: Node)
    requires Valid(s) && WellInStep(s.frames, nodes, root) && IsContainer(root)
    requires (|s.frames| == 1 || IsContainer(Top(s).kind)) && !(Top(s).kind == ObjectFrame && Top(s).nelem % 2 == 0)
    requires IsContainer(f.kind) && f.nelem == 0 && n == if f.kind == ObjectFrame then Dict([]) else Array([])
    ensures WellInStep(Bumped(s.frames) + [f], nodes + [n], root)
  {
    hide AllWellFormed, WellFormed, Under, InStep;
    UnderChild(s, nodes, root, f.kind);
    OpenInStep(Bumped(s.frames), nodes, root, f, n);
    EmptyWellFormed();
    WellFormedSnoc(nodes, n);
  }

  lemma UnderChild(s: Lex, nodes: seq<Node>, root: Kind, child: Kind)
    requires Valid(s) && InStep(s.frames, nodes, root) && IsContainer(root)
    requires |s.frames| == 1 || IsContainer(Top(s).kind)
    requires if Top(s).kind == ObjectFrame then child == KeyFrame <==> Top(s).nelem % 2 == 0 else child != KeyFrame
    ensures Under(Bumped(s.frames), nodes, child, root)
  {
    PushUnder(s.frames, nodes, root, child);
  }

  lemma OpenEvent(inp: Input, nodes: seq<Node>, ev: Event, n: Node)
    requires ev.Push? && IsContainer(ev.kind) && n == if ev.kind == ObjectFrame then Dict([]) else Array([])
    ensures OnEvent(inp, nodes, ev)
         == if |nodes| >= inp.capacity then Stopped(NodeStackOverflow) else Nodes(nodes + [n])
  {
  }

  lemma EmptyWellFormed()
    ensures WellFormed(Dict([])) && WellFormed(Array([]))
  {
  }

  lemma CloseContainerInStep(inp: Input, s: Lex, nodes: seq<Node>, root: Kind, c: byte)
    requires Valid(s) && WellInStep(s.frames, nodes, root) && IsContainer(root)
    requires !s.inEscape && (|s.frames| == 1 || IsContainer(Top(s).kind)) && (c == RBRACE || c == RBRACKET)
    ensures var r := CloseContainer(s, c);
      && Kept(inp, s, nodes, root, r)
      && (r.events != [] ==> r.Next? && |r.events| == 1 && r.events[0].Pop? && IsContainer(r.events[0].kind))
  {
    hide OnEvent, Under, WellFormed;
    var r := CloseContainer(s, c);
    if r.Next? {
      var k := |nodes| - 1;
      assert nodes == nodes[..k] + [nodes[k]];
      EventsOne(inp, nodes, r.events[0]);
      PopContainerInStep(inp, s.frames[..|s.frames| - 1], nodes[..k], root, r.events[0], nodes[k]);
    }
  }

  lemma TokenInStep(inp: Input, s: Lex, nodes: seq<Node>, root: Kind, c: byte)
    requires Valid(s) && WellInStep(s.frames, nodes, root) && IsContainer(root)
    requires !s.inEscape && (|s.frames| == 1 || IsContainer(Top(s).kind))
    ensures var r := Structural(s, c);
      && Kept(inp, s, nodes, root, r)
      && (r.events != [] && r.events[0].Pop? ==>
            r.Next? && |r.events| == 1 && |s.frames| >= 2 && IsContainer(r.events[0].kind))
  {
    if c == COLON || c == COMMA {
    } else if c == LBRACE || c == LBRACKET {
      OpenContainerInStep(inp, s, nodes, root, c);
    } else if c == RBRACE || c == RBRACKET {
      CloseContainerInStep(inp, s, nodes, root, c);
    } else {
      BeginSpecialInStep(inp, s, nodes, root, c);
    }
  }

  /** The end of a bareword: its own callback, then the terminator as a token of the container. */
  lemma EndSpecialInStep(inp: Input, s: Lex, nodes: seq<Node>, root: Kind, c: byte)
    requires Valid(s) && WellInStep(s.frames, nodes, root) && IsContainer(root)
    requires Top(s).kind == SpecialFrame
    ensures var r := EndSpecial(s, c);
      Kept(inp, s, nodes, root, r)
  {
    hide Finished, Structural, AllWellFormed, Under, OnEvent;
    match Finished(s)
    case Err(_) =>
    case Ok(sp) =>
      var ev, s1 := PopEvent(s, sp), SpecialPopped(s);
      PopInStep(inp, s1.frames, nodes, root, ev);
      match OnEvent(inp, nodes, ev)
      case Stopped(_) =>
      case Nodes(ns) =>
        if !IsWhitespace(c) {
          TokenInStep(inp, s1, ns, root, c);
          AfterKept(inp, s, nodes, root, sp, ns, Structural(s1, c));
        } else {
          EventsOne(inp, nodes, ev);
        }
  }

  /** A bareword's callback that goes through, and then what the token does. */
  lemma AfterKept(inp: Input, s: Lex, nodes: seq<Node>, root: Kind, sp: Special, ns: seq<Node>, next: StepResult)
    requires Valid(s) && Top(s).kind == SpecialFrame && OnEvent(inp, nodes, PopEvent(s, sp)) == Nodes(ns)
    requires Settled(Nodes(ns), SpecialPopped(s).frames, root, PopValue(inp, nodes, PopEvent(s, sp)))
    requires Kept(inp, SpecialPopped(s), ns, root, next)
    requires next.events != [] && next.events[0].Pop? ==>
      |next.events| == 1 && |SpecialPopped(s).frames| >= 2 && IsContainer(next.events[0].kind)
    ensures Kept(inp, s, nodes, root, After(PopEvent(s, sp), next))
  {
    hide OnEvent, WellInStep, StringBody, SpecialNode;
    var ev, s1 := PopEvent(s, sp), SpecialPopped(s);
    assert ([ev] + next.events)[1..] == next.events;
    PoppedValue(inp, nodes, ev);
    if |s1.frames| >= 2 { ContainerOnTop(s1.frames, ns, root); }
  }

  lemma ContainerOnTop(frames: seq<Frame>, nodes: seq<Node>, root: Kind)
    requires WellInStep(frames, nodes, root) && IsContainer(frames[|frames| - 1].kind)
    ensures Pairless(Nodes(nodes))
  {
  }

  lemma PoppedValue(inp: Input, nodes: seq<Node>, ev: Event)
    requires ev.Pop? && OnEvent(inp, nodes, ev).Nodes?
    ensures PopValue(inp, nodes, ev).Nodes?
  {
  }

  /** A byte that only changes the frame on top keeps the stacks in step. */
  lemma TopKept(inp: Input, s: Lex, nodes: seq<Node>, root: Kind, f: Frame)
    requires Valid(s) && WellInStep(s.frames, nodes, root) && Top(s).kind == SpecialFrame && f.kind == SpecialFrame
    ensures var r := Next(Advance(WithTop(s, f)), []);
      WellInStep(WithTop(s, f).frames, nodes, root) && Kept(inp, s, nodes, root, r)
  {
    hide AllWellFormed, InStep;
    TopChanged(s.frames, nodes, root, f);
  }

  /** Nor does a failing byte do anything, or one that only counts. */
  lemma FramesKept(inp: Input, s: Lex, nodes: seq<Node>, root: Kind, r: StepResult)
    requires Valid(s) && WellInStep(s.frames, nodes, root) && r.events == [] && (r.Next? ==> r.lex.frames == s.frames)
    ensures Kept(inp, s, nodes, root, r)
  {
    hide WellInStep;
  }

  lemma SpecialInStep(inp: Input, s: Lex, nodes: seq<Node>, root: Kind, c: byte)
    requires Valid(s) && WellInStep(s.frames, nodes, root) && IsContainer(root)
    requires Top(s).kind == SpecialFrame
    ensures var r := InSpecial(s, c);
      Kept(inp, s, nodes, root, r)
  {
    hide InNumber, EndSpecial, WordMatches, OnEvents, Kept, WellInStep;
    var f, r := Top(s), InSpecial(s, c);
    if IsNormalNumber(f.special) {
      if IsDigit(c) {
        TopKept(inp, s, nodes, root, f.(nelem := AppendDigit(f.nelem, c)));
      } else {
        NumberInStep(inp, s, nodes, root, c);
      }
    } else {
      match f.special
      case Dash =>
        TopKept(inp, s, nodes, root, f.(special := MINUS_ZERO));
        if IsDigit(c) {
          TopKept(inp, s, nodes, root, f.(special := SIGNED, nelem := c as nat - 0x30));
        } else {
          FramesKept(inp, s, nodes, root, r);
        }
      case Zero =>
        TopKept(inp, s, nodes, root, f.(special := UNSIGNED));
        if IsDigit(c) {
          FramesKept(inp, s, nodes, root, r);
        } else {
          NumberInStep(inp, WithTop(s, f.(special := UNSIGNED)), nodes, root, c);
          SameFramesKept(inp, s, WithTop(s, f.(special := UNSIGNED)), nodes, root, r);
        }
      case Numeric(_, _, _, _) => NumberInStep(inp, s, nodes, root, c);
      case _ =>
        if IsSpecialEnd(c) {
          EndSpecialInStep(inp, s, nodes, root, c);
        } else {
          FramesKept(inp, s, nodes, root, r);
        }
    }
  }

  /** Only the frames below the top decide what an extra value is. */
  lemma SameFramesKept(inp: Input, s: Lex, s': Lex, nodes: seq<Node>, root: Kind, r: StepResult)
    requires Valid(s) && Top(s).kind == SpecialFrame && s' == WithTop(s, Top(s).(special := UNSIGNED)) && Valid(s')
    requires Kept(inp, s', nodes, root, r)
    ensures Kept(inp, s, nodes, root, r)
  {
    hide WellInStep, OnEvents, PopValue;
  }

  lemma NumberInStep(inp: Input, s: Lex, nodes: seq<Node>, root: Kind, c: byte)
    requires Valid(s) && WellInStep(s.frames, nodes, root) && IsContainer(root)
    requires Top(s).kind == SpecialFrame && Top(s).special.Numeric?
    ensures var r := InNumber(s, c);
      Kept(inp, s, nodes, root, r)
  {
    hide EndSpecial, AllWellFormed, Under, InStep, OnEvent;
    var f := Top(s);
    TopChanged(s.frames, nodes, root, f.(special := f.special.(float := true)));
    TopChanged(s.frames, nodes, root, f.(special := f.special.(exponent := true)));
    if !IsDigit(c) && c != DOT && IsSpecialEnd(c) {
      EndSpecialInStep(inp, s, nodes, root, c);
    }
  }

  // ---- whole texts ------------------------------------------------------------------------

  lemma ByteInvariant(inp: Input, p: Parse, root: Kind, c: byte)
    requires Invariant(p, root)
    ensures Invariant(ParseByte(inp, p, c), root)
    ensures p.Parsing? ==>
      var events := Step(p.lex, c).events;
      StoppedBy(ParseByte(inp, p, c), NotAKeyVal) <==>
        root == ObjectFrame && ExtraValue(p.lex, events) && Mistaken(p.lex, PopValue(inp, p.nodes, events[0]))
  {
    hide Step, WellInStep, PopValue, OnEvents, OnEvent;
    if p.Parsing? {
      StepInStep(inp, p.lex, p.nodes, root, c);
    }
  }

  lemma {:induction false} BytesInvariant(inp: Input, p: Parse, root: Kind, buf: bytes)
    requires Invariant(p, root)
    ensures Invariant(ParseBytes(inp, p, buf), root)
    ensures root == ListFrame && !StoppedBy(p, NotAKeyVal) ==> !StoppedBy(ParseBytes(inp, p, buf), NotAKeyVal)
    decreases |buf|
  {
    hide ParseByte, WellInStep, ExtraValue, PopValue;
    if buf != [] {
      ByteInvariant(inp, p, root, buf[0]);
      if !p.Parsing? { ParseStopped(inp, p, [buf[0]]); }
      BytesInvariant(inp, ParseByte(inp, p, buf[0]), root, buf[1..]);
    }
  }

  /** The kind of a buffer's first value, when it opens with a container. */
  function RootKind(buf: bytes): Kind {
    var off := SkipWhitespace(buf);
    if off < |buf| && buf[off] == LBRACE then ObjectFrame else ListFrame
  }

  /** From the start of a parse to just behind the bracket that opens the document. */
  lemma Opening(inp: Input, column: seq<nat>, buf: bytes)
    requires |column| >= 2
    requires var off := SkipWhitespace(buf);
      off < |buf| && (buf[off] == LBRACE || buf[off] == LBRACKET)
    ensures var off := SkipWhitespace(buf);
      var p := ParseBytes(inp, Parsing(Start(column), []), buf[..off + 1]);
      && Invariant(p, RootKind(buf)) && !StoppedBy(p, NotAKeyVal)
      && ParseBytes(inp, Parsing(Start(column), []), buf) == ParseBytes(inp, p, buf[off + 1..])
  {
    hide ParseBytes, ParseByte, Step, InStep, Under;
    var off, s0 := SkipWhitespace(buf), Start(column);
    var w, c, root := buf[..off], buf[off], RootKind(buf);
    assert buf[..off + 1] == w + [c] && buf == buf[..off + 1] + buf[off + 1..];
    ParseConcat(inp, Parsing(s0, []), buf[..off + 1], buf[off + 1..]);
    ParseBlanks(inp, s0, [], w, [c]);
    var s1 := s0.(pos := off);
    assert [c] + [] == [c];
    ParseCons(inp, Parsing(s1, []), c, []);
    ParseNothing(inp, ParseByte(inp, Parsing(s1, []), c));
    FirstBracket(inp, s1, c, root);
  }

  lemma FirstBracket(inp: Input, s: Lex, c: byte, root: Kind)
    requires Valid(s) && s.frames == [Frame(RootFrame, 0, 0, NoSpecial)] && s.canInsert && !s.inEscape
    requires |s.nescapes| >= 2 && ((c == LBRACE && root == ObjectFrame) || (c == LBRACKET && root == ListFrame))
    ensures var p := ParseByte(inp, Parsing(s, []), c);
      Invariant(p, root) && !StoppedBy(p, NotAKeyVal)
  {
    hide InStep, Under, OnEvent, Step, AllWellFormed;
    var f, n := Frame(root, 0, s.pos, NoSpecial), if c == LBRACE then Dict([]) else Array([]);
    var ev := Push(root, NoSpecial, s.pos);
    FirstStep(s, c, root);
    RootUnder(s.frames, root);
    OpenInStep(Bumped(s.frames), [], root, f, n);
    EmptyWellFormed();
    NoneWellFormed();
    WellFormedSnoc([], n);
    OpenEvent(inp, [], ev, n);
    CallbackByte(inp, s, [], c, Opened(s, root), ev);
  }

  lemma NoneWellFormed()
    ensures AllWellFormed([])
  {
  }

  lemma FirstStep(s: Lex, c: byte, root: Kind)
    requires Valid(s) && s.frames == [Frame(RootFrame, 0, 0, NoSpecial)] && s.canInsert && !s.inEscape
    requires |s.nescapes| >= 2 && ((c == LBRACE && root == ObjectFrame) || (c == LBRACKET && root == ListFrame))
    ensures Step(s, c) == Next(Opened(s, root), [Push(root, NoSpecial, s.pos)]) && Valid(Opened(s, root))
  {
  }

  lemma RootUnder(frames: seq<Frame>, root: Kind)
    requires frames == [Frame(RootFrame, 0, 0, NoSpecial)] && IsContainer(root)
    ensures Under(Bumped(frames), [], root, root)
  {
  }

  /** Without a value there is no document: blank text feeds the lexer nothing. */
  lemma BlankDocument(text: bytes, column: seq<nat>, strtod: FloatReader)
    requires |column| >= 2 && SkipWhitespace(text) == |text|
    ensures CreateNode(text, column, strtod) == Err(ValueNotFound)
  {
    hide ParseBytes;
    var inp := Input(text, |column|, strtod);
    assert text + [] == text;
    ParseBlanks(inp, Start(column), [], text, []);
    ParseNothing(inp, Parsing(Start(column).(pos := |text|), []));
  }

  /**
   Every text: what parsing returns is a well-formed value, and the node stack then holds
   nothing but the document's root. The tree builder can mistake a node for a key-value pair
   only if the document's first value is an object.
   */
  lemma ResultWellFormed(text: bytes, column: seq<nat>, strtod: FloatReader)
    requires |column| >= 2
    ensures var r := CreateNode(text, column, strtod);
      && (r.Ok? ==> IsValue(r.value))
      && (r == Err(Undefined(NotAKeyVal)) ==> RootKind(Buffer(text)) == ObjectFrame)
    ensures var buf := Buffer(text);
      var p := ParseBytes(Input(buf, |column|, strtod), Parsing(Start(column), []), buf);
      CreateNode(text, column, strtod).Ok? ==>
        p.Parsing? && |p.nodes| == 1 && IsA(p.nodes[0], RootKind(buf))
  {
    hide Buffer, SkipWhitespace, InStep, WellFormed, Step, ParseByte, Conclude;
    if SkipWhitespace(text) == |text| {
      BlankDocument(text, column, strtod);
    } else {
      var buf := Buffer(text);
      BufferOpens(text);
      var inp, off := Input(buf, |column|, strtod), SkipWhitespace(buf);
      var root := RootKind(buf);
      Opening(inp, column, buf);
      var p1 := ParseBytes(inp, Parsing(Start(column), []), buf[..off + 1]);
      BytesInvariant(inp, p1, root, buf[off + 1..]);
      Concluded(ParseBytes(inp, p1, buf[off + 1..]), IsScalarText(text), root);
    }
  }

  lemma BufferOpens(text: bytes)
    requires SkipWhitespace(text) < |text|
    ensures var buf := Buffer(text);
      var off := SkipWhitespace(buf);
      off < |buf| && (buf[off] == LBRACE || buf[off] == LBRACKET)
    ensures IsScalarText(text) ==> RootKind(Buffer(text)) == ListFrame
  {
  }

  lemma Concluded(p: Parse, scalar: bool, root: Kind)
    requires Invariant(p, root)
    ensures var r := Conclude(p, scalar);
      && (r.Ok? ==> IsValue(r.value) && p.Parsing? && |p.nodes| == 1 && IsA(p.nodes[0], root))
      && (r == Err(Undefined(NotAKeyVal)) ==> StoppedBy(p, NotAKeyVal))
  {
    if p.Parsing? && Level(p.lex) == 0 {
      assert WellFormed(p.nodes[0]) && !p.nodes[0].KeyVal?;
      if p.nodes[0].Array? && p.nodes[0].items != [] {
        assert WellFormed(p.nodes[0].items[0]);
      }
    }
  }
}
