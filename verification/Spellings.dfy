/** Which spellings of a path keep the cache hidden. */
module Spellings {
  // A step can be spelled in many ways: with leading zeros, with brackets around an identifier, or as
  // an index that counts from the end. Texts of the same length in steps do not begin one another, so
  // the clearing of a canonical path misses the entries of other spellings.

  import opened Bytes
  import opened Cache
  import opened Coherence
  import opened Commands
  import opened Decimal
  import opened Escape
  import opened Nodes
  import opened Path
  import opened Printer
  import opened Resolve
  import opened Stale

  predicate FromEnd(s: PathNode) { s.Index? && s.index < 0 }

  /**
   A document of one branch, along which the path leads to the value; an index from the end finds
   the first element.
   */
  function Host(q: seq<PathNode>, v: Node): Node
    decreases |q|
  {
    if q == [] then v
    else
      match q[0]
      case Key(k) => Dict([KeyVal(k, Host(q[1..], v))])
      case Index(i) =>
        if i < 0 then Array([Host(q[1..], v)] + Nulls(-(i as int) - 1)) else Array(Nulls(i as int) + [Host(q[1..], v)])
      case Root => v
  }

  function Nulls(n: nat): (r: seq<Node>)
    ensures |r| == n
  {
    seq(n, _ => Null)
  }

  /** The same way through that document, counted from the front. */
  function FromFront(q: seq<PathNode>): (r: seq<PathNode>)
    ensures |r| == |q|
    ensures forall i :: 0 <= i < |q| ==> r[i] == if FromEnd(q[i]) then Index(0) else q[i]
  {
    seq(|q|, i requires 0 <= i < |q| => if FromEnd(q[i]) then Index(0) else q[i])
  }

  lemma FromFrontCanonical(q: seq<PathNode>)
    requires AllRenderable(q)
    ensures Canonical(FromFront(q))
    ensures Canonical(q) <==> forall i :: 0 <= i < |q| ==> !FromEnd(q[i])
  {
  }

  /** Both paths lead to the value. */
  lemma {:induction false} HostDenotes(q: seq<PathNode>, v: Node)
    requires AllRenderable(q)
    ensures Denotes(q, Host(q, v)) == Denotes(FromFront(q), Host(q, v)) == Ok(v)
    decreases |q|
  {
    hide Host;
    if q != [] {
      assert AllRenderable(q[1..]);
      HostDenotes(q[1..], v);
      HostEval(q, v);
      assert FromFront(q)[1..] == FromFront(q[1..]);
    } else {
      HostOfNothing(q, v);
    }
  }

  lemma HostEval(q: seq<PathNode>, v: Node)
    requires AllRenderable(q) && q != []
    ensures Eval(q[0], Host(q, v)) == Eval(FromFront(q)[0], Host(q, v)) == Ok(Host(q[1..], v))
  {
    hide FromFront;
  }

  lemma HostSet(q: seq<PathNode>, v: Node, w: Node)
    requires AllRenderable(q) && q != []
    ensures CanSet(Host(q, v), FromFront(q)[0]) && SetChild(Host(q, v), FromFront(q)[0], Host(q[1..], w)) == Host(q, w)
  {
    hide FromFront, SetChild, CanSet, Nulls;
    var a, b := Host(q[1..], v), Host(q[1..], w);
    assert Renderable(q[0]);
    match q[0]
    case Key(k) => KeySet(k, a, b);
    case Index(i) =>
      PlaceSet(if i < 0 then [] else Nulls(i as int), a, if i < 0 then Nulls(-(i as int) - 1) else [], b, q[0]);
  }

  /** Setting the one element between the nulls. */
  lemma PlaceSet(before: seq<Node>, a: Node, after: seq<Node>, b: Node, s: PathNode)
    requires s.Index?
    requires if s.index < 0 then before == [] && |after| == -(s.index as int) - 1
             else |before| == s.index as int && after == []
    ensures var p := if FromEnd(s) then Index(0) else s;
      var whole := if s.index < 0 then [a] + after else before + [a];
      var done := if s.index < 0 then [b] + after else before + [b];
      CanSet(Array(whole), p) && SetChild(Array(whole), p, b) == Array(done)
  {
  }

  lemma KeySet(k: bytes, a: Node, b: Node)
    ensures CanSet(Dict([KeyVal(k, a)]), Key(k)) && SetChild(Dict([KeyVal(k, a)]), Key(k), b) == Dict([KeyVal(k, b)])
  {
    assert [KeyVal(k, a)][0 := KeyVal(k, b)] == [KeyVal(k, b)];
  }

  /** What is put by the path from the front is there for the path from the end. */
  lemma {:induction false} HostPut(q: seq<PathNode>, v: Node, w: Node)
    requires AllRenderable(q)
    ensures CanPut(FromFront(q), Host(q, v)) && Put(FromFront(q), Host(q, v), w) == Host(q, w)
    decreases |q|
  {
    hide Host, Eval, SetChild, CanSet;
    if q != [] {
      assert AllRenderable(q[1..]);
      HostPut(q[1..], v, w);
      HostEval(q, v);
      HostSet(q, v, w);
      assert FromFront(q)[1..] == FromFront(q[1..]);
      if |q| == 1 { HostOfNothing(q[1..], w); }
    } else {
      HostOfNothing(q, w);
    }
  }

  lemma HostOfNothing(q: seq<PathNode>, v: Node)
    requires q == []
    ensures Host(q, v) == v
  {
  }

  lemma {:induction false} HostValue(q: seq<PathNode>, v: Node)
    requires AllRenderable(q) && IsValue(v)
    ensures IsValue(Host(q, v))
    decreases |q|
  {
    if q != [] {
      assert AllRenderable(q[1..]) && Renderable(q[0]);
      HostValue(q[1..], v);
    }
  }

  // ---- texts that begin one another ---------------------------------------------------------

  /** A text that parses yields a step at least, but for the empty rest behind a bracketed step. */
  lemma {:induction false} SomeStep(s: bytes, st: TokenizerState, tok: bytes, off: nat)
    requires TokenFits(st, tok) && Scan(s, st, tok, off).err.None? && (st != S_NULL || s != [])
    ensures Scan(s, st, tok, off).nodes != []
    decreases |s|
  {
    hide KeyNode, TokenValue, ToInt32;
    if s != [] {
      var c, rest := s[0], s[1..];
      match st
      case S_NULL =>
        if c == DOT { SomeStep(rest, S_ROOT, [], off + 1); }
        else if c == LBRACKET { SomeStep(rest, S_BRACKET, [], off + 1); }
        else { SomeStep(rest, S_IDENT, [c], off + 1); }
      case S_BRACKET =>
        if c == QUOTE { SomeStep(rest, S_DKEY, [], off + 1); }
        else if c == APOSTROPHE { SomeStep(rest, S_SKEY, [], off + 1); }
        else if IsDigit(c) { SomeStep(rest, S_NUMBER, [c], off + 1); }
        else { SomeStep(rest, S_MINUS, [c], off + 1); }
      case S_NUMBER => if IsDigit(c) { SomeStep(rest, S_NUMBER, tok + [c], off + 1); }
      case S_IDENT => if IsIdentChar(c) { SomeStep(rest, S_IDENT, tok + [c], off + 1); }
      case S_DKEY => if c != QUOTE { SomeStep(rest, S_DKEY, tok + [c], off + 1); }
      case S_SKEY => if c != APOSTROPHE { SomeStep(rest, S_SKEY, tok + [c], off + 1); }
      case S_MINUS => SomeStep(rest, S_NUMBER, tok + [c], off + 1);
      case _ => SomeStep(rest, S_IDENT, [c], off + 1);
    }
  }

  /** An identifier that goes on: more steps, or one with a longer key. */
  lemma {:induction false} LongerIdent(s: bytes, tok: bytes, off: nat)
    requires TokenFits(S_IDENT, tok) && Scan(s, S_IDENT, tok, off).err.None?
    ensures var r := Scan(s, S_IDENT, tok, off).nodes;
      |r| >= 2 || (|r| == 1 && r[0].Key? && |r[0].key| == |tok| + |s|)
    decreases |s|
  {
    hide TokenValue, ToInt32;
    if s == [] {
      IdentKey(tok);
    } else {
      var c, rest := s[0], s[1..];
      if c == DOT { SomeStep(rest, S_DOT, [], off + 1); }
      else if c == LBRACKET { SomeStep(rest, S_BRACKET, [], off + 1); }
      else { LongerIdent(rest, tok + [c], off + 1); }
    }
  }

  /** An identifier has no NUL, so its key is all of it. */
  lemma {:induction false} IdentKey(tok: bytes)
    requires forall i :: 0 <= i < |tok| ==> IsIdentChar(tok[i])
    ensures KeyNode(tok) == Key(tok)
  {
    if tok != [] { IdentKey(tok[1..]); }
  }

  /** More steps, or as many of which the last is another key. */
  predicate Further(p: seq<PathNode>, r: seq<PathNode>) {
    |r| > |p| || (|r| == |p| > 0 && p[|p| - 1].Key? && r[|p| - 1].Key? && p[|p| - 1] != r[|p| - 1])
  }

  lemma FurtherThen(n: PathNode, p: seq<PathNode>, r: seq<PathNode>)
    requires Further(p, r)
    ensures Further([n] + p, [n] + r)
  {
  }

  /** If a text that parses begins another, the other's steps go further. */
  lemma {:induction false} LongerText(a: bytes, b: bytes, st: TokenizerState, tok: bytes, off: nat)
    requires TokenFits(st, tok) && b != []
    requires Scan(a, st, tok, off).err.None? && Scan(a + b, st, tok, off).err.None?
    ensures Further(Scan(a, st, tok, off).nodes, Scan(a + b, st, tok, off).nodes)
    decreases |a|, 1
  {
    hide KeyNode, TokenValue, ToInt32, Further;
    if a == [] {
      assert a + b == b;
      NothingThenMore(b, st, tok, off);
    } else {
      var c, rest := a[0], a[1..];
      assert (a + b)[0] == c && (a + b)[1..] == rest + b;
      match st
      case S_NULL =>
        if c == DOT { LongerText(rest, b, S_ROOT, [], off + 1); }
        else if c == LBRACKET { LongerText(rest, b, S_BRACKET, [], off + 1); }
        else { LongerText(rest, b, S_IDENT, [c], off + 1); }
      case S_BRACKET =>
        if c == QUOTE { LongerText(rest, b, S_DKEY, [], off + 1); }
        else if c == APOSTROPHE { LongerText(rest, b, S_SKEY, [], off + 1); }
        else if IsDigit(c) { LongerText(rest, b, S_NUMBER, [c], off + 1); }
        else { LongerText(rest, b, S_MINUS, [c], off + 1); }
      case S_NUMBER =>
        if IsDigit(c) {
          LongerText(rest, b, S_NUMBER, tok + [c], off + 1);
        } else {
          LongerStep(Index(ToInt32(TokenValue(tok))), rest, b, S_NULL, off + 1);
        }
      case S_IDENT =>
        if c == DOT { LongerStep(KeyNode(tok), rest, b, S_DOT, off + 1); }
        else if c == LBRACKET { LongerStep(KeyNode(tok), rest, b, S_BRACKET, off + 1); }
        else { LongerText(rest, b, S_IDENT, tok + [c], off + 1); }
      case S_DKEY =>
        if c == QUOTE { LongerKeyEnd(a, b, tok, off); } else { LongerText(rest, b, S_DKEY, tok + [c], off + 1); }
      case S_SKEY =>
        if c == APOSTROPHE { LongerKeyEnd(a, b, tok, off); } else { LongerText(rest, b, S_SKEY, tok + [c], off + 1); }
      case S_MINUS => LongerText(rest, b, S_NUMBER, tok + [c], off + 1);
      case _ => LongerText(rest, b, S_IDENT, [c], off + 1);
    }
  }

  lemma LongerStep(n: PathNode, a: bytes, b: bytes, st: TokenizerState, off: nat)
    requires TokenFits(st, []) && b != []
    requires Scan(a, st, [], off).err.None? && Scan(a + b, st, [], off).err.None?
    ensures Further(Then(n, Scan(a, st, [], off)).nodes, Then(n, Scan(a + b, st, [], off)).nodes)
    decreases |a|, 2
  {
    hide Scan, Further;
    LongerText(a, b, st, [], off);
    FurtherThen(n, Scan(a, st, [], off).nodes, Scan(a + b, st, [], off).nodes);
  }

  lemma LongerKeyEnd(a: bytes, b: bytes, tok: bytes, off: nat)
    requires a != [] && b != [] && ScanKeyEnd(a, tok, off).err.None? && ScanKeyEnd(a + b, tok, off).err.None?
    ensures Further(ScanKeyEnd(a, tok, off).nodes, ScanKeyEnd(a + b, tok, off).nodes)
    decreases |a|, 0
  {
    hide Scan, Further, KeyNode;
    assert (a + b)[1] == a[1] && (a + b)[2..] == a[2..] + b;
    LongerStep(KeyNode(tok), a[2..], b, S_NULL, off + 2);
  }

  /** The same at the end of the shorter text. */
  lemma NothingThenMore(b: bytes, st: TokenizerState, tok: bytes, off: nat)
    requires TokenFits(st, tok) && b != []
    requires Scan([], st, tok, off).err.None? && Scan(b, st, tok, off).err.None?
    ensures Further(Scan([], st, tok, off).nodes, Scan(b, st, tok, off).nodes)
  {
    match st
    case S_NULL => SomeStep(b, st, tok, off);
    case S_IDENT =>
      LongerIdent(b, tok, off);
      IdentKey(tok);
    case S_ROOT =>
      LongerIdent(b[1..], [b[0]], off + 1);
      IdentKey([]);
    case _ =>
  }

  // ---- keys of the cache ---------------------------------------------------------------------

  /** The steps of a path; the root has none. */
  function Walk(nodes: seq<PathNode>): seq<PathNode> { if nodes == [Root] then [] else nodes }

  /** If the text parses, its key in the cache is the rendering of its steps, and none of them counts from the end. */
  predicate Faithful(text: bytes) {
    match ParsePath(text)
    case Steps(nodes) => Canonical(Walk(nodes)) && AllRenderable(Walk(nodes)) && CacheKey(text) == Render(Walk(nodes))
    case _ => true
  }

  /** The key itself parses as the text does. */
  lemma KeyParses(text: bytes, q: seq<PathNode>)
    requires ParsePath(text) == Steps(q) && q != [] && q != [Root]
    ensures Scan(CacheKey(text), S_NULL, [], 0) == Scanned(q, None) && CacheKey(text) != [] && AllRenderable(q)
    ensures |q| <= 1024
  {
    hide Scan, Renderable;
    var key := CacheKey(text);
    if text == [] { NothingParsed(); }
    if text != key {
      assert text == [DOT] + key;
      LeadingDot(key);
    }
    ScanRenderable(key, S_NULL, [], 0);
  }

  lemma NothingParsed()
    ensures ParsePath([]) == Steps([])
  {
  }

  /** Only the empty text and the dot have no steps; and their keys are empty. */
  lemma NoSteps(text: bytes)
    requires ParsePath(text).Steps? && Walk(ParsePath(text).nodes) == []
    ensures CacheKey(text) == []
  {
    hide Scan;
    if text != [] && text != [DOT] {
      ScanRenderable(text, S_NULL, [], 0);
      var ns := ParsePath(text).nodes;
      assert ns != [] ==> Renderable(ns[0]);
      SomeStep(text, S_NULL, [], 0);
    }
  }

  /** Another spelling's key is not cleared with the path from the front. */
  lemma KeysPart(key: bytes, q: seq<PathNode>)
    requires Scan(key, S_NULL, [], 0) == Scanned(q, None) && key != [] && q != [] && AllRenderable(q)
    requires AllRenderable(FromFront(q)) && key != Render(FromFront(q))
    ensures !ShouldClear(key, Render(FromFront(q)))
  {
    hide Scan, ShouldClear, Render, Renderable;
    var p := FromFront(q);
    var text := Render(p);
    ParseRender(p);
    assert text != [DOT] by { if text == [DOT] { assert p == [Root]; assert Renderable(p[0]); RootNotRenderable(); } }
    if key <= text {
      assert text == key + text[|key|..];
      LongerText(key, text[|key|..], S_NULL, [], 0);
    }
    if text <= key {
      assert key == text + key[|text|..];
      LongerText(text, key[|text|..], S_NULL, [], 0);
    }
    RenderNoNul(p);
    ClearedExactly(key, text);
  }

  lemma RootNotRenderable()
    ensures !Renderable(Root)
  {
  }

  // ---- the stale run ------------------------------------------------------------------------

  /** A string of n letters, too long for the cache to disdain. */
  function Letters(n: nat): Node { Text(seq(n, _ => A)) }

  lemma {:induction false} LettersText(setup: Setup, n: nat)
    ensures |Print(Compact(setup), Letters(n), 0)| == n + 2
  {
    PlainBody(seq(n, _ => A));
  }

  lemma {:induction false} PlainBody(s: bytes)
    requires forall i :: 0 <= i < |s| ==> s[i] == A
    ensures |EscapeBody(s, false)| == |s|
  {
    if s != [] {
      assert EscapeByte(A, false) == [A];
      PlainBody(s[1..]);
    }
  }

  lemma KeyOfRender(q: seq<PathNode>)
    requires AllRenderable(q) && q != []
    ensures CacheKey(Render(q)) == Render(q)
  {
    hide IntText, CString;
    if q[0].Key? && IsIdent(q[0].key) {
      RenderFirst(q);
    } else {
      assert Render(q)[0] == LBRACKET;
    }
  }

  /** Finding what the path denotes, by a text of it. */
  lemma Located(text: bytes, q: seq<PathNode>, root: Node)
    requires ParsePath(text) == Steps(q) && q != [Root] && Denotes(q, root).Ok?
    ensures Locate(World(Some(root), []), text) == Found(q, Denotes(q, root).value)
  {
    hide ParsePath, Denotes;
  }

  lemma RenderParses(p: seq<PathNode>)
    requires AllRenderable(p) && p != [] && |p| <= 1024
    ensures ParsePath(Render(p)) == Steps(p) && p != [Root]
  {
    hide Tokens, Render;
    ParseRender(p);
    assert Renderable(p[0]);
  }

  /** SET by the path from the front leaves the entry of another spelling. */
  lemma SetKeeps(setup: Setup, q: seq<PathNode>, v: Node, w: Node, e: Entry)
    requires AllRenderable(q) && q != [] && |q| <= 1024 && AllRenderable(FromFront(q))
    requires !ShouldClear(e.path, Render(FromFront(q)))
    ensures Exec(setup, World(Some(Host(q, v)), [e]), Set(Render(FromFront(q)), w, Always)).0
      == World(Some(Host(q, w)), [e])
  {
    hide Host, Denotes, Put, CanPut, Render, ParsePath, ShouldClear, FromFront;
    var p := FromFront(q);
    HostDenotes(q, v);
    HostPut(q, v, w);
    RenderParses(p);
    Located(Render(p), p, Host(q, v));
    KeyOfRender(p);
    OneEntryKept(e, Render(p));
  }

  lemma OneEntryKept(e: Entry, path: bytes)
    requires !ShouldClear(e.path, path)
    ensures Kept([e], path) == [e]
  {
    hide ShouldClear;
    assert [e][1..] == [];
  }

  /**
   For every text that parses and is not faithful: on some document, a value read by the text, then
   set by the canonical path, is read again as it was before.
   */
  lemma UnfaithfulStale(setup: Setup, text: bytes) returns (root: Node, run: seq<Command>)
    requires !Faithful(text)
    ensures IsValue(root) && |run| == 3
    ensures run[0] == run[2] == Get(text, PLAIN) && InScope(run[1])
    ensures Replies(setup, World(Some(root), []), run) != UncachedReplies(setup, Some(root), run)
  {
    hide Host, Denotes, Render, Print, Locate, Exec, FromFront, Spells, Canonical, ParsePath, ShouldClear, CacheKey;
    var q := ParsePath(text).nodes;
    if Walk(q) == [] { NoSteps(text); NoRendering(); }
    KeyParses(text, q);
    var p, a, b, key := FromFront(q), Letters(setup.minSize + 1), Letters(setup.minSize + 2), CacheKey(text);
    FromFrontCanonical(q);
    CanonicalRenderable(p);
    if key == Render(p) { SameSteps(key, q, p); }
    KeysPart(key, q);
    root := Host(q, a);
    HostDenotes(q, a);
    HostDenotes(q, b);
    Located(text, q, root);
    Located(text, q, Host(q, b));
    LettersText(setup, setup.minSize + 1);
    LettersText(setup, setup.minSize + 2);
    var cmd := Set(Render(p), b, Always);
    SetKeeps(setup, q, a, b, Entry(key, Print(Compact(setup), a, 0)));
    StaleRun(setup, root, text, q, a, cmd, Host(q, b), b);
    HostValue(q, a);
    run := [Get(text, PLAIN), cmd, Get(text, PLAIN)];
    RenderSpells(p);
    assert IsValue(b);
    assert CanonicalPath(Render(p));
  }

  lemma NoRendering()
    ensures Canonical([]) && AllRenderable([]) && Render([]) == []
  {
  }

  /** Where the key is the rendering of the path from the front, the path is that path. */
  lemma SameSteps(key: bytes, q: seq<PathNode>, p: seq<PathNode>)
    requires Scan(key, S_NULL, [], 0) == Scanned(q, None) && AllRenderable(p) && p != [] && key == Render(p)
    ensures q == p
  {
    hide Scan, Render;
    ParseRender(p);
    assert Renderable(p[0]);
  }

  lemma RenderSpells(p: seq<PathNode>)
    requires Canonical(p) && AllRenderable(p) && p != [] && |p| <= 1024
    ensures Spells(Render(p), p)
  {
  }

  // ---- the exact condition ------------------------------------------------------------------

  /** The commands in scope, and GETs by this text. */
  ghost predicate InScopeBut(text: bytes, cmds: seq<Command>) {
    forall i :: 0 <= i < |cmds| ==> InScope(cmds[i]) || (cmds[i].Get? && cmds[i].path == text)
  }

  /** GETs by this text, among commands in scope, never show the cache. */
  ghost predicate Safe(setup: Setup, text: bytes) {
    forall w: World, cmds: seq<Command> :: Coherent(setup, w) && InScopeBut(text, cmds) ==>
      Replies(setup, w, cmds) == UncachedReplies(setup, w.root, cmds)
  }

  /** A GET by a faithful text is one by the canonical text, which is in scope. */
  lemma FaithfulGet(setup: Setup, w: World, text: bytes, o: Options) returns (text': bytes)
    requires Faithful(text) && ParsePath(text).Steps?
    ensures InScope(Get(text', o))
    ensures Exec(setup, w, Get(text, o)) == Exec(setup, w, Get(text', o))
    ensures Exec(setup, World(w.root, []), Get(text, o)) == Exec(setup, World(w.root, []), Get(text', o))
  {
    hide Render, Answer, Exec, ParsePath, Denotes, CacheKey, Canonical, Locate, Spells;
    var p := Walk(ParsePath(text).nodes);
    text' := if p == [] then [DOT] else Render(p);
    FaithfulSpelled(text, p, text');
    SpellingParses(text', p);
    SameAnswer(setup, w, text, text', o);
    SameAnswer(setup, World(w.root, []), text, text', o);
    GetInScope(Get(text', o), p);
  }

  lemma FaithfulSpelled(text: bytes, p: seq<PathNode>, text': bytes)
    requires ParsePath(text).Steps? && p == Walk(ParsePath(text).nodes) && Canonical(p) && AllRenderable(p)
    requires text' == if p == [] then [DOT] else Render(p)
    ensures Spells(text', p)
  {
    hide Tokens, Render;
  }

  lemma SameAnswer(setup: Setup, w: World, text: bytes, text': bytes, o: Options)
    requires ParsePath(text).Steps? && ParsePath(text').Steps? && CacheKey(text) == CacheKey(text')
    requires Walk(ParsePath(text).nodes) == Walk(ParsePath(text').nodes)
    ensures Exec(setup, w, Get(text, o)) == Exec(setup, w, Get(text', o))
  {
    hide Exec, ParsePath, Lookup, Print, Cachable, CacheKey;
    ExecGet(setup, w, text, o);
    ExecGet(setup, w, text', o);
    if w.root.Some? {
      RootWalk(ParsePath(text).nodes, w.root.value);
      RootWalk(ParsePath(text').nodes, w.root.value);
    }
  }

  lemma RootWalk(nodes: seq<PathNode>, root: Node)
    ensures Target(nodes, root) == Denotes(Walk(nodes), root)
  {
  }

  /** A GET by a faithful text, or by one that does not parse, keeps the cache coherent and hidden. */
  lemma FaithfulStep(setup: Setup, w: World, text: bytes, o: Options)
    requires Coherent(setup, w) && Faithful(text)
    ensures Coherent(setup, Exec(setup, w, Get(text, o)).0)
    ensures Exec(setup, w, Get(text, o)).1 == Exec(setup, World(w.root, []), Get(text, o)).1
  {
    hide Coherent, Exec, Faithful, ParsePath, Answer;
    if ParsePath(text).Steps? {
      var text' := FaithfulGet(setup, w, text, o);
      CommandCoherent(setup, w, Get(text', o));
    } else {
      ExecGet(setup, w, text, o);
      ExecGet(setup, World(w.root, []), text, o);
    }
  }

  lemma {:induction false} FaithfulRun(setup: Setup, w: World, text: bytes, cmds: seq<Command>)
    requires Coherent(setup, w) && Faithful(text) && InScopeBut(text, cmds)
    ensures Replies(setup, w, cmds) == UncachedReplies(setup, w.root, cmds)
    decreases |cmds|
  {
    hide Exec, Coherent, InScope, Faithful;
    if cmds != [] {
      if InScope(cmds[0]) {
        CommandCoherent(setup, w, cmds[0]);
      } else {
        FaithfulStep(setup, w, text, cmds[0].opts);
      }
      RootIndependent(setup, w, cmds[0]);
      FaithfulRun(setup, Exec(setup, w, cmds[0]).0, text, cmds[1..]);
    }
  }

  /**
   Every text: it is safe to GET by if and only if it does not parse, or its key in the cache is the
   rendering of its steps and none of them counts from the end.
   */
  lemma SafeExactly(setup: Setup, text: bytes)
    ensures Safe(setup, text) <==> Faithful(text)
  {
    hide Faithful, Coherent, Replies, UncachedReplies, InScope;
    if Faithful(text) {
      forall w: World, cmds: seq<Command> | Coherent(setup, w) && InScopeBut(text, cmds)
        ensures Replies(setup, w, cmds) == UncachedReplies(setup, w.root, cmds)
      {
        FaithfulRun(setup, w, text, cmds);
      }
    } else {
      var root, run := UnfaithfulStale(setup, text);
      RootWorld(setup, root);
      assert InScopeBut(text, run);
    }
  }

  lemma GetInScope(cmd: Command, q: seq<PathNode>)
    requires cmd.Get? && Spells(cmd.path, q)
    ensures InScope(cmd)
  {
    hide Spells;
  }

  /** The texts [00] and ["a"] . */
  const TWO_ZEROS: bytes := [LBRACKET, 0x30, 0x30, RBRACKET]
  const QUOTED_A: bytes := [LBRACKET, QUOTE, A, QUOTE, RBRACKET]

  /** Spellings with a leading zero, of an identifier in brackets, and from the end are not safe. */
  lemma UnsafeSpellings(setup: Setup)
    ensures !Safe(setup, TWO_ZEROS) && !Safe(setup, QUOTED_A) && !Safe(setup, LAST)
  {
    hide Safe, Faithful;
    SafeExactly(setup, TWO_ZEROS);
    SafeExactly(setup, QUOTED_A);
    SafeExactly(setup, LAST);
    TwoZeros();
    QuotedA();
    LastFromEnd();
  }

  lemma TwoZeros()
    ensures !Faithful(TWO_ZEROS)
  {
    hide Scan;
    var z: bytes := [0x30];
    var rest := z + ([RBRACKET] + []);
    assert TWO_ZEROS[1..] == z + rest && (z + rest)[1..] == rest;
    ScanSeparator(S_NULL, [], TWO_ZEROS, 0);
    ScanSign(z + rest, 1);
    ScanDigits(z, z, [], 2);
    ScanNothing(4);
    assert Value(z + z) == 0;
    assert ParsePath(TWO_ZEROS) == Steps([Index(0)]);
    KeyOfFirst();
  }

  lemma ScanNothing(off: nat)
    ensures Scan([], S_NULL, [], off) == Scanned([], None)
  {
  }

  lemma KeyOfFirst()
    ensures Render([Index(0)]) == FIRST
  {
    assert RenderRest([Index(0)]) == RenderNext(Index(0)) + RenderRest([]);
    assert IntText(0) == [0x30];
  }

  lemma QuotedA()
    ensures !Faithful(QUOTED_A)
  {
    hide Scan;
    var rest := [A] + ([QUOTE, RBRACKET] + []);
    assert QUOTED_A[1..] == [QUOTE] + rest && ([QUOTE] + rest)[1..] == rest;
    ScanSeparator(S_NULL, [], QUOTED_A, 0);
    ScanOpenQuote(QUOTE, [QUOTE] + rest, 1);
    ScanQuoted(S_DKEY, QUOTE, [], [A], [], 2);
    ScanNothing(5);
    IdentKey([A]);
    assert [] + [A] == [A] && ParsePath(QUOTED_A) == Steps([Key([A])]);
    assert RenderRest([Key([A])]) == RenderNext(Key([A])) + RenderRest([]);
    assert Render([Key([A])]) == [A];
  }

  lemma LastFromEnd()
    ensures !Faithful(LAST)
  {
    hide ParsePath;
    IndexPath(-1, LAST);
    assert !CanonicalStep([Index(-1)][0]);
  }
}
