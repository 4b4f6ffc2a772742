/**
 Paths (json_path.c, path.c): the tokenizer, against a rendering of paths as text, and the
 growable list of steps it appends to.
 */
module Path {
  import opened Bytes
  import opened Decimal

  type int32 = x: int | -0x8000_0000 <= x < 0x8000_0000

  datatype PathNode = Root | Key(key: bytes) | Index(index: int32)

  datatype TokenizerState = S_NULL | S_IDENT | S_NUMBER | S_DKEY | S_SKEY | S_ROOT | S_BRACKET | S_DOT | S_MINUS

  /** The JSON_PATH_* messages; NoMessage is a null `jsperr`. */
  datatype Message =
    NoMessage | IdentFirstChar | IdentChar | BracketFirstChar | NumberChar | NegativeNumber | MissingBracket

  datatype PathSyntax = PathSyntax(message: Message, offset: nat)

  /** What the tokenizer appends, and the error that ends it, if any. */
  datatype Scanned = Scanned(nodes: seq<PathNode>, err: Option<PathSyntax>)

  predicate IsIdentStart(c: byte) { IsAlpha(c) || c == DOLLAR || c == UNDERSCORE }

  predicate IsIdentChar(c: byte) { IsAlnum(c) || c == DOLLAR || c == UNDERSCORE }

  /** The conversion of an int64_t argument to int. */
  function ToInt32(n: int): int32 {
    var m := n % 0x1_0000_0000;
    if m < 0x8000_0000 then m else m - 0x1_0000_0000
  }

  /** The token of an index: digits, perhaps behind a minus sign. */
  predicate IsNumber(tok: bytes) {
    tok != [] && AllDigits(tok[1..]) && (IsDigit(tok[0]) || tok[0] == MINUS)
  }

  function TokenValue(tok: bytes): int
    requires IsNumber(tok)
  {
    if tok[0] == MINUS then -(Value(tok[1..]) as int) else Value(tok)
  }

  /** The key is copied as a C string. */
  function KeyNode(tok: bytes): PathNode { Key(CString(tok)) }

  function Then(n: PathNode, r: Scanned): Scanned { Scanned([n] + r.nodes, r.err) }

  function Fail(message: Message, off: nat): Scanned { Scanned([], Some(PathSyntax(message, off))) }

  /** The token that a state has gathered so far. */
  predicate TokenFits(st: TokenizerState, tok: bytes) {
    match st
    case S_NUMBER => IsNumber(tok)
    case S_MINUS => tok == [MINUS]
    case S_IDENT => tok != [] && forall i :: 0 <= i < |tok| ==> IsIdentChar(tok[i])
    case S_DKEY => QUOTE !in tok
    case S_SKEY => APOSTROPHE !in tok
    case _ => tok == []
  }

  /** The text from an offset on, in a state, with a token begun. */
  function Scan(s: bytes, st: TokenizerState, tok: bytes, off: nat): Scanned
    requires TokenFits(st, tok)
    decreases |s|
  {
    if s == [] then
      if st == S_IDENT || st == S_ROOT then Scanned([KeyNode(tok)], None)
      else if st == S_NULL then Scanned([], None)
      else Fail(NoMessage, off)
    else
      var c, rest := s[0], s[1..];
      match st
      case S_NULL =>
        if c == DOT then Scan(rest, S_ROOT, [], off + 1)
        else if c == LBRACKET then Scan(rest, S_BRACKET, [], off + 1)
        else ScanIdentStart(s, off)
      case S_BRACKET =>
        if c == QUOTE then Scan(rest, S_DKEY, [], off + 1)
        else if c == APOSTROPHE then Scan(rest, S_SKEY, [], off + 1)
        else if IsDigit(c) then Scan(rest, S_NUMBER, [c], off + 1)
        else if c == MINUS then Scan(rest, S_MINUS, [c], off + 1)
        else Fail(BracketFirstChar, off)
      case S_ROOT => ScanIdentStart(s, off)
      case S_DOT => ScanIdentStart(s, off)
      case S_NUMBER =>
        if IsDigit(c) then Scan(rest, S_NUMBER, tok + [c], off + 1)
        else if c == RBRACKET then Then(Index(ToInt32(TokenValue(tok))), Scan(rest, S_NULL, [], off + 1))
        else Fail(NumberChar, off)
      case S_IDENT =>
        if c == DOT then Then(KeyNode(tok), Scan(rest, S_DOT, [], off + 1))
        else if c == LBRACKET then Then(KeyNode(tok), Scan(rest, S_BRACKET, [], off + 1))
        else if IsIdentChar(c) then Scan(rest, S_IDENT, tok + [c], off + 1)
        else Fail(IdentChar, off)
      case S_DKEY =>
        if c == QUOTE then ScanKeyEnd(s, tok, off) else Scan(rest, S_DKEY, tok + [c], off + 1)
      case S_SKEY =>
        if c == APOSTROPHE then ScanKeyEnd(s, tok, off) else Scan(rest, S_SKEY, tok + [c], off + 1)
      case S_MINUS =>
        if IsDigit(c) then Scan(rest, S_NUMBER, tok + [c], off + 1) else Fail(NegativeNumber, off)
  }

  function ScanIdentStart(s: bytes, off: nat): Scanned
    requires s != []
    decreases |s|, 0
  {
    if IsIdentStart(s[0]) then Scan(s[1..], S_IDENT, [s[0]], off + 1) else Fail(IdentFirstChar, off)
  }

  /** A closing quote, which must be followed by a closing bracket. */
  function ScanKeyEnd(s: bytes, tok: bytes, off: nat): Scanned
    requires s != []
    decreases |s|, 0
  {
    if |s| > 1 && s[1] == RBRACKET then Then(KeyNode(tok), Scan(s[2..], S_NULL, [], off + 2))
    else Fail(MissingBracket, off)
  }

  /** A path's text: only "." is the root. */
  function Tokens(json: bytes): Scanned {
    if json == [DOT] then Scanned([Root], None) else Scan(json, S_NULL, [], 0)
  }

  /** The text parses as these steps. */
  predicate ParsesAs(json: bytes, nodes: seq<PathNode>) { Tokens(json) == Scanned(nodes, None) }

  // ---- rendering --------------------------------------------------------------------------

  predicate IsIdent(k: bytes) {
    k != [] && IsIdentStart(k[0]) && forall i :: 0 <= i < |k| ==> IsIdentChar(k[i])
  }

  /** A key the path syntax can spell: some quote is free to enclose it. */
  predicate Renderable(n: PathNode) {
    match n
    case Root => false
    case Key(k) => NUL !in k && (QUOTE !in k || APOSTROPHE !in k)
    case Index(_) => true
  }

  predicate AllRenderable(ns: seq<PathNode>) { forall i :: 0 <= i < |ns| ==> Renderable(ns[i]) }

  /** A step after another: identifiers behind a dot, anything else in brackets. */
  function RenderNext(n: PathNode): bytes
    requires Renderable(n)
  {
    match n
    case Key(k) =>
      if IsIdent(k) then [DOT] + k
      else if QUOTE !in k then [LBRACKET, QUOTE] + k + [QUOTE, RBRACKET]
      else [LBRACKET, APOSTROPHE] + k + [APOSTROPHE, RBRACKET]
    case Index(i) => [LBRACKET] + IntText(i) + [RBRACKET]
  }

  function RenderRest(ns: seq<PathNode>): bytes
    requires AllRenderable(ns)
  {
    if ns == [] then [] else RenderNext(ns[0]) + RenderRest(ns[1..])
  }

  /** A path: a leading identifier goes without its dot. */
  function Render(ns: seq<PathNode>): bytes
    requires AllRenderable(ns)
  {
    var text := RenderRest(ns);
    if ns != [] && ns[0].Key? && IsIdent(ns[0].key) then text[1..] else text
  }

  // ---- parsing undoes rendering -----------------------------------------------------------

  lemma {:induction false} ScanIdent(tok: bytes, k: bytes, rest: bytes, off: nat)
    requires TokenFits(S_IDENT, tok) && forall i :: 0 <= i < |k| ==> IsIdentChar(k[i])
    ensures TokenFits(S_IDENT, tok + k)
    ensures Scan(k + rest, S_IDENT, tok, off) == Scan(rest, S_IDENT, tok + k, off + |k|)
    decreases |k|
  {
    if k == [] {
      assert k + rest == rest && tok + k == tok;
    } else {
      assert (k + rest)[0] == k[0] && (k + rest)[1..] == k[1..] + rest;
      assert tok + [k[0]] + k[1..] == tok + k;
      ScanIdent(tok + [k[0]], k[1..], rest, off + 1);
    }
  }

  predicate IsKeyState(st: TokenizerState, quote: byte) {
    (st == S_DKEY && quote == QUOTE) || (st == S_SKEY && quote == APOSTROPHE)
  }

  lemma {:induction false} ScanQuoted(st: TokenizerState, quote: byte, tok: bytes, k: bytes, rest: bytes, off: nat)
    requires IsKeyState(st, quote) && quote !in tok && quote !in k
    ensures Scan(k + ([quote, RBRACKET] + rest), st, tok, off)
         == Then(KeyNode(tok + k), Scan(rest, S_NULL, [], off + |k| + 2))
    decreases |k|
  {
    var tail := [quote, RBRACKET] + rest;
    if k == [] {
      assert k + tail == tail && tok + k == tok && tail[2..] == rest;
    } else {
      assert (k + tail)[0] == k[0] && (k + tail)[1..] == k[1..] + tail;
      assert tok + [k[0]] + k[1..] == tok + k;
      ScanQuoted(st, quote, tok + [k[0]], k[1..], rest, off + 1);
    }
  }

  lemma {:induction false} ScanDigits(tok: bytes, d: bytes, rest: bytes, off: nat)
    requires IsNumber(tok) && AllDigits(d)
    ensures IsNumber(tok + d)
    ensures Scan(d + ([RBRACKET] + rest), S_NUMBER, tok, off)
         == Then(Index(ToInt32(TokenValue(tok + d))), Scan(rest, S_NULL, [], off + |d| + 1))
    decreases |d|
  {
    var tail := [RBRACKET] + rest;
    if d == [] {
      assert d + tail == tail && tok + d == tok && tail[1..] == rest;
    } else {
      assert (d + tail)[0] == d[0] && (d + tail)[1..] == d[1..] + tail;
      assert tok + [d[0]] + d[1..] == tok + d;
      assert (tok + [d[0]])[1..] == tok[1..] + [d[0]];
      ScanDigits(tok + [d[0]], d[1..], rest, off + 1);
    }
  }

  lemma TokenOfIndex(i: int32)
    ensures IsNumber(IntText(i)) && ToInt32(TokenValue(IntText(i))) == i
  {
    hide Digits, Value;
    if i < 0 {
      var n: nat := -(i as int);
      ValueOfDigits(n);
      assert IntText(i)[1..] == Digits(n);
    } else {
      ValueOfDigits(i);
    }
  }

  /** `[n]` is read back, behind whatever bracket the tokenizer has just passed. */
  lemma ScanIndex(i: int32, rest: bytes, off: nat)
    ensures Scan(IntText(i) + ([RBRACKET] + rest), S_BRACKET, [], off)
         == Then(Index(i), Scan(rest, S_NULL, [], off + |IntText(i)| + 1))
  {
    hide IntText, TokenValue, ToInt32, Scan;
    TokenOfIndex(i);
    var t, tail := IntText(i), [RBRACKET] + rest;
    assert t + tail != [] && (t + tail)[0] == t[0] && (t + tail)[1..] == t[1..] + tail;
    ScanSign(t + tail, off);
    if t[0] == MINUS {
      NegativeText(i);
      var u := t[1..] + tail;
      assert u[0] == t[1] && u[1..] == t[2..] + tail;
      ScanAfterSign(u, off + 1);
      assert [t[0]] + [t[1]] == t[..2] && t[..2] + t[2..] == t;
      ScanDigits(t[..2], t[2..], rest, off + 2);
    } else {
      assert [t[0]] + t[1..] == t;
      ScanDigits([t[0]], t[1..], rest, off + 1);
    }
  }

  lemma ScanSign(s: bytes, off: nat)
    requires s != []
    ensures IsDigit(s[0]) ==> Scan(s, S_BRACKET, [], off) == Scan(s[1..], S_NUMBER, [s[0]], off + 1)
    ensures s[0] == MINUS ==> Scan(s, S_BRACKET, [], off) == Scan(s[1..], S_MINUS, [s[0]], off + 1)
  {
  }

  lemma ScanAfterSign(s: bytes, off: nat)
    requires s != [] && IsDigit(s[0])
    ensures Scan(s, S_MINUS, [MINUS], off) == Scan(s[1..], S_NUMBER, [MINUS] + [s[0]], off + 1)
  {
  }

  lemma NegativeText(i: int32)
    requires IntText(i)[0] == MINUS
    ensures |IntText(i)| >= 2 && AllDigits(IntText(i)[1..]) && IsNumber(IntText(i)[..2])
  {
    if i < 0 {
      assert IntText(i)[1..] == Digits(-(i as int));
    }
  }

  /** The states in which a next step may begin: behind a bracketed step, or within an identifier. */
  predicate Ended(st: TokenizerState) { st == S_NULL || st == S_IDENT }

  /** The steps a state owes when the next step begins. */
  function Flush(st: TokenizerState, tok: bytes, r: Scanned): Scanned {
    if st == S_IDENT then Then(KeyNode(tok), r) else r
  }

  lemma ScanSeparator(st: TokenizerState, tok: bytes, s: bytes, off: nat)
    requires Ended(st) && TokenFits(st, tok) && s != []
    ensures s[0] == LBRACKET ==> Scan(s, st, tok, off) == Flush(st, tok, Scan(s[1..], S_BRACKET, [], off + 1))
    ensures s[0] == DOT && |s| > 1 ==> Scan(s, st, tok, off) == Flush(st, tok, ScanIdentStart(s[1..], off + 1))
  {
  }

  /** One rendered step, from either state; the tokenizer is then in the state that step leaves. */
  function AfterStep(n: PathNode, rest: bytes, off: nat): Scanned
    requires Renderable(n)
  {
    if n.Key? && IsIdent(n.key) then Scan(rest, S_IDENT, n.key, off) else Then(n, Scan(rest, S_NULL, [], off))
  }

  lemma ScanNext(n: PathNode, st: TokenizerState, tok: bytes, rest: bytes, off: nat)
    requires Renderable(n) && Ended(st) && TokenFits(st, tok)
    ensures Scan(RenderNext(n) + rest, st, tok, off) == Flush(st, tok, AfterStep(n, rest, off + |RenderNext(n)|))
  {
    hide Scan, IsIdent, Flush, TokenFits, IntText, Digits, Value, CString;
    var s := RenderNext(n) + rest;
    ScanSeparator(st, tok, s, off);
    match n
    case Index(i) =>
      assert s[1..] == IntText(i) + ([RBRACKET] + rest);
      ScanIndex(i, rest, off + 1);
    case Key(k) => if IsIdent(k) { ScanDotted(k, rest, off); } else { ScanBracketed(k, rest, off); }
  }

  lemma ScanDotted(k: bytes, rest: bytes, off: nat)
    requires Renderable(Key(k)) && IsIdent(k)
    ensures TokenFits(S_IDENT, k)
    ensures var s := RenderNext(Key(k)) + rest;
      s[0] == DOT && |s| > 1 && ScanIdentStart(s[1..], off + 1) == Scan(rest, S_IDENT, k, off + |k| + 1)
  {
    hide Scan;
    var s := RenderNext(Key(k)) + rest;
    assert s[1..] == k + rest && (k + rest)[1..] == k[1..] + rest;
    assert [k[0]] + k[1..] == k;
    ScanIdent([k[0]], k[1..], rest, off + 2);
  }

  lemma ScanBracketed(k: bytes, rest: bytes, off: nat)
    requires Renderable(Key(k)) && !IsIdent(k)
    ensures var s := RenderNext(Key(k)) + rest;
      && s[0] == LBRACKET && |RenderNext(Key(k))| == |k| + 4
      && Scan(s[1..], S_BRACKET, [], off + 1) == Then(Key(k), Scan(rest, S_NULL, [], off + |k| + 4))
  {
    hide Scan, IsIdent;
    var s := RenderNext(Key(k)) + rest;
    var quote := if QUOTE !in k then QUOTE else APOSTROPHE;
    assert s[1..] == [quote] + (k + ([quote, RBRACKET] + rest));
    assert s[1..][1..] == k + ([quote, RBRACKET] + rest);
    ScanOpenQuote(quote, s[1..], off + 1);
    ScanQuoted(if QUOTE !in k then S_DKEY else S_SKEY, quote, [], k, rest, off + 2);
    assert [] + k == k;
  }

  lemma ScanOpenQuote(quote: byte, s: bytes, off: nat)
    requires s != [] && s[0] == quote && (quote == QUOTE || quote == APOSTROPHE)
    ensures Scan(s, S_BRACKET, [], off) == Scan(s[1..], if quote == QUOTE then S_DKEY else S_SKEY, [], off + 1)
  {
  }

  /** The rest of a rendered path, from either state. */
  lemma {:induction false} ScanRest(ns: seq<PathNode>, st: TokenizerState, tok: bytes, off: nat)
    requires AllRenderable(ns) && Ended(st) && TokenFits(st, tok)
    ensures Scan(RenderRest(ns), st, tok, off) == Flush(st, tok, Scanned(ns, None))
    decreases |ns|
  {
    hide RenderNext, IsIdent, Renderable;
    if ns == [] {
      assert [KeyNode(tok)] + [] == [KeyNode(tok)];
    } else {
      var n, text := ns[0], RenderRest(ns[1..]);
      ScanNext(n, st, tok, text, off);
      IdentFits(n);
      var ident := n.Key? && IsIdent(n.key);
      ScanRest(ns[1..], if ident then S_IDENT else S_NULL, if ident then n.key else [], off + |RenderNext(n)|);
      assert [n] + ns[1..] == ns;
    }
  }

  lemma IdentFits(n: PathNode)
    requires Renderable(n)
    ensures n.Key? ==> KeyNode(n.key) == n
    ensures n.Key? && IsIdent(n.key) ==> TokenFits(S_IDENT, n.key)
  {
  }

  /** Parsing undoes rendering, for every list of steps that has a text. */
  lemma ParseRender(ns: seq<PathNode>)
    requires AllRenderable(ns)
    ensures ParsesAs(Render(ns), ns)
  {
    hide Scan, IsIdent, Renderable, RenderNext, Render, CString;
    if ns != [] && ns[0].Key? && IsIdent(ns[0].key) {
      var k, rest := ns[0].key, RenderRest(ns[1..]);
      FirstIdent(k);
      RenderFirst(ns);
      assert k + rest != [] && (k + rest)[0] == k[0] && (k + rest)[1..] == k[1..] + rest && [k[0]] + k[1..] == k;
      StartsIdent(k + rest);
      ScanIdent([k[0]], k[1..], rest, 1);
      IdentFits(ns[0]);
      ScanRest(ns[1..], S_IDENT, k, |k|);
      assert [ns[0]] + ns[1..] == ns;
    } else {
      NotADot(ns);
      ScanRest(ns, S_NULL, [], 0);
    }
  }

  lemma RenderFirst(ns: seq<PathNode>)
    requires AllRenderable(ns) && ns != [] && ns[0].Key? && IsIdent(ns[0].key)
    ensures Render(ns) == ns[0].key + RenderRest(ns[1..])
  {
    hide IsIdent, IntText, CString;
    var k := ns[0].key;
    assert RenderNext(ns[0]) == [DOT] + k;
    assert ([DOT] + k + RenderRest(ns[1..]))[1..] == k + RenderRest(ns[1..]);
  }

  lemma FirstIdent(k: bytes)
    requires IsIdent(k)
    ensures k != [] && IsIdentStart(k[0]) && IsIdentChar(k[0]) && k[0] != DOT
      && (forall i :: 0 <= i < |k| ==> IsIdentChar(k[i]))
  {
  }

  lemma StartsIdent(s: bytes)
    requires s != [] && IsIdentStart(s[0])
    ensures Scan(s, S_NULL, [], 0) == Scan(s[1..], S_IDENT, [s[0]], 1)
  {
  }

  lemma NotADot(ns: seq<PathNode>)
    requires AllRenderable(ns) && !(ns != [] && ns[0].Key? && IsIdent(ns[0].key))
    ensures Render(ns) != [DOT] && Render(ns) == RenderRest(ns)
  {
    hide IntText, IsIdent;
    if ns != [] {
      assert Render(ns)[0] == LBRACKET;
    }
  }

  // ---- what parses at all -----------------------------------------------------------------

  lemma CStringIn(s: bytes)
    ensures forall c :: c in CString(s) ==> c in s
  {
  }

  lemma TokenRenderable(st: TokenizerState, tok: bytes)
    requires TokenFits(st, tok) && (st == S_IDENT || st == S_ROOT || st == S_DKEY || st == S_SKEY)
    ensures Renderable(KeyNode(tok))
  {
    CStringIn(tok);
  }

  /** The tokenizer never yields a step that rendering could not spell. */
  lemma {:induction false} ScanRenderable(s: bytes, st: TokenizerState, tok: bytes, off: nat)
    requires TokenFits(st, tok)
    ensures AllRenderable(Scan(s, st, tok, off).nodes)
    decreases |s|
  {
    hide KeyNode, Renderable, TokenValue;
    assert forall i: int32 :: Renderable(Index(i)) by { IndexRenderable(); }
    if st == S_IDENT || st == S_ROOT || st == S_DKEY || st == S_SKEY {
      TokenRenderable(st, tok);
    }
    if s != [] {
      var c, rest := s[0], s[1..];
      match st
      case S_NULL =>
        ScanRenderable(rest, S_ROOT, [], off + 1);
        ScanRenderable(rest, S_BRACKET, [], off + 1);
        if IsIdentStart(c) { ScanRenderable(rest, S_IDENT, [c], off + 1); }
      case S_BRACKET =>
        ScanRenderable(rest, S_DKEY, [], off + 1);
        ScanRenderable(rest, S_SKEY, [], off + 1);
        if IsDigit(c) { ScanRenderable(rest, S_NUMBER, [c], off + 1); }
        if c == MINUS { ScanRenderable(rest, S_MINUS, [c], off + 1); }
      case S_NUMBER =>
        if IsDigit(c) { ScanRenderable(rest, S_NUMBER, tok + [c], off + 1); }
        ScanRenderable(rest, S_NULL, [], off + 1);
      case S_IDENT =>
        ScanRenderable(rest, S_DOT, [], off + 1);
        ScanRenderable(rest, S_BRACKET, [], off + 1);
        if IsIdentChar(c) { ScanRenderable(rest, S_IDENT, tok + [c], off + 1); }
      case S_DKEY =>
        if |s| > 1 { ScanRenderable(s[2..], S_NULL, [], off + 2); }
        if c != QUOTE { ScanRenderable(rest, S_DKEY, tok + [c], off + 1); }
      case S_SKEY =>
        if |s| > 1 { ScanRenderable(s[2..], S_NULL, [], off + 2); }
        if c != APOSTROPHE { ScanRenderable(rest, S_SKEY, tok + [c], off + 1); }
      case S_MINUS =>
        if IsDigit(c) { ScanRenderable(rest, S_NUMBER, tok + [c], off + 1); }
      case _ =>
        if IsIdentStart(c) { ScanRenderable(rest, S_IDENT, [c], off + 1); }
    }
  }

  lemma IndexRenderable()
    ensures forall i: int32 :: Renderable(Index(i))
  {
  }

  /**
   The step lists that some text parses to are exactly the root alone and the lists of
   renderable steps: every accepted spelling has a canonical one.
   */
  lemma Parseable(ns: seq<PathNode>)
    ensures (exists json :: ParsesAs(json, ns)) <==> ns == [Root] || AllRenderable(ns)
  {
    hide Scan, Renderable, RenderRest;
    if json :| ParsesAs(json, ns) {
      ScanRenderable(json, S_NULL, [], 0);
    }
    if ns == [Root] {
      assert ParsesAs([DOT], ns);
    }
    if AllRenderable(ns) {
      ParseRender(ns);
    }
  }

  /** What a leading dot changes: nothing, wherever it is allowed; it is allowed before an identifier. */
  lemma LeadingDot(p: bytes)
    requires p != []
    ensures Tokens([DOT] + p).err.None? <==> IsIdentStart(p[0]) && Tokens(p).err.None?
    ensures Tokens([DOT] + p).err.None? ==> Tokens([DOT] + p).nodes == Tokens(p).nodes
  {
    hide Scan;
    DotStep(p);
    if IsIdentStart(p[0]) {
      StartsIdent(p);
      OffsetIrrelevant(p[1..], S_IDENT, [p[0]], 1, 2);
    }
  }

  lemma DotStep(p: bytes)
    requires p != []
    ensures Tokens([DOT] + p) == ScanIdentStart(p, 1)
  {
    hide ScanIdentStart, IsIdentStart;
    var s := [DOT] + p;
    assert s[0] == DOT && s[1..] == p && |s| > 1;
    assert Tokens(s) == Scan(p, S_ROOT, [], 1);
  }

  lemma {:induction false} OffsetIrrelevant(s: bytes, st: TokenizerState, tok: bytes, i: nat, j: nat)
    requires TokenFits(st, tok)
    ensures Scan(s, st, tok, i).nodes == Scan(s, st, tok, j).nodes
    ensures Scan(s, st, tok, i).err.None? == Scan(s, st, tok, j).err.None?
    decreases |s|
  {
    hide KeyNode, TokenValue;
    if s != [] {
      var c, rest := s[0], s[1..];
      match st
      case S_NULL =>
        OffsetIrrelevant(rest, S_ROOT, [], i + 1, j + 1);
        OffsetIrrelevant(rest, S_BRACKET, [], i + 1, j + 1);
        if IsIdentStart(c) { OffsetIrrelevant(rest, S_IDENT, [c], i + 1, j + 1); }
      case S_BRACKET =>
        OffsetIrrelevant(rest, S_DKEY, [], i + 1, j + 1);
        OffsetIrrelevant(rest, S_SKEY, [], i + 1, j + 1);
        if IsDigit(c) { OffsetIrrelevant(rest, S_NUMBER, [c], i + 1, j + 1); }
        if c == MINUS { OffsetIrrelevant(rest, S_MINUS, [c], i + 1, j + 1); }
      case S_NUMBER =>
        if IsDigit(c) { OffsetIrrelevant(rest, S_NUMBER, tok + [c], i + 1, j + 1); }
        OffsetIrrelevant(rest, S_NULL, [], i + 1, j + 1);
      case S_IDENT =>
        OffsetIrrelevant(rest, S_DOT, [], i + 1, j + 1);
        OffsetIrrelevant(rest, S_BRACKET, [], i + 1, j + 1);
        if IsIdentChar(c) { OffsetIrrelevant(rest, S_IDENT, tok + [c], i + 1, j + 1); }
      case S_DKEY =>
        if |s| > 1 { OffsetIrrelevant(s[2..], S_NULL, [], i + 2, j + 2); }
        if c != QUOTE { OffsetIrrelevant(rest, S_DKEY, tok + [c], i + 1, j + 1); }
      case S_SKEY =>
        if |s| > 1 { OffsetIrrelevant(s[2..], S_NULL, [], i + 2, j + 2); }
        if c != APOSTROPHE { OffsetIrrelevant(rest, S_SKEY, tok + [c], i + 1, j + 1); }
      case S_MINUS =>
        if IsDigit(c) { OffsetIrrelevant(rest, S_NUMBER, tok + [c], i + 1, j + 1); }
      case _ =>
        if IsIdentStart(c) { OffsetIrrelevant(rest, S_IDENT, [c], i + 1, j + 1); }
    }
  }
}
