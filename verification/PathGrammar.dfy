/** The texts of paths, by a grammar on bytes, and what is wrong with others. */
module PathGrammar {
  // The steps of a path, each in any of its spellings. A text parses if and only if it is made of
  // such spellings; a step that goes wrong is reported where it does.

  import opened Bytes
  import opened Decimal
  import opened Numerals
  import opened Path

  // ---- the grammar --------------------------------------------------------------------------

  /** Letters, the dollar sign and the underscore. */
  predicate NameStart(c: byte) { 0x41 <= c <= 0x5a || 0x61 <= c <= 0x7a || c == 0x24 || c == 0x5f }

  /** These and the digits. */
  predicate NameByte(c: byte) { NameStart(c) || 0x30 <= c <= 0x39 }

  predicate Name(k: bytes) { k != [] && NameStart(k[0]) && forall i :: 0 <= i < |k| ==> NameByte(k[i]) }

  /**
   A step: a name, behind a dot or not; a key in quotes and brackets; a number in brackets. And a
   dot at the end of a text names the empty key.
   */
  datatype Spelled =
    | Named(dotted: bool, name: bytes)
    | Quoted(quote: byte, key: bytes)
    | Numbered(negative: bool, digits: bytes)
    | LastDot

  predicate Proper(p: Spelled) {
    match p
    case Named(_, k) => Name(k)
    case Quoted(q, k) => (q == QUOTE || q == APOSTROPHE) && q !in k
    case Numbered(_, ds) => ds != [] && Decimals(ds)
    case LastDot => true
  }

  function Text(p: Spelled): bytes {
    match p
    case Named(dotted, k) => (if dotted then [DOT] else []) + k
    case Quoted(q, k) => [LBRACKET, q] + k + [q, RBRACKET]
    case Numbered(negative, ds) => [LBRACKET] + (if negative then [MINUS] else []) + ds + [RBRACKET]
    case LastDot => [DOT]
  }

  /** A number beyond 32 bits is taken modulo 2^32, between -2^31 and 2^31. */
  predicate Meets(p: Spelled, n: PathNode)
    requires Proper(p)
  {
    match p
    case Named(_, k) => n == Key(k)
    case Quoted(_, k) => n == Key(CString(k))
    case Numbered(negative, ds) =>
      n.Index? && (n.index as int - if negative then -(Places(ds) as int) else Places(ds)) % 0x1_0000_0000 == 0
    case LastDot => n == Key([])
  }

  /** A name behind a name needs its dot; a dot at the end stands behind something in brackets. */
  predicate Follows(before: bool, p: Spelled, last: bool) {
    match p
    case Named(dotted, _) => before ==> dotted
    case LastDot => !before && last
    case _ => true
  }

  /** The spellings of a path, behind a name or not. */
  predicate Spelling(named: bool, ps: seq<Spelled>)
    decreases |ps|
  {
    ps == [] ||
    (Proper(ps[0]) && Follows(named, ps[0], |ps| == 1) && Spelling(ps[0].Named?, ps[1..]))
  }

  function Texts(ps: seq<Spelled>): bytes { if ps == [] then [] else Text(ps[0]) + Texts(ps[1..]) }

  predicate Meaning(ps: seq<Spelled>, nodes: seq<PathNode>)
    requires forall i :: 0 <= i < |ps| ==> Proper(ps[i])
  {
    |ps| == |nodes| && forall i :: 0 <= i < |ps| ==> Meets(ps[i], nodes[i])
  }

  lemma {:induction false} AllProper(named: bool, ps: seq<Spelled>)
    requires Spelling(named, ps)
    ensures forall i :: 0 <= i < |ps| ==> Proper(ps[i])
    decreases |ps|
  {
    if ps != [] { AllProper(ps[0].Named?, ps[1..]); }
  }

  // ---- one step -----------------------------------------------------------------------------

  lemma NameIsIdent(k: bytes)
    requires Name(k)
    ensures IsIdentStart(k[0]) && (forall i :: 0 <= i < |k| ==> IsIdentChar(k[i])) && TokenFits(S_IDENT, k)
    ensures KeyNode(k) == Key(k)
  {
    forall i | 0 <= i < |k| ensures k[i] != NUL { assert NameByte(k[i]); }
  }

  /** The state behind a step, with its token: a name may still go on. */
  function StateBehind(p: Spelled): TokenizerState {
    if p.Named? then S_IDENT else if p.LastDot? then S_ROOT else S_NULL
  }

  function TokenBehind(p: Spelled): bytes { if p.Named? then p.name else [] }

  lemma BehindFits(p: Spelled)
    requires Proper(p)
    ensures TokenFits(StateBehind(p), TokenBehind(p))
  {
    if p.Named? { NameIsIdent(p.name); }
  }

  /** The node of a step, read off the tokenizer. */
  function NodeOf(p: Spelled): PathNode
    requires Proper(p)
  {
    match p
    case Named(_, k) => Key(k)
    case Quoted(_, k) => Key(CString(k))
    case Numbered(negative, ds) =>
      DecimalsAreDigits(ds);
      Index(ToInt32(if negative then -(Value(ds) as int) else Value(ds)))
    case LastDot => Key([])
  }

  lemma NodeMeets(p: Spelled, n: PathNode)
    requires Proper(p)
    ensures Meets(p, n) <==> n == NodeOf(p)
  {
    hide Places, Value;
    if p.Numbered? {
      ValueIsPlaces(p.digits);
      var v := if p.negative then -(Places(p.digits) as int) else Places(p.digits);
      Wraps(v);
      if n.Index? && (n.index as int - v) % 0x1_0000_0000 == 0 { OneResidue(n.index, ToInt32(v), v); }
    }
  }

  lemma Wraps(v: int)
    ensures (ToInt32(v) as int - v) % 0x1_0000_0000 == 0
  {
  }

  lemma OneResidue(a: int32, b: int32, v: int)
    requires (a as int - v) % 0x1_0000_0000 == 0 && (b as int - v) % 0x1_0000_0000 == 0
    ensures a == b
  {
  }

  /** What a name that is still open adds in front of what follows. */
  function Owed(named: bool, name: bytes, r: Scanned): Scanned {
    if named then Then(Key(name), r) else r
  }

  /** One step from behind another: the tokenizer is then behind this one. */
  lemma ScanStep(named: bool, name: bytes, p: Spelled, rest: bytes, off: nat)
    requires (named ==> Name(name)) && (!named ==> name == []) && Proper(p) && Follows(named, p, rest == [])
    ensures TokenFits(if named then S_IDENT else S_NULL, name) && TokenFits(StateBehind(p), TokenBehind(p))
    ensures Scan(Text(p) + rest, if named then S_IDENT else S_NULL, name, off)
         == Owed(named, name, if p.Named? || p.LastDot? then
                                Scan(rest, StateBehind(p), TokenBehind(p), off + |Text(p)|)
                              else
                                Then(NodeOf(p), Scan(rest, S_NULL, [], off + |Text(p)|)))
  {
    hide Scan, NodeOf, Name, Text, Decimals, TokenFits;
    BehindFits(p);
    NameFits(named, name);
    match p
    case Named(dotted, k) => ScanName(named, name, dotted, k, rest, off);
    case Quoted(q, k) => ScanQuotedKey(if named then S_IDENT else S_NULL, name, q, k, rest, off);
    case Numbered(negative, ds) =>
      DecimalsAreDigits(ds);
      ScanNumbered(if named then S_IDENT else S_NULL, name, negative, ds, rest, off);
    case LastDot =>
      assert Text(p) + rest == [DOT] by { NothingBehind(rest); }
      DotAtEnd(off);
  }

  lemma NothingBehind(rest: bytes)
    requires rest == []
    ensures Text(LastDot) + rest == [DOT] && |Text(LastDot)| == 1
  {
  }

  lemma NameFits(named: bool, name: bytes)
    requires (named ==> Name(name)) && (!named ==> name == [])
    ensures TokenFits(if named then S_IDENT else S_NULL, name)
    ensures named ==> KeyNode(name) == Key(name)
  {
    if named { NameIsIdent(name); }
  }

  lemma ScanQuotedKey(st: TokenizerState, name: bytes, q: byte, k: bytes, rest: bytes, off: nat)
    requires Ended(st) && TokenFits(st, name) && (q == QUOTE || q == APOSTROPHE) && q !in k
    ensures var p := Quoted(q, k);
      Scan(Text(p) + rest, st, name, off)
      == Flush(st, name, Then(NodeOf(p), Scan(rest, S_NULL, [], off + |Text(p)|)))
  {
    hide Scan, Text, CString;
    var inner := k + ([q, RBRACKET] + rest);
    QuotedText(q, k, rest);
    ScanOpen(st, name, [q] + inner, off);
    assert ([q] + inner)[0] == q && ([q] + inner)[1..] == inner;
    ScanOpenQuote(q, [q] + inner, off + 1);
    ScanQuoted(if q == QUOTE then S_DKEY else S_SKEY, q, [], k, rest, off + 2);
    assert [] + k == k;
  }

  lemma DotAtEnd(off: nat)
    ensures Scan([DOT], S_NULL, [], off) == Scan([], S_ROOT, [], off + 1)
  {
  }

  lemma ScanOpen(st: TokenizerState, name: bytes, rest: bytes, off: nat)
    requires Ended(st) && TokenFits(st, name)
    ensures Scan([LBRACKET] + rest, st, name, off) == Flush(st, name, Scan(rest, S_BRACKET, [], off + 1))
  {
    assert ([LBRACKET] + rest)[1..] == rest;
  }

  lemma ScanName(named: bool, name: bytes, dotted: bool, k: bytes, rest: bytes, off: nat)
    requires (named ==> Name(name) && dotted) && (!named ==> name == []) && Name(k)
    ensures TokenFits(if named then S_IDENT else S_NULL, name) && TokenFits(S_IDENT, k)
    ensures var p := Named(dotted, k);
      Scan(Text(p) + rest, if named then S_IDENT else S_NULL, name, off)
      == Owed(named, name, Scan(rest, S_IDENT, k, off + |Text(p)|))
  {
    hide Scan, CString;
    NameIsIdent(k);
    if named { NameIsIdent(name); }
    var at := off + if dotted then 1 else 0;
    assert [k[0]] + k[1..] == k && (k + rest)[1..] == k[1..] + rest && (k + rest)[0] == k[0];
    ScanIdent([k[0]], k[1..], rest, at + 1);
    NameBegins(k + rest, at);
    if dotted {
      assert [DOT] + k + rest == [DOT] + (k + rest);
      NameBehindDot(named, name, k + rest, off);
    } else {
      assert [] + k + rest == k + rest;
    }
  }

  lemma NameBegins(s: bytes, off: nat)
    requires s != [] && NameStart(s[0])
    ensures ScanIdentStart(s, off) == Scan(s[1..], S_IDENT, [s[0]], off + 1)
    ensures Scan(s, S_NULL, [], off) == Scan(s[1..], S_IDENT, [s[0]], off + 1)
  {
  }

  lemma NameBehindDot(named: bool, name: bytes, s: bytes, off: nat)
    requires (named ==> Name(name)) && (!named ==> name == []) && s != []
    ensures TokenFits(if named then S_IDENT else S_NULL, name)
    ensures Scan([DOT] + s, if named then S_IDENT else S_NULL, name, off)
         == Owed(named, name, ScanIdentStart(s, off + 1))
  {
    if named { NameIsIdent(name); }
    assert ([DOT] + s)[1..] == s;
  }

  lemma ScanNumbered(st: TokenizerState, name: bytes, negative: bool, ds: bytes, rest: bytes, off: nat)
    requires Ended(st) && TokenFits(st, name) && ds != [] && Decimals(ds) && AllDigits(ds)
    ensures var p := Numbered(negative, ds);
      Scan(Text(p) + rest, st, name, off)
      == Flush(st, name, Then(NodeOf(p), Scan(rest, S_NULL, [], off + |Text(p)|)))
  {
    hide Scan, Value, ToInt32, NodeOf, TokenValue, Text, IsNumber, Decimals, AllDigits;
    var u := ds + ([RBRACKET] + rest);
    NumberText(negative, ds, rest);
    NumberNode(negative, ds);
    FirstDigit(ds, [RBRACKET] + rest);
    if negative {
      assert ([MINUS] + u)[0] == MINUS && ([MINUS] + u)[1..] == u;
      ScanOpen(st, name, [MINUS] + u, off);
      ScanSign([MINUS] + u, off + 1);
      ScanAfterSign(u, off + 2);
      assert [MINUS] + [ds[0]] + ds[1..] == [MINUS] + ds;
      ScanDigits([MINUS] + [ds[0]], ds[1..], rest, off + 3);
    } else {
      ScanOpen(st, name, u, off);
      ScanSign(u, off + 1);
      assert [ds[0]] + ds[1..] == [] + ds;
      ScanDigits([ds[0]], ds[1..], rest, off + 2);
    }
  }

  lemma FirstDigit(ds: bytes, rest: bytes)
    requires ds != [] && Decimals(ds)
    ensures AllDigits(ds[1..]) && IsNumber([ds[0]]) && IsNumber([MINUS] + [ds[0]]) && IsDigit(ds[0])
    ensures (ds + rest)[0] == ds[0] && (ds + rest)[1..] == ds[1..] + rest
  {
  }

  lemma NumberText(negative: bool, ds: bytes, rest: bytes)
    ensures var u := ds + ([RBRACKET] + rest);
      && Text(Numbered(negative, ds)) + rest == [LBRACKET] + (if negative then [MINUS] + u else u)
      && |Text(Numbered(negative, ds))| == |ds| + if negative then 3 else 2
  {
    var sign: bytes := if negative then [MINUS] else [];
    Regroup([LBRACKET], sign, ds, [RBRACKET], rest);
    if !negative { assert [] + (ds + ([RBRACKET] + rest)) == ds + ([RBRACKET] + rest); }
  }

  lemma QuotedText(q: byte, k: bytes, rest: bytes)
    ensures Text(Quoted(q, k)) + rest == [LBRACKET] + ([q] + (k + ([q, RBRACKET] + rest)))
    ensures |Text(Quoted(q, k))| == |k| + 4
  {
    Regroup([LBRACKET], [q], k, [q, RBRACKET], rest);
    assert [LBRACKET, q] == [LBRACKET] + [q];
  }

  lemma Regroup(a: bytes, b: bytes, c: bytes, d: bytes, e: bytes)
    ensures a + b + c + d + e == a + (b + (c + (d + e)))
  {
  }

  lemma NumberNode(negative: bool, ds: bytes)
    requires ds != [] && Decimals(ds) && AllDigits(ds)
    ensures var tok := (if negative then [MINUS] else []) + ds;
      IsNumber(tok) && NodeOf(Numbered(negative, ds)) == Index(ToInt32(TokenValue(tok)))
  {
    hide Value, ToInt32;
    if negative {
      assert ([MINUS] + ds)[1..] == ds;
    } else {
      assert [] + ds == ds;
    }
  }

  // ---- every spelling parses ------------------------------------------------------------------

  function NodesOf(ps: seq<Spelled>): seq<PathNode>
    requires forall i :: 0 <= i < |ps| ==> Proper(ps[i])
  {
    if ps == [] then [] else [NodeOf(ps[0])] + NodesOf(ps[1..])
  }

  lemma {:induction false} MeaningIsNodes(ps: seq<Spelled>, nodes: seq<PathNode>)
    requires forall i :: 0 <= i < |ps| ==> Proper(ps[i])
    ensures Meaning(ps, nodes) <==> nodes == NodesOf(ps)
    decreases |ps|
  {
    hide Meets, NodeOf;
    if ps != [] && nodes != [] {
      NodeMeets(ps[0], nodes[0]);
      MeaningIsNodes(ps[1..], nodes[1..]);
      assert nodes == [nodes[0]] + nodes[1..];
    }
  }

  /** What the steps add in front of what the text behind them comes to. */
  function Along(named: bool, name: bytes, ps: seq<Spelled>, r: Scanned): Scanned
    requires forall i :: 0 <= i < |ps| ==> Proper(ps[i])
    decreases |ps|
  {
    if ps == [] then r
    else
      Owed(named, name, if ps[0].Named? then Along(true, ps[0].name, ps[1..], r)
                        else if ps[0].LastDot? then r
                        else Then(NodeOf(ps[0]), Along(false, [], ps[1..], r)))
  }

  lemma {:induction false} AlongError(named: bool, name: bytes, ps: seq<Spelled>, r: Scanned)
    requires forall i :: 0 <= i < |ps| ==> Proper(ps[i])
    ensures Along(named, name, ps, r).err == r.err
    decreases |ps|
  {
    hide NodeOf;
    if ps != [] {
      AlongError(ps[0].Named?, TokenBehind(ps[0]), ps[1..], r);
    }
  }

  /** The steps of a path that has been spelled to its end. */
  lemma {:induction false} AlongNodes(named: bool, name: bytes, ps: seq<Spelled>, off: nat)
    requires (named ==> Name(name)) && (!named ==> name == []) && Spelling(named, ps)
    ensures forall i :: 0 <= i < |ps| ==> Proper(ps[i])
    ensures TokenFits(LastState(named, ps), LastToken(name, ps))
    ensures Along(named, name, ps, Scan([], LastState(named, ps), LastToken(name, ps), off))
         == Scanned((if named then [Key(name)] else []) + NodesOf(ps), None)
    decreases |ps|
  {
    hide NodeOf, Scan, Name, Proper, Text;
    AllProper(named, ps);
    if named { NameIsIdent(name); }
    if ps == [] {
      ScanEnds(if named then S_IDENT else S_NULL, name, off);
    } else {
      var p := ps[0];
      BehindFits(ps[|ps| - 1]);
      if p.LastDot? {
        assert ps[1..] == [] && NodesOf(ps) == [NodeOf(p)] + [];
        EmptyKey();
        ScanEnds(S_ROOT, [], off);
      } else {
        NamedNode(p);
        AlongNodes(p.Named?, TokenBehind(p), ps[1..], off);
        assert NodesOf(ps) == [NodeOf(p)] + NodesOf(ps[1..]);
      }
    }
  }

  lemma ScanEnds(st: TokenizerState, tok: bytes, off: nat)
    requires TokenFits(st, tok) && (st == S_IDENT || st == S_ROOT || st == S_NULL)
    ensures Scan([], st, tok, off) == Scanned(if st == S_NULL then [] else [KeyNode(tok)], None)
  {
  }

  lemma EmptyKey()
    ensures NodeOf(LastDot) == Key([]) && KeyNode([]) == Key([])
  {
  }

  lemma NamedNode(p: Spelled)
    requires Proper(p)
    ensures p.Named? ==> Name(p.name) && NodeOf(p) == Key(p.name)
  {
  }

  function LastState(named: bool, ps: seq<Spelled>): TokenizerState {
    if ps != [] then StateBehind(ps[|ps| - 1]) else if named then S_IDENT else S_NULL
  }

  function LastToken(name: bytes, ps: seq<Spelled>): bytes { if ps != [] then TokenBehind(ps[|ps| - 1]) else name }

  /** The steps, and then whatever the text behind them comes to. */
  lemma {:induction false} ScanSteps(named: bool, name: bytes, ps: seq<Spelled>, rest: bytes, off: nat)
    requires (named ==> Name(name)) && (!named ==> name == []) && Spelling(named, ps)
    requires ps != [] && ps[|ps| - 1].LastDot? ==> rest == []
    ensures forall i :: 0 <= i < |ps| ==> Proper(ps[i])
    ensures TokenFits(if named then S_IDENT else S_NULL, name) && TokenFits(LastState(named, ps), LastToken(name, ps))
    ensures Scan(Texts(ps) + rest, if named then S_IDENT else S_NULL, name, off)
         == Along(named, name, ps, Scan(rest, LastState(named, ps), LastToken(name, ps), off + |Texts(ps)|))
    decreases |ps|
  {
    hide Scan, NodeOf, Text, Proper;
    AllProper(named, ps);
    if named { NameIsIdent(name); }
    if ps == [] {
      assert [] + rest == rest;
    } else {
      var p, tail := ps[0], Texts(ps[1..]);
      assert Texts(ps) + rest == Text(p) + (tail + rest);
      if p.LastDot? { assert ps[1..] == [] && ps == [p] && tail + rest == []; }
      StepFollows(named, ps, rest);
      ScanStep(named, name, p, tail + rest, off);
      BehindFits(ps[|ps| - 1]);
      if !p.LastDot? {
        NamedNode(p);
        ScanSteps(p.Named?, TokenBehind(p), ps[1..], rest, off + |Text(p)|);
      }
    }
  }

  lemma StepFollows(named: bool, ps: seq<Spelled>, rest: bytes)
    requires ps != [] && Spelling(named, ps) && (ps[|ps| - 1].LastDot? ==> rest == [])
    ensures Follows(named, ps[0], Texts(ps[1..]) + rest == [])
  {
    if ps[0].LastDot? { assert ps[1..] == []; }
  }

  /** Every spelling but the dot alone, which is the root, parses as what it means. */
  lemma SpellingParses(ps: seq<Spelled>, nodes: seq<PathNode>)
    requires Spelling(false, ps) && Texts(ps) != [DOT]
    ensures forall i :: 0 <= i < |ps| ==> Proper(ps[i])
    ensures Meaning(ps, nodes) <==> ParsesAs(Texts(ps), nodes)
  {
    hide Scan, Meaning, Along, Texts, NodesOf, Proper, Spelling;
    AllProper(false, ps);
    ScanSteps(false, [], ps, [], 0);
    assert Texts(ps) + [] == Texts(ps);
    AlongNodes(false, [], ps, |Texts(ps)|);
    assert [] + NodesOf(ps) == NodesOf(ps);
    MeaningIsNodes(ps, nodes);
  }

  // ---- whatever parses is spelled so -----------------------------------------------------------

  lemma {:induction false} NameEnds(s: bytes, tok: bytes, off: nat) returns (more: bytes, rest: bytes)
    requires TokenFits(S_IDENT, tok) && Scan(s, S_IDENT, tok, off).err.None?
    ensures s == more + rest && (forall i :: 0 <= i < |more| ==> NameByte(more[i]))
    ensures rest != [] ==> rest[0] == DOT || rest[0] == LBRACKET
    decreases |s|
  {
    if s == [] || s[0] == DOT || s[0] == LBRACKET {
      more, rest := [], s;
    } else {
      more, rest := NameEnds(s[1..], tok + [s[0]], off + 1);
      more := [s[0]] + more;
    }
  }

  lemma {:induction false} QuotedEnds(s: bytes, st: TokenizerState, q: byte, tok: bytes, off: nat)
    returns (k: bytes, rest: bytes)
    requires IsKeyState(st, q) && q !in tok && Scan(s, st, tok, off).err.None?
    ensures s == k + ([q, RBRACKET] + rest) && q !in k
    decreases |s|
  {
    if s[0] == q {
      k, rest := [], s[2..];
    } else {
      k, rest := QuotedEnds(s[1..], st, q, tok + [s[0]], off + 1);
      k := [s[0]] + k;
    }
  }

  lemma {:induction false} NumberEnds(s: bytes, tok: bytes, off: nat) returns (ds: bytes, rest: bytes)
    requires IsNumber(tok) && Scan(s, S_NUMBER, tok, off).err.None?
    ensures s == ds + ([RBRACKET] + rest) && Decimals(ds)
    decreases |s|
  {
    hide ToInt32, TokenValue;
    if s[0] == RBRACKET {
      ds, rest := [], s[1..];
    } else {
      ds, rest := NumberEnds(s[1..], tok + [s[0]], off + 1);
      ds := [s[0]] + ds;
    }
  }

  /** The first step of a text that parses, behind a bracketed step or a name that is over. */
  lemma FirstSpelled(s: bytes, named: bool, name: bytes, off: nat) returns (p: Spelled, rest: bytes)
    requires (named ==> Name(name)) && (!named ==> name == []) && s != []
    requires named ==> s[0] == DOT || s[0] == LBRACKET
    requires TokenFits(if named then S_IDENT else S_NULL, name)
    requires Scan(s, if named then S_IDENT else S_NULL, name, off).err.None?
    ensures Proper(p) && Follows(named, p, rest == []) && s == Text(p) + rest
    ensures p.Named? && rest != [] ==> rest[0] == DOT || rest[0] == LBRACKET
  {
    if s[0] == LBRACKET {
      p, rest := BracketSpelled(s[1..], off + 1);
    } else {
      var dotted := s[0] == DOT;
      var k := if dotted then s[1..] else s;
      hide Scan;
      if k == [] {
        if named { NoDotLast(name, off); }
        p, rest := LastDot, [];
      } else {
        NameScanned(s, named, name, off);
        var more;
        more, rest := NameEnds(k[1..], [k[0]], off + if dotted then 2 else 1);
        p := Named(dotted, [k[0]] + more);
      }
    }
  }

  lemma NoDotLast(name: bytes, off: nat)
    requires TokenFits(S_IDENT, name)
    ensures Scan([DOT], S_IDENT, name, off).err.Some?
  {
  }

  lemma NameScanned(s: bytes, named: bool, name: bytes, off: nat)
    requires TokenFits(if named then S_IDENT else S_NULL, name) && s != [] && s[0] != LBRACKET
    requires (named ==> s[0] == DOT) && (s[0] == DOT ==> |s| > 1)
    requires Scan(s, if named then S_IDENT else S_NULL, name, off).err.None?
    ensures var dotted := s[0] == DOT;
      var k := if dotted then s[1..] else s;
      && NameStart(k[0]) && TokenFits(S_IDENT, [k[0]])
      && Scan(k[1..], S_IDENT, [k[0]], off + if dotted then 2 else 1).err.None?
  {
    ScanSeparator(if named then S_IDENT else S_NULL, name, s, off);
  }

  lemma BracketSpelled(s: bytes, off: nat) returns (p: Spelled, rest: bytes)
    requires Scan(s, S_BRACKET, [], off).err.None?
    ensures Proper(p) && !p.Named? && !p.LastDot? && [LBRACKET] + s == Text(p) + rest
  {
    hide Scan, Decimals, Text, IsNumber;
    BracketScanned(s, off);
    assert s == [s[0]] + s[1..];
    if s[0] == QUOTE || s[0] == APOSTROPHE {
      var k;
      k, rest := QuotedEnds(s[1..], if s[0] == QUOTE then S_DKEY else S_SKEY, s[0], [], off + 1);
      p := Quoted(s[0], k);
      QuotedText(s[0], k, rest);
    } else if s[0] == MINUS {
      var ds;
      ds, rest := NumberEnds(s[2..], [MINUS, s[1]], off + 2);
      p := Numbered(true, [s[1]] + ds);
      OneMoreDigit(s[1], ds);
      NumberText(true, [s[1]] + ds, rest);
      assert s[1..] == [s[1]] + s[2..];
      Grouped(s[1], ds, [RBRACKET] + rest);
    } else {
      var ds;
      ds, rest := NumberEnds(s[1..], [s[0]], off + 1);
      p := Numbered(false, [s[0]] + ds);
      OneMoreDigit(s[0], ds);
      NumberText(false, [s[0]] + ds, rest);
      Grouped(s[0], ds, [RBRACKET] + rest);
    }
  }

  lemma Grouped(d: byte, ds: bytes, rest: bytes)
    ensures [d] + ds + rest == [d] + (ds + rest)
  {
  }

  lemma OneMoreDigit(d: byte, ds: bytes)
    requires 0x30 <= d <= 0x39 && Decimals(ds)
    ensures Decimals([d] + ds)
  {
  }

  lemma BracketScanned(s: bytes, off: nat)
    requires Scan(s, S_BRACKET, [], off).err.None?
    ensures s != [] && (s[0] == QUOTE || s[0] == APOSTROPHE || s[0] == MINUS || 0x30 <= s[0] <= 0x39)
    ensures s[0] == QUOTE ==> Scan(s[1..], S_DKEY, [], off + 1).err.None?
    ensures s[0] == APOSTROPHE ==> Scan(s[1..], S_SKEY, [], off + 1).err.None?
    ensures s[0] == MINUS ==>
      && |s| >= 2 && 0x30 <= s[1] <= 0x39 && IsNumber([MINUS, s[1]])
      && Scan(s[2..], S_NUMBER, [MINUS, s[1]], off + 2).err.None?
    ensures 0x30 <= s[0] <= 0x39 ==> IsNumber([s[0]]) && Scan(s[1..], S_NUMBER, [s[0]], off + 1).err.None?
  {
    hide TokenValue, ToInt32;
    if s[0] == MINUS {
      assert [MINUS] + [s[1]] == [MINUS, s[1]] && s[1..][1..] == s[2..];
    }
  }

  lemma {:induction false} ScanSpelled(s: bytes, named: bool, name: bytes, off: nat) returns (ps: seq<Spelled>)
    requires (named ==> Name(name)) && (!named ==> name == [])
    requires named && s != [] ==> s[0] == DOT || s[0] == LBRACKET
    requires TokenFits(if named then S_IDENT else S_NULL, name)
    requires Scan(s, if named then S_IDENT else S_NULL, name, off).err.None?
    ensures Spelling(named, ps) && s == Texts(ps)
    decreases |s|
  {
    hide Scan, Text, Proper;
    if s == [] {
      ps := [];
    } else {
      var p, rest := FirstSpelled(s, named, name, off);
      ScanStep(named, name, p, rest, off);
      SomeText(p);
      BehindFits(p);
      if p.LastDot? {
        ps := [p];
      } else {
        NamedNode(p);
        ps := ScanSpelled(rest, p.Named?, TokenBehind(p), off + |Text(p)|);
        ps := [p] + ps;
      }
    }
  }

  lemma SomeText(p: Spelled)
    requires Proper(p)
    ensures Text(p) != []
  {
  }

  /** A text is a path of these steps if and only if it is a spelling of them, or the dot alone for the root. */
  lemma ParsesExactly(text: bytes, nodes: seq<PathNode>)
    ensures ParsesAs(text, nodes) <==>
      if text == [DOT] then nodes == [Root]
      else exists ps: seq<Spelled> :: Spelling(false, ps) && Texts(ps) == text && Means(ps, nodes)
  {
    hide Scan, Spelling;
    if text != [DOT] {
      if ParsesAs(text, nodes) {
        var ps := ScanSpelled(text, false, [], 0);
        SpellingParses(ps, nodes);
        assert Means(ps, nodes);
      }
      if ps: seq<Spelled> :| Spelling(false, ps) && Texts(ps) == text && Means(ps, nodes) {
        SpellingParses(ps, nodes);
      }
    }
  }

  predicate Means(ps: seq<Spelled>, nodes: seq<PathNode>) {
    (forall i :: 0 <= i < |ps| ==> Proper(ps[i])) && Meaning(ps, nodes)
  }

  /** In particular a name alone is a path of one key. */
  lemma NameAlone(k: bytes)
    requires Name(k)
    ensures ParsesAs(k, [Key(k)])
  {
    var p := Named(false, k);
    assert Texts([p]) == Text(p) + Texts([p][1..]) == k;
    assert k != [DOT];
    assert Spelling(false, [p]) && [p][1..] == [];
    SpellingParses([p], [Key(k)]);
  }

  // ---- what is wrong with a text ----------------------------------------------------------------

  /** A message, and how far behind the steps that are right it points. */
  datatype Fault = Fault(message: Message, at: nat)

  /** Behind the steps ps, the text goes wrong: by a byte that does not belong, or because it ends. */
  ghost predicate Faulty(ps: seq<Spelled>, bad: bytes, fault: Fault) {
    var named := ps != [] && ps[|ps| - 1].Named?;
    || (BadStart(named, bad) && fault == Fault(IdentFirstChar, 0))
    || (named && bad != [] && !NameByte(bad[0]) && bad[0] != DOT && bad[0] != LBRACKET && fault == Fault(IdentChar, 0))
    || (|bad| >= 2 && bad[0] == DOT && !NameStart(bad[1]) && fault == Fault(IdentFirstChar, 1))
    || (bad != [] && bad[0] == LBRACKET && FaultyBracket(bad[1..], fault))
  }

  /** The same behind an opening bracket: nothing, a wrong byte, a number that is none, a quote without its bracket. */
  ghost predicate FaultyBracket(bad: bytes, fault: Fault) {
    || (bad == [] && fault == Fault(NoMessage, 1))
    || (bad != [] && bad[0] != QUOTE && bad[0] != APOSTROPHE && bad[0] != MINUS && !(0x30 <= bad[0] <= 0x39)
        && fault == Fault(BracketFirstChar, 1))
    || (bad == [MINUS] && fault == Fault(NoMessage, 2))
    || (|bad| >= 2 && bad[0] == MINUS && !(0x30 <= bad[1] <= 0x39) && fault == Fault(NegativeNumber, 2))
    || (exists sign: bytes, ds: bytes, rest: bytes :: bad == sign + ds + rest && FaultyNumber(sign, ds, rest, fault))
    || (exists q: byte, k: bytes, rest: bytes :: bad == [q] + k + rest && FaultyQuote(q, k, rest, fault))
  }

  predicate FaultyNumber(sign: bytes, ds: bytes, rest: bytes, fault: Fault) {
    && (sign == [] || sign == [MINUS]) && ds != [] && Decimals(ds)
    && (rest != [] ==> rest[0] != RBRACKET && !(0x30 <= rest[0] <= 0x39))
    && fault == Fault(if rest == [] then NoMessage else NumberChar, 1 + |sign + ds|)
  }

  predicate FaultyQuote(q: byte, k: bytes, rest: bytes, fault: Fault) {
    && (q == QUOTE || q == APOSTROPHE) && q !in k
    && (rest == [] || (rest[0] == q && (|rest| >= 2 ==> rest[1] != RBRACKET)))
    && fault == Fault(if rest == [] then NoMessage else MissingBracket, 2 + |k|)
  }

  predicate BadStart(named: bool, bad: bytes) {
    !named && bad != [] && !NameStart(bad[0]) && bad[0] != DOT && bad[0] != LBRACKET
  }

  lemma ScanFault(st: TokenizerState, tok: bytes, bad: bytes, fault: Fault, off: nat, ps: seq<Spelled>)
    requires st == LastState(false, ps) && (ps != [] ==> !ps[|ps| - 1].LastDot?) && TokenFits(st, tok)
    requires Faulty(ps, bad, fault)
    ensures Scan(bad, st, tok, off).err == Some(PathSyntax(fault.message, off + fault.at))
  {
    if fault.at == 0 {
      FirstByteFault(st, tok, bad, off);
    } else {
      hide Scan;
      ScanSeparator(st, tok, bad, off);
      if bad[0] == LBRACKET { BracketFault(bad[1..], fault, off + 1); }
    }
  }

  lemma FirstByteFault(st: TokenizerState, tok: bytes, bad: bytes, off: nat)
    requires (st == S_NULL || st == S_IDENT) && TokenFits(st, tok) && bad != [] && bad[0] != DOT && bad[0] != LBRACKET
    requires if st == S_NULL then !NameStart(bad[0]) else !NameByte(bad[0])
    ensures Scan(bad, st, tok, off).err == Some(PathSyntax(if st == S_NULL then IdentFirstChar else IdentChar, off))
  {
  }

  lemma BracketFault(bad: bytes, fault: Fault, off: nat)
    requires FaultyBracket(bad, fault)
    ensures Scan(bad, S_BRACKET, [], off).err == Some(PathSyntax(fault.message, off + fault.at - 1))
  {
    hide Scan;
    if sign: bytes, ds: bytes, rest: bytes :| bad == sign + ds + rest && FaultyNumber(sign, ds, rest, fault) {
      NumberFault(sign, ds, rest, off);
    } else if q: byte, k: bytes, rest: bytes :| bad == [q] + k + rest && FaultyQuote(q, k, rest, fault) {
      QuoteFault(q, k, rest, off);
    } else {
      ShortFault(bad, off);
    }
  }

  lemma ShortFault(bad: bytes, off: nat)
    requires bad != [] ==> bad[0] != QUOTE && bad[0] != APOSTROPHE && !(0x30 <= bad[0] <= 0x39)
    requires |bad| >= 2 && bad[0] == MINUS ==> !(0x30 <= bad[1] <= 0x39)
    ensures Scan(bad, S_BRACKET, [], off).err
         == Some(if bad == [] then PathSyntax(NoMessage, off)
                 else if bad[0] != MINUS then PathSyntax(BracketFirstChar, off)
                 else PathSyntax(if |bad| == 1 then NoMessage else NegativeNumber, off + 1))
  {
  }

  lemma {:induction false} DigitsOn(tok: bytes, ds: bytes, rest: bytes, off: nat)
    requires IsNumber(tok) && Decimals(ds)
    ensures IsNumber(tok + ds) && Scan(ds + rest, S_NUMBER, tok, off) == Scan(rest, S_NUMBER, tok + ds, off + |ds|)
    decreases |ds|
  {
    hide TokenValue, ToInt32;
    if ds == [] {
      assert ds + rest == rest && tok + ds == tok;
    } else {
      assert (ds + rest)[0] == ds[0] && (ds + rest)[1..] == ds[1..] + rest && tok + [ds[0]] + ds[1..] == tok + ds;
      DigitsOn(tok + [ds[0]], ds[1..], rest, off + 1);
    }
  }

  lemma NumberFault(sign: bytes, ds: bytes, rest: bytes, off: nat)
    requires (sign == [] || sign == [MINUS]) && ds != [] && Decimals(ds)
    requires rest != [] ==> rest[0] != RBRACKET && !(0x30 <= rest[0] <= 0x39)
    ensures Scan(sign + ds + rest, S_BRACKET, [], off).err
         == Some(PathSyntax(if rest == [] then NoMessage else NumberChar, off + |sign + ds|))
  {
    hide Scan;
    var u := ds + rest;
    assert sign + ds + rest == sign + u && u[1..] == ds[1..] + rest && [ds[0]] + ds[1..] == ds;
    if sign == [] {
      assert sign + u == u;
      ScanSign(u, off);
      DigitsOn([ds[0]], ds[1..], rest, off + 1);
      NumberStops(ds, rest, off + |ds|);
    } else {
      assert (sign + u)[1..] == u;
      ScanSign(sign + u, off);
      ScanAfterSign(u, off + 1);
      assert [MINUS] + [ds[0]] + ds[1..] == sign + ds && ([MINUS] + [ds[0]])[1..] == [ds[0]];
      DigitsOn([MINUS] + [ds[0]], ds[1..], rest, off + 2);
      NumberStops(sign + ds, rest, off + |sign + ds|);
    }
  }

  lemma NumberStops(tok: bytes, rest: bytes, off: nat)
    requires IsNumber(tok) && (rest != [] ==> rest[0] != RBRACKET && !(0x30 <= rest[0] <= 0x39))
    ensures Scan(rest, S_NUMBER, tok, off).err == Some(PathSyntax(if rest == [] then NoMessage else NumberChar, off))
  {
  }

  lemma {:induction false} KeyOn(st: TokenizerState, q: byte, tok: bytes, k: bytes, rest: bytes, off: nat)
    requires IsKeyState(st, q) && q !in tok && q !in k
    ensures Scan(k + rest, st, tok, off) == Scan(rest, st, tok + k, off + |k|)
    decreases |k|
  {
    if k == [] {
      assert k + rest == rest && tok + k == tok;
    } else {
      assert (k + rest)[0] == k[0] && (k + rest)[1..] == k[1..] + rest && tok + [k[0]] + k[1..] == tok + k;
      KeyOn(st, q, tok + [k[0]], k[1..], rest, off + 1);
    }
  }

  lemma QuoteFault(q: byte, k: bytes, rest: bytes, off: nat)
    requires (q == QUOTE || q == APOSTROPHE) && q !in k
    requires rest == [] || (rest[0] == q && (|rest| >= 2 ==> rest[1] != RBRACKET))
    ensures Scan([q] + k + rest, S_BRACKET, [], off).err
         == Some(PathSyntax(if rest == [] then NoMessage else MissingBracket, off + 1 + |k|))
  {
    hide Scan;
    var st := if q == QUOTE then S_DKEY else S_SKEY;
    assert [q] + k + rest == [q] + (k + rest) && ([q] + (k + rest))[1..] == k + rest && [] + k == k;
    ScanOpenQuote(q, [q] + (k + rest), off);
    KeyOn(st, q, [], k, rest, off + 1);
    KeyStops(st, q, k, rest, off + 1 + |k|);
  }

  lemma KeyStops(st: TokenizerState, q: byte, tok: bytes, rest: bytes, off: nat)
    requires IsKeyState(st, q) && q !in tok && (rest == [] || (rest[0] == q && (|rest| >= 2 ==> rest[1] != RBRACKET)))
    ensures Scan(rest, st, tok, off).err == Some(PathSyntax(if rest == [] then NoMessage else MissingBracket, off))
  {
  }

  /** Where a text goes wrong behind steps that are right, the message and the offset say so. */
  lemma FaultReported(ps: seq<Spelled>, bad: bytes, fault: Fault)
    requires Spelling(false, ps) && (ps != [] ==> !ps[|ps| - 1].LastDot?) && Faulty(ps, bad, fault)
    requires Texts(ps) + bad != [DOT]
    ensures Tokens(Texts(ps) + bad).err == Some(PathSyntax(fault.message, |Texts(ps)| + fault.at))
  {
    hide Scan, Along, Faulty, FaultyBracket, Spelling, Texts, Proper, TokenFits;
    AllProper(false, ps);
    ScanSteps(false, [], ps, bad, 0);
    ScanFault(LastState(false, ps), LastToken([], ps), bad, fault, |Texts(ps)|, ps);
    AlongError(false, [], ps, Scan(bad, LastState(false, ps), LastToken([], ps), |Texts(ps)|));
  }
}
