/**
 The tokenizer as it runs: one loop over the bytes that appends steps to a growing array.
 */
module PathMachine {
  import opened Bytes
  import opened Path

  const MAX_STEPS := 1024

  /** `SearchPath`. */
  class SearchPath {
    var nodes: array<PathNode>
    var len: nat
    var cap: nat
    var hasLeadingDot: bool

    ghost predicate Valid()
      reads this
    {
      len <= cap == nodes.Length
    }

    ghost function Contents(): seq<PathNode>
      reads this, nodes
      requires Valid()
    {
      nodes[..len]
    }

    constructor (capacity: nat)
      ensures Valid() && Contents() == [] && cap == capacity && !hasLeadingDot && fresh(nodes)
    {
      nodes := new PathNode[capacity];
      len, cap, hasLeadingDot := 0, capacity, false;
    }

    /**
     `__searchPath_append`. A full path doubles, but not beyond 1024 steps: from there on the
     source writes behind its array, and the answer is false.
     */
    method Append(pn: PathNode) returns (ok: bool)
      requires Valid()
      modifies this, nodes
      ensures Valid() && (nodes == old(nodes) || fresh(nodes)) && hasLeadingDot == old(hasLeadingDot)
      ensures ok <==> old(len) < old(cap) || old(len) < MAX_STEPS
      ensures Contents() == if ok then old(Contents()) + [pn] else old(Contents())
      ensures cap == old(cap) || (old(cap) == 0 && cap == 1) || (old(cap) < cap <= MAX_STEPS && cap <= 2 * old(cap))
    {
      if len >= cap {
        var grown := if cap == 0 then 1 else if 2 * cap < MAX_STEPS then 2 * cap else MAX_STEPS;
        if grown <= len { return false; }
        var a := new PathNode[grown];
        forall i | 0 <= i < len { a[i] := nodes[i]; }
        nodes, cap := a, grown;
      }
      nodes[len] := pn;
      len := len + 1;
      ok := true;
    }
  }

  datatype Outcome = Parsed | SyntaxError(err: PathSyntax) | PathOverflow

  datatype TokenEnd = Going | KeyEnd | IndexEnd | Broken(message: Message)

  function Tok(json: bytes, start: nat, len: nat): bytes
    requires start + len <= |json|
  {
    json[start..start + len]
  }

  /** The step that a finished token stands for. */
  function TokenNode(e: TokenEnd, tok: bytes): PathNode
    requires e == KeyEnd || (e == IndexEnd && IsNumber(tok))
  {
    if e == KeyEnd then KeyNode(tok) else Index(ToInt32(TokenValue(tok)))
  }

  /** What Scan still yields at a point of the loop. */
  ghost function Ahead(json: bytes, st: TokenizerState, offset: nat, start: nat, len: nat): Scanned
    requires start + len == offset <= |json| && TokenFits(st, Tok(json, start, len))
  {
    Scan(json[offset..], st, Tok(json, start, len), offset)
  }

  predicate InKey(st: TokenizerState) { st == S_DKEY || st == S_SKEY }

  lemma TokenGrows(json: bytes, start: nat, len: nat)
    requires start + len < |json|
    ensures Tok(json, start, len + 1) == Tok(json, start, len) + [json[start + len]]
    ensures json[start + len..][0] == json[start + len] && json[start + len..][1..] == json[start + len + 1..]
    ensures start + len + 1 < |json| ==>
      json[start + len..][1] == json[start + len + 1] && json[start + len..][2..] == json[start + len + 2..]
    ensures Tok(json, start + len + 1, 0) == [] && Tok(json, start + len, 1) == [json[start + len]]
  {
  }

  predicate Flushable(st: TokenizerState) { st == S_IDENT || st == S_ROOT }

  predicate InToken(st: TokenizerState) { InKey(st) || st == S_NUMBER || st == S_MINUS || st == S_IDENT }

  /** One turn of Scan, for the states outside tokens and for those within. */
  lemma OpenTurn(s: bytes, st: TokenizerState, off: nat)
    requires s != [] && !InToken(st)
    ensures var c, rest := s[0], s[1..];
      Scan(s, st, [], off) ==
        if st == S_NULL && c == DOT then Scan(rest, S_ROOT, [], off + 1)
        else if st == S_NULL && c == LBRACKET then Scan(rest, S_BRACKET, [], off + 1)
        else if st == S_BRACKET then
          if c == QUOTE then Scan(rest, S_DKEY, [], off + 1)
          else if c == APOSTROPHE then Scan(rest, S_SKEY, [], off + 1)
          else if IsDigit(c) then Scan(rest, S_NUMBER, [c], off + 1)
          else if c == MINUS then Scan(rest, S_MINUS, [c], off + 1)
          else Fail(BracketFirstChar, off)
        else if IsIdentStart(c) then Scan(rest, S_IDENT, [c], off + 1)
        else Fail(IdentFirstChar, off)
  {
    assert ScanIdentStart(s, off)
      == if IsIdentStart(s[0]) then Scan(s[1..], S_IDENT, [s[0]], off + 1) else Fail(IdentFirstChar, off);
    match st
    case S_NULL => if s[0] != DOT && s[0] != LBRACKET { assert Scan(s, S_NULL, [], off) == ScanIdentStart(s, off); }
    case S_ROOT => assert Scan(s, S_ROOT, [], off) == ScanIdentStart(s, off);
    case S_DOT => assert Scan(s, S_DOT, [], off) == ScanIdentStart(s, off);
    case _ =>
  }

  lemma TokenTurn(s: bytes, st: TokenizerState, tok: bytes, off: nat)
    requires s != [] && InToken(st) && TokenFits(st, tok)
    ensures var c, rest := s[0], s[1..];
      if InKey(st) then
        if c != (if st == S_DKEY then QUOTE else APOSTROPHE) then
          TokenFits(st, tok + [c]) && Scan(s, st, tok, off) == Scan(rest, st, tok + [c], off + 1)
        else if |s| > 1 && s[1] == RBRACKET then
          Scan(s, st, tok, off) == Then(KeyNode(tok), Scan(s[2..], S_NULL, [], off + 2))
        else Scan(s, st, tok, off) == Fail(MissingBracket, off)
      else if st == S_IDENT then
        if c == DOT || c == LBRACKET then
          Scan(s, st, tok, off) == Then(KeyNode(tok), Scan(rest, if c == DOT then S_DOT else S_BRACKET, [], off + 1))
        else if IsIdentChar(c) then
          TokenFits(st, tok + [c]) && Scan(s, st, tok, off) == Scan(rest, st, tok + [c], off + 1)
        else Scan(s, st, tok, off) == Fail(IdentChar, off)
      else if IsDigit(c) then
        TokenFits(S_NUMBER, tok + [c]) && Scan(s, st, tok, off) == Scan(rest, S_NUMBER, tok + [c], off + 1)
      else if st == S_NUMBER && c == RBRACKET then
        IsNumber(tok) && Scan(s, st, tok, off) == Then(Index(ToInt32(TokenValue(tok))), Scan(rest, S_NULL, [], off + 1))
      else Scan(s, st, tok, off) == Fail(if st == S_NUMBER then NumberChar else NegativeNumber, off)
  {
    hide KeyNode, TokenValue, ToInt32;
    if InKey(st) {
      assert ScanKeyEnd(s, tok, off)
        == if |s| > 1 && s[1] == RBRACKET then Then(KeyNode(tok), Scan(s[2..], S_NULL, [], off + 2))
           else Fail(MissingBracket, off);
    }
  }

  /** The states outside keys and numbers: a byte opens something, or extends or ends an identifier. */
  method ConsumeOpen(json: bytes, st: TokenizerState, offset: nat, start: nat, len: nat)
    returns (st': TokenizerState, start': nat, len': nat, e: TokenEnd)
    requires start + len == offset < |json| && TokenFits(st, Tok(json, start, len))
    requires !InToken(st) && len == 0
    ensures e.Broken? || e == Going
    ensures e.Broken? ==> Ahead(json, st, offset, start, len) == Fail(e.message, offset)
    ensures e == Going ==>
      && start' + len' == offset + 1 && TokenFits(st', Tok(json, start', len'))
      && Ahead(json, st, offset, start, len) == Ahead(json, st', offset + 1, start', len')
  {
    hide Scan;
    TokenGrows(json, start, len);
    OpenTurn(json[offset..], st, offset);
    var c := json[offset];
    st', start', len', e := st, start, len, Going;
    if st == S_NULL && c == DOT {
      start', st' := start + 1, S_ROOT;
    } else if st == S_NULL && c == LBRACKET {
      start', st' := start + 1, S_BRACKET;
    } else if st == S_BRACKET {
      if c == QUOTE {
        start', st' := start + 1, S_DKEY;
      } else if c == APOSTROPHE {
        start', st' := start + 1, S_SKEY;
      } else if IsDigit(c) {
        len', st' := len + 1, S_NUMBER;
      } else if c == MINUS {
        len', st' := len + 1, S_MINUS;
      } else {
        e := Broken(BracketFirstChar);
      }
    } else if IsIdentStart(c) {
      len', st' := len + 1, S_IDENT;
    } else {
      e := Broken(IdentFirstChar);
    }
  }

  /** The states within a token. */
  method ConsumeToken(json: bytes, st: TokenizerState, offset: nat, start: nat, len: nat)
    returns (st': TokenizerState, used: nat, e: TokenEnd)
    requires start + len == offset < |json| && TokenFits(st, Tok(json, start, len))
    requires InToken(st)
    ensures 1 <= used <= 2 && offset + used <= |json| && (e == IndexEnd ==> IsNumber(Tok(json, start, len)))
    ensures e.Broken? ==> Ahead(json, st, offset, start, len) == Fail(e.message, offset)
    ensures e == Going ==>
      && used == 1 && TokenFits(st', Tok(json, start, len + 1))
      && Ahead(json, st, offset, start, len) == Ahead(json, st', offset + 1, start, len + 1)
    ensures e == KeyEnd || e == IndexEnd ==>
      && TokenFits(st', []) && !Flushable(st')
      && Ahead(json, st, offset, start, len)
        == Then(TokenNode(e, Tok(json, start, len)), Scan(json[offset + used..], st', [], offset + used))
  {
    hide TokenValue, ToInt32, KeyNode, Scan;
    TokenGrows(json, start, len);
    TokenTurn(json[offset..], st, Tok(json, start, len), offset);
    var c := json[offset];
    st', used, e := st, 1, Going;
    if InKey(st) {
      if c == (if st == S_DKEY then QUOTE else APOSTROPHE) {
        if offset < |json| - 1 && json[offset + 1] == RBRACKET {
          st', used, e := S_NULL, 2, KeyEnd;
        } else {
          e := Broken(MissingBracket);
        }
      }
    } else if st == S_IDENT {
      if c == DOT || c == LBRACKET {
        st', e := if c == DOT then S_DOT else S_BRACKET, KeyEnd;
      } else if !IsIdentChar(c) {
        e := Broken(IdentChar);
      }
    } else if IsDigit(c) {
      st' := S_NUMBER;
    } else if st == S_NUMBER && c == RBRACKET {
      st', e := S_NULL, IndexEnd;
    } else {
      e := Broken(if st == S_NUMBER then NumberChar else NegativeNumber);
    }
  }

  /** One turn of the loop up to `tokenend`, where the last byte of the text ends an identifier. */
  method Consume(json: bytes, st: TokenizerState, offset: nat, start: nat, len: nat)
    returns (st': TokenizerState, offset': nat, start': nat, len': nat, e: TokenEnd)
    requires start + len == offset < |json| && TokenFits(st, Tok(json, start, len))
    ensures offset < offset' <= |json|
    ensures e.Broken? ==> Ahead(json, st, offset, start, len) == Fail(e.message, offset)
    ensures e == Going ==>
      && start' + len' == offset' && TokenFits(st', Tok(json, start', len'))
      && (offset' == |json| ==> !Flushable(st'))
      && Ahead(json, st, offset, start, len) == Ahead(json, st', offset', start', len')
    ensures e == KeyEnd || e == IndexEnd ==>
      && TokenFits(st', []) && (offset' == |json| ==> !Flushable(st'))
      && start' + len' <= |json| && (e == IndexEnd ==> IsNumber(Tok(json, start', len')))
      && Ahead(json, st, offset, start, len)
        == Then(TokenNode(e, Tok(json, start', len')), Scan(json[offset'..], st', [], offset'))
  {
    hide Scan, TokenFits, TokenNode;
    if InToken(st) {
      var used;
      st', used, e := ConsumeToken(json, st, offset, start, len);
      offset', start', len' := offset + used, start, if e == Going then len + 1 else len;
    } else {
      OpenTokenEmpty(st, Tok(json, start, len));
      st', start', len', e := ConsumeOpen(json, st, offset, start, len);
      offset' := offset + 1;
    }
    if e == Going && offset' == |json| && Flushable(st') {
      FlushEnd(json, st', start', len');
      st', e := S_NULL, KeyEnd;
    }
  }

  lemma OpenTokenEmpty(st: TokenizerState, tok: bytes)
    requires TokenFits(st, tok) && !InToken(st)
    ensures tok == []
  {
  }

  lemma FlushEnd(json: bytes, st: TokenizerState, start: nat, len: nat)
    requires start + len == |json| && TokenFits(st, Tok(json, start, len)) && Flushable(st)
    ensures Ahead(json, st, |json|, start, len)
         == Then(TokenNode(KeyEnd, Tok(json, start, len)), Scan(json[|json|..], S_NULL, [], |json|))
    ensures TokenFits(S_NULL, [])
  {
    assert json[|json|..] == [];
  }

  /** Steps gathered, and steps ahead. */
  function Joined(done: seq<PathNode>, ahead: Scanned): Scanned { Scanned(done + ahead.nodes, ahead.err) }

  lemma JoinedThen(done: seq<PathNode>, n: PathNode, ahead: Scanned)
    ensures Joined(done, Then(n, ahead)) == Joined(done + [n], ahead)
  {
    assert done + ([n] + ahead.nodes) == done + [n] + ahead.nodes;
  }

  /** What is known before each byte. */
  ghost predicate OnCourse(json: bytes, st: TokenizerState, offset: nat, start: nat, len: nat, done: seq<PathNode>) {
    && start + len == offset <= |json| && TokenFits(st, Tok(json, start, len))
    && (offset == |json| ==> !Flushable(st))
    && if json == [DOT] && offset == 0 then
         done == [] && Ahead(json, st, offset, start, len) == Scanned([KeyNode([])], None)
       else Joined(done, Ahead(json, st, offset, start, len)) == Tokens(json)
  }

  lemma CourseBegins(json: bytes)
    ensures OnCourse(json, S_NULL, 0, 0, 0, [])
  {
    hide KeyNode;
    assert json[0..] == json && Tok(json, 0, 0) == [];
    if json == [DOT] {
      assert json[1..] == [];
      assert Scan([], S_ROOT, [], 1) == Scanned([KeyNode([])], None);
    } else {
      var r := Scan(json, S_NULL, [], 0);
      assert [] + r.nodes == r.nodes;
    }
  }

  /** A turn that ends a token: the step goes to the path, the root's when the text is a dot. */
  lemma CourseGoesOn(json: bytes, done: seq<PathNode>, pn: PathNode, ahead: Scanned, st: TokenizerState, offset: nat)
    requires json == [DOT] ==> offset == 1
    requires offset <= |json| && TokenFits(st, []) && (offset == |json| ==> !Flushable(st))
    requires if json == [DOT] then
               done == [] && ahead == Scanned([KeyNode([])], None)
               && ahead == Then(KeyNode([]), Scan(json[offset..], st, [], offset))
             else Joined(done, ahead) == Tokens(json) && ahead == Then(pn, Scan(json[offset..], st, [], offset))
    ensures offset > 0 ==> OnCourse(json, st, offset, offset, 0, done + [if json == [DOT] then Root else pn])
    ensures |Tokens(json).nodes| > |done|
  {
    hide Scan;
    assert Tok(json, offset, 0) == [];
    var rest := Scan(json[offset..], st, [], offset);
    if json == [DOT] {
      assert rest.nodes == Then(KeyNode([]), rest).nodes[1..] == [];
      assert [] + [Root] + [] == [Root];
    } else {
      JoinedThen(done, pn, rest);
    }
  }

  lemma CourseEnds(json: bytes, st: TokenizerState, start: nat, len: nat, done: seq<PathNode>)
    requires OnCourse(json, st, |json|, start, len, done)
    ensures Tokens(json) == Scanned(done, if st == S_NULL then None else Some(PathSyntax(NoMessage, |json|)))
  {
    assert json[|json|..] == [];
    assert done + [] == done;
  }

  /**
   `_tokenizePath` on a new path: the steps and the error of the text, as long as there are
   at most 1024 steps.
   */
  method TokenizePath(json: bytes, path: SearchPath) returns (r: Outcome)
    requires path.Valid() && path.len == 0 && path.cap == 0 && !path.hasLeadingDot
    modifies path, path.nodes
    ensures path.Valid()
    ensures r == PathOverflow <==> |Tokens(json).nodes| > MAX_STEPS
    ensures r != PathOverflow ==>
      && path.Contents() == Tokens(json).nodes
      && path.hasLeadingDot == (json != [] && json[0] == DOT)
      && r == if Tokens(json).err.Some? then SyntaxError(Tokens(json).err.value) else Parsed
  {
    hide Scan, TokenFits, TokenNode, Tokens, KeyNode, Tok;
    var st, offset: nat, start: nat, len: nat := S_NULL, 0, 0, 0;
    CourseBegins(json);
    while offset < |json|
      invariant path.Valid() && (path.nodes == old(path.nodes) || fresh(path.nodes)) && path.cap <= MAX_STEPS
      invariant OnCourse(json, st, offset, start, len, path.Contents())
      invariant path.hasLeadingDot == (offset > 0 && json[0] == DOT)
      decreases |json| - offset
    {
      ghost var ahead := Ahead(json, st, offset, start, len);
      var at, e := offset, Going;
      if offset == 0 && json[0] == DOT { path.hasLeadingDot := true; }
      st, offset, start, len, e := Consume(json, st, offset, start, len);
      if e.Broken? {
        BrokenOff(json, at, path.Contents(), ahead, e.message);
        return SyntaxError(PathSyntax(e.message, at));
      }
      if e == Going {
        CourseKept(json, st, offset, start, len, path.Contents(), ahead);
      } else {
        if json == [DOT] { RootIsKey(e, Tok(json, start, len), Scan(json[offset..], st, [], offset)); }
        var pn := TokenNode(e, Tok(json, start, len));
        ghost var done, step := path.Contents(), pn;
        CourseGoesOn(json, done, step, ahead, st, offset);
        assert |json| == 1 && json[0] == DOT <==> json == [DOT];
        if e == KeyEnd && offset == 1 && |json| == 1 && json[0] == DOT { pn := Root; }
        var ok := path.Append(pn);
        if !ok { return PathOverflow; }
        assert pn == if json == [DOT] then Root else step;
        assert path.Contents() == done + [pn];
        start, len := offset, 0;
      }
    }
    CourseEnds(json, st, start, len, path.Contents());
    r := if st == S_NULL then Parsed else SyntaxError(PathSyntax(NoMessage, offset));
  }

  /** A turn within a token; the root's text has none. */
  lemma CourseKept(json: bytes, st: TokenizerState, offset: nat, start: nat, len: nat, done: seq<PathNode>,
                   ahead: Scanned)
    requires 0 < offset && start + len == offset <= |json| && TokenFits(st, Tok(json, start, len))
    requires offset == |json| ==> !Flushable(st)
    requires ahead == Ahead(json, st, offset, start, len)
    requires json == [DOT] && offset == 1 ==> ahead == Scanned([KeyNode([])], None)
    requires json != [DOT] ==> Joined(done, ahead) == Tokens(json)
    ensures OnCourse(json, st, offset, start, len, done)
  {
  }

  lemma RootIsKey(e: TokenEnd, tok: bytes, rest: Scanned)
    requires e == KeyEnd || (e == IndexEnd && IsNumber(tok))
    requires Then(TokenNode(e, tok), rest) == Scanned([KeyNode([])], None)
    ensures e == KeyEnd
  {
    assert Then(TokenNode(e, tok), rest).nodes[0] == TokenNode(e, tok);
  }

  lemma BrokenOff(json: bytes, at: nat, done: seq<PathNode>, ahead: Scanned, message: Message)
    requires ahead == Fail(message, at)
    requires if json == [DOT] && at == 0 then ahead == Scanned([KeyNode([])], None)
             else Joined(done, ahead) == Tokens(json)
    ensures Tokens(json) == Scanned(done, Some(PathSyntax(message, at)))
  {
    assert done + [] == done;
  }
}
