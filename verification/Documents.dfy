/** JSON text by its grammar: every document is read as what it means. */
module Documents {
  // A document is written out with all its white space and escapes, and has a meaning of its own. The
  // theorem follows the text through lexer and callbacks, as the round trip does, but for every
  // spelling of a value and not just for the printed one.

  import opened Bytes
  import opened Errors
  import opened Nodes
  import opened Lexer
  import opened Parser
  import opened RoundTrip
  import opened Numbers
  import opened Strings
  import TwoStacks

  // ---- the grammar --------------------------------------------------------------------------

  datatype Doc =
    | NullDoc
    | TrueDoc
    | FalseDoc
    | NumberDoc(numeral: Numeral)
    | StringDoc(chars: seq<Char>)
    | ListDoc(gap: bytes, elems: seq<Elem>)
    | ObjectDoc(gap: bytes, elems: seq<Elem>)

  /** An element of a list, or of an object if it has a key, with white space around it. */
  datatype Elem = Elem(before: bytes, key: Option<Key>, doc: Doc, after: bytes)

  /** A key and the white space on both sides of its colon. */
  datatype Key = Key(chars: seq<Char>, after: bytes, next: bytes)

  predicate Blank(w: bytes) {
    forall i :: 0 <= i < |w| ==> w[i] == 0x20 || w[i] == 0x09 || w[i] == 0x0a || w[i] == 0x0d
  }

  predicate Bracketed(doc: Doc) { doc.ListDoc? || doc.ObjectDoc? }

  predicate DocFits(doc: Doc)
    decreases doc, 1
  {
    match doc
    case NumberDoc(n) => NumeralFits(n)
    case StringDoc(chars) => CharsFit(chars)
    case ListDoc(gap, es) => Blank(gap) && ElemsFit(es, false)
    case ObjectDoc(gap, es) => Blank(gap) && ElemsFit(es, true)
    case _ => true
  }

  predicate ElemFits(e: Elem, keyed: bool)
    decreases e, 2
  {
    && e.key.Some? == keyed && (keyed ==> KeyFits(e.key.value))
    && Blank(e.before) && DocFits(e.doc) && Blank(e.after)
  }

  predicate KeyFits(k: Key) { CharsFit(k.chars) && Blank(k.after) && Blank(k.next) }

  predicate ElemsFit(es: seq<Elem>, keyed: bool)
    decreases es, 0
  {
    es == [] || (ElemFits(es[0], keyed) && ElemsFit(es[1..], keyed))
  }

  function DocText(doc: Doc): bytes
    decreases doc, 1
  {
    match doc
    case NullDoc => [0x6e, 0x75, 0x6c, 0x6c]
    case TrueDoc => [0x74, 0x72, 0x75, 0x65]
    case FalseDoc => [0x66, 0x61, 0x6c, 0x73, 0x65]
    case NumberDoc(n) => NumeralText(n)
    case StringDoc(chars) => StringText(chars)
    case ListDoc(gap, es) => [0x5b] + (gap + (ElemsText(es) + [0x5d]))
    case ObjectDoc(gap, es) => [0x7b] + (gap + (ElemsText(es) + [0x7d]))
  }

  function ElemText(e: Elem): bytes
    decreases e, 2
  {
    HeadText(e) + (DocText(e.doc) + e.after)
  }

  function HeadText(e: Elem): bytes { e.before + if e.key.None? then [] else KeyText(e.key.value) }

  function KeyText(k: Key): bytes { StringText(k.chars) + (k.after + ([0x3a] + k.next)) }

  function ElemsText(es: seq<Elem>): bytes
    decreases es, 0
  {
    if es == [] then [] else ElemText(es[0]) + MoreText(es[1..])
  }

  /** The elements behind the first, each with its comma. */
  function MoreText(es: seq<Elem>): bytes
    decreases es, 0
  {
    if es == [] then [] else [0x2c] + (ElemText(es[0]) + MoreText(es[1..]))
  }

  // ---- what it means ----------------------------------------------------------------------------

  /** The value; None if a number in it is refused. A string in a key ends at its first NUL. */
  function DocMeans(doc: Doc, strtod: FloatReader): (v: Option<Node>)
    requires DocFits(doc)
    ensures v.Some? ==> !v.value.KeyVal?
    decreases doc, 1
  {
    match doc
    case NullDoc => Some(Null)
    case TrueDoc => Some(Boolean(true))
    case FalseDoc => Some(Boolean(false))
    case NumberDoc(n) => NumeralMeans(n, strtod)
    case StringDoc(chars) => Some(Text(StringMeans(chars)))
    case ListDoc(_, es) =>
      (match ElemsMean(es, false, strtod)
       case None => None
       case Some(items) => Some(Array(items)))
    case ObjectDoc(_, es) =>
      (match ElemsMean(es, true, strtod)
       case None => None
       case Some(pairs) => Some(Dict(Gathered([], pairs))))
  }

  function ElemMeans(e: Elem, keyed: bool, strtod: FloatReader): (v: Option<Node>)
    requires ElemFits(e, keyed)
    ensures v.Some? ==> v.value.KeyVal? == keyed
    decreases e, 2
  {
    match DocMeans(e.doc, strtod)
    case None => None
    case Some(v) => Some(if keyed then KeyVal(CString(StringMeans(e.key.value.chars)), v) else v)
  }

  function ElemsMean(es: seq<Elem>, keyed: bool, strtod: FloatReader): (vs: Option<seq<Node>>)
    requires ElemsFit(es, keyed)
    ensures vs.Some? ==> |vs.value| == |es| && forall i :: 0 <= i < |es| ==> vs.value[i].KeyVal? == keyed
    decreases es, 0
  {
    if es == [] then Some([])
    else
      match ElemMeans(es[0], keyed, strtod)
      case None => None
      case Some(v) =>
        match ElemsMean(es[1..], keyed, strtod)
        case None => None
        case Some(vs) => Some([v] + vs)
  }

  /** The entries of an object set one after the other. */
  function Gathered(done: seq<Node>, pairs: seq<Node>): (r: seq<Node>)
    requires AllKeyVals(done) && AllKeyVals(pairs)
    ensures AllKeyVals(r)
    decreases |pairs|
  {
    if pairs == [] then done else Gathered(SetKeyVal(done, pairs[0]), pairs[1..])
  }

  /** The last pair with its key. */
  ghost predicate LastOf(pairs: seq<Node>, e: Node)
    requires AllKeyVals(pairs)
  {
    exists i :: 0 <= i < |pairs| && pairs[i] == e && forall j :: i < j < |pairs| ==> pairs[j].key != e.key
  }

  /** Of pairs with one key the last is kept, and only one. */
  lemma ObjectKeepsLast(pairs: seq<Node>)
    requires AllKeyVals(pairs)
    ensures DistinctKeys(Gathered([], pairs))
    ensures forall e :: e in Gathered([], pairs) <==> LastOf(pairs, e)
  {
    KeepsLast([], pairs);
  }

  lemma {:induction false} KeepsLast(done: seq<Node>, pairs: seq<Node>)
    requires AllKeyVals(done) && AllKeyVals(pairs) && DistinctKeys(done)
    ensures DistinctKeys(Gathered(done, pairs))
    ensures forall e :: e in Gathered(done, pairs) <==>
      LastOf(pairs, e) || (e in done && forall j :: 0 <= j < |pairs| ==> pairs[j].key != e.key)
    decreases |pairs|
  {
    hide SetKeyVal, DistinctKeys;
    if pairs != [] {
      var kv, rest := pairs[0], pairs[1..];
      var set1 := SetKeyVal(done, kv);
      SetKeyValDistinct(done, kv);
      KeepsLast(set1, rest);
      forall e ensures e in Gathered(done, pairs) <==>
        LastOf(pairs, e) || (e in done && forall j :: 0 <= j < |pairs| ==> pairs[j].key != e.key)
      {
        SetHolds(done, kv, e);
        LastLater(pairs, e);
      }
    }
  }

  lemma SetHolds(done: seq<Node>, kv: Node, e: Node)
    requires AllKeyVals(done) && DistinctKeys(done) && kv.KeyVal?
    ensures e in SetKeyVal(done, kv) <==> e == kv || (e in done && e.key != kv.key)
  {
    hide SetKeyVal, Find;
    var r, i := SetKeyVal(done, kv), Find(done, kv.key);
    SetKeyValDistinct(done, kv);
    if e in done && e.key != kv.key {
      var j :| 0 <= j < |done| && done[j] == e;
      assert j != i && r[j] == e;
    }
    if e in r {
      var j :| 0 <= j < |r| && r[j] == e;
      if j != i { assert e == done[j] && e.key != kv.key; }
    }
  }

  lemma LastLater(pairs: seq<Node>, e: Node)
    requires AllKeyVals(pairs) && pairs != []
    ensures LastOf(pairs, e) <==>
      LastOf(pairs[1..], e) || (e == pairs[0] && forall j :: 1 <= j < |pairs| ==> pairs[j].key != e.key)
  {
    var rest := pairs[1..];
    if LastOf(rest, e) {
      var i :| 0 <= i < |rest| && rest[i] == e && forall j :: i < j < |rest| ==> rest[j].key != e.key;
      assert pairs[i + 1] == e;
      forall j | i + 1 < j < |pairs| ensures pairs[j].key != e.key {
        assert pairs[j] == rest[j - 1];
      }
    }
    if LastOf(pairs, e) {
      var i :| 0 <= i < |pairs| && pairs[i] == e && forall j :: i < j < |pairs| ==> pairs[j].key != e.key;
      if i > 0 {
        assert rest[i - 1] == e;
        forall j | i - 1 < j < |rest| ensures rest[j].key != e.key {
          assert rest[j] == pairs[j + 1];
        }
      }
    }
  }

  // ---- room ---------------------------------------------------------------------------------------

  /** Lexer frames the text needs on top of its container's. */
  function Frames(doc: Doc): (d: nat)
    ensures d >= 1
    decreases doc, 1
  {
    if Bracketed(doc) then 1 + MostFrames(doc.elems) else 1
  }

  function MostFrames(es: seq<Elem>): nat
    decreases es, 0
  {
    if es == [] then 0 else Max(Frames(es[0].doc), MostFrames(es[1..]))
  }

  /** Slots of the node stack; a key takes one. */
  function Slots(doc: Doc): (d: nat)
    ensures d >= 1
    decreases doc, 1
  {
    if Bracketed(doc) then 1 + MostSlots(doc.elems) else 1
  }

  function MostSlots(es: seq<Elem>): nat
    decreases es, 0
  {
    if es == [] then 0
    else Max((if es[0].key.Some? then 1 else 0) + Slots(es[0].doc), MostSlots(es[1..]))
  }

  // ---- values ---------------------------------------------------------------------------------------

  /** The parser is behind the text in state s' with these nodes; without nodes it has stopped at an invalid number. */
  ghost predicate Reaches(inp: Input, s: Lex, nodes: seq<Node>, text: bytes, s': Lex, nodes': Option<seq<Node>>,
                          rest: bytes)
    requires Valid(s) && Valid(s')
  {
    var p := ParseBytes(inp, Parsing(s, nodes), text + rest);
    if nodes'.None? then StoppedBy(p, CallbackError(InvalidNumber))
    else p == ParseBytes(inp, Parsing(s', nodes'.value), rest)
  }

  /** One text behind another. */
  lemma ReachesTwice(inp: Input, s: Lex, nodes: seq<Node>, a: bytes, s1: Lex, nodes1: Option<seq<Node>>, b: bytes,
                     s2: Lex, nodes2: Option<seq<Node>>, rest: bytes)
    requires Valid(s) && Valid(s1) && Valid(s2) && Reaches(inp, s, nodes, a, s1, nodes1, b + rest)
    requires if nodes1.None? then nodes2.None? else Reaches(inp, s1, nodes1.value, b, s2, nodes2, rest)
    ensures Reaches(inp, s, nodes, a + b, s2, nodes2, rest)
  {
    hide ParseBytes, StoppedBy;
    assert a + b + rest == a + (b + rest);
  }

  predicate Closes(rest: bytes) { rest != [] && Terminator(rest[0]) }

  /** A number or a word ends only where the next byte says so. */
  predicate SelfEnding(doc: Doc) { Bracketed(doc) || doc.StringDoc? }

  predicate Ended(e: Elem, rest: bytes) { SelfEnding(e.doc) || Closes(e.after + rest) }

  predicate LastEnded(es: seq<Elem>, rest: bytes) { es != [] ==> Ended(es[|es| - 1], rest) }

  lemma BlankIsWhitespace(w: bytes)
    ensures Blank(w) <==> AllWhitespace(w)
  {
  }

  /** The text of any document, read where a value may start. */
  lemma {:induction false} ReadDoc(inp: Input, s: Lex, nodes: seq<Node>, doc: Doc, rest: bytes)
    requires ValueReady(s) && HasPlace(s, nodes) && Room(inp, s, nodes, Frames(doc), Slots(doc))
    requires DocFits(doc) && (SelfEnding(doc) || Closes(rest)) && (Top(s).kind == RootFrame ==> Bracketed(doc))
    requires At(inp.text, s.pos, DocText(doc) + rest)
    ensures Arrives(inp, s, nodes, DocText(doc), DocMeans(doc, inp.strtod), rest)
    decreases doc, 0
  {
    hide ParseBytes, Clean, NumeralText, StringText, NumeralFits, CharsFit, NumeralMeans, StringMeans, Placed, At;
    DoneValid(s, |DocText(doc)|);
    match doc
    case NullDoc => ParseWord(inp, s, nodes, NullWord, rest);
    case TrueDoc => ParseWord(inp, s, nodes, TrueWord, rest);
    case FalseDoc => ParseWord(inp, s, nodes, FalseWord, rest);
    case NumberDoc(n) => ParseNumeral(inp, s, nodes, n, rest);
    case StringDoc(chars) => ParseStringText(inp, s, nodes, chars, rest);
    case ListDoc(gap, es) => ReadContainer(inp, s, nodes, doc, rest);
    case ObjectDoc(gap, es) => ReadContainer(inp, s, nodes, doc, rest);
  }

  lemma ReadContainer(inp: Input, s: Lex, nodes: seq<Node>, doc: Doc, rest: bytes)
    requires Bracketed(doc)
    requires ValueReady(s) && HasPlace(s, nodes) && Room(inp, s, nodes, Frames(doc), Slots(doc))
    requires DocFits(doc) && At(inp.text, s.pos, DocText(doc) + rest)
    ensures Arrives(inp, s, nodes, DocText(doc), DocMeans(doc, inp.strtod), rest)
    decreases doc.elems, 5
  {
    hide ParseBytes, ElemReady, Clean, ElemsText, At, Placed, HasPlace, ElemsFit, ElemsMean, StoppedBy;
    var es, keyed := doc.elems, doc.ObjectDoc?;
    var kind := if keyed then ObjectFrame else ListFrame;
    var close := if keyed then RBRACE else RBRACKET;
    var inner, behind := ElemsText(es), [close] + rest;
    ContainerPieces(inp.text, s.pos, doc, rest);
    BlankIsWhitespace(doc.gap);
    var s2, nodes1 := Opened(s, kind).(pos := s.pos + 1 + |doc.gap|), nodes + [if keyed then Dict([]) else Array([])];
    ParseOpening(inp, s, nodes, kind, doc.gap, inner + behind);
    OpenedReady(s, nodes1, kind, s2.pos);
    DoneValid(s, |DocText(doc)|);
    BracketEnds(es, keyed, close, rest);
    ReadElems(inp, s2, nodes1, es, keyed, behind);
    var means := ElemsMean(es, keyed, inp.strtod);
    if means.Some? {
      ContainerCloses(inp, s, nodes, doc, means.value, rest);
    }
  }

  lemma ContainerPieces(text: bytes, pos: nat, doc: Doc, rest: bytes)
    requires Bracketed(doc) && At(text, pos, DocText(doc) + rest)
    ensures var open, close := if doc.ObjectDoc? then LBRACE else LBRACKET, if doc.ObjectDoc? then RBRACE else RBRACKET;
      var inner, behind := ElemsText(doc.elems), [close] + rest;
      && DocText(doc) + rest == [open] + (doc.gap + (inner + behind))
      && |DocText(doc)| == 1 + |doc.gap| + |inner| + 1
      && At(text, pos + 1 + |doc.gap|, inner + behind)
  {
    hide At, ElemsText;
    var open, close := if doc.ObjectDoc? then LBRACE else LBRACKET, if doc.ObjectDoc? then RBRACE else RBRACKET;
    var inner, behind := ElemsText(doc.elems), [close] + rest;
    assert DocText(doc) == [open] + (doc.gap + (inner + [close]));
    assert DocText(doc) + rest == [open] + (doc.gap + (inner + behind));
    AtConcat(text, pos, [open], doc.gap + (inner + behind));
    AtConcat(text, pos + 1, doc.gap, inner + behind);
  }

  /** The closing bracket behind the elements. */
  lemma ContainerCloses(inp: Input, s: Lex, nodes: seq<Node>, doc: Doc, vs: seq<Node>, rest: bytes)
    requires Bracketed(doc) && DocFits(doc)
    requires ValueReady(s) && HasPlace(s, nodes) && |s.frames| < |s.nescapes|
    requires ElemsMean(doc.elems, doc.ObjectDoc?, inp.strtod) == Some(vs)
    ensures var keyed := doc.ObjectDoc?;
      var kind, close := if keyed then ObjectFrame else ListFrame, if keyed then RBRACE else RBRACKET;
      var nodes1 := nodes + [if keyed then Dict([]) else Array([])];
      var s3 := Behind(Opened(s, kind).(pos := s.pos + 1 + |doc.gap|), doc.elems, |ElemsText(doc.elems)|, keyed);
      && Valid(s3)
      && ParseBytes(inp, Parsing(s3, ElemsPlaced(nodes1, vs, keyed)), [close] + rest)
         == ParseBytes(inp, Parsing(Done(s, |DocText(doc)|), Placed(s, nodes, DocMeans(doc, inp.strtod).value)), rest)
  {
    hide ParseBytes, Clean, ElemsText, Placed, HasPlace, ElemsFit, ElemsMean, ElemsPlaced, Gathered, OnEvent;
    var keyed, es, v := doc.ObjectDoc?, doc.elems, DocMeans(doc, inp.strtod).value;
    var kind, close := if keyed then ObjectFrame else ListFrame, if keyed then RBRACE else RBRACKET;
    var nodes1 := nodes + [if keyed then Dict([]) else Array([])];
    var s2, inner := Opened(s, kind).(pos := s.pos + 1 + |doc.gap|), |ElemsText(es)|;
    var s3 := Behind(s2, es, inner, keyed);
    MeansPlaced(nodes, vs, keyed);
    if es == [] { assert inner == 0 by { NoText(es); } }
    assert [] + ([close] + rest) == [close] + rest;
    EachCloses(inp, s, kind, s2, s3, vs, |doc.gap|, inner, nodes + [v], [], rest);
    ContainerPlaced(inp, s, nodes, v, Pop(kind, NoSpecial, 0, s.pos, s.pos));
  }

  lemma NoText(es: seq<Elem>)
    requires es == []
    ensures ElemsText(es) == []
  {
  }

  /** The container on top of the stack is filled with what its elements mean. */
  lemma MeansPlaced(nodes: seq<Node>, vs: seq<Node>, keyed: bool)
    requires forall i :: 0 <= i < |vs| ==> vs[i].KeyVal? == keyed
    ensures ElemsPlaced(nodes + [if keyed then Dict([]) else Array([])], vs, keyed)
         == nodes + [if keyed then Dict(Gathered([], vs)) else Array(vs)]
  {
    hide ElemsPlaced, Gathered;
    if keyed {
      GatheredPlaced(nodes, [], vs);
    } else {
      ItemsPlaced(nodes, [], vs);
      assert [] + vs == vs;
    }
  }

  lemma {:induction false} GatheredPlaced(nodes: seq<Node>, done: seq<Node>, pairs: seq<Node>)
    requires AllKeyVals(done) && AllKeyVals(pairs)
    ensures ElemsPlaced(nodes + [Dict(done)], pairs, true) == nodes + [Dict(Gathered(done, pairs))]
    decreases |pairs|
  {
    hide SetKeyVal;
    if pairs != [] {
      GatheredPlaced(nodes, SetKeyVal(done, pairs[0]), pairs[1..]);
      assert ElemPlaced(nodes + [Dict(done)], pairs[0]) == nodes + [Dict(SetKeyVal(done, pairs[0]))];
    }
  }

  // ---- elements -------------------------------------------------------------------------------------

  /** The lexer behind the elements. */
  function Behind(s: Lex, es: seq<Elem>, len: nat, keyed: bool): Lex
    requires s.frames != []
  {
    if es == [] then s else ElemsDone(s, |es|, len, keyed)
  }

  function PlacedAll(nodes: seq<Node>, vs: Option<seq<Node>>, keyed: bool): Option<seq<Node>>
    requires HasSlot(nodes, keyed) && (vs.Some? ==> forall i :: 0 <= i < |vs.value| ==> vs.value[i].KeyVal? == keyed)
  {
    if vs.None? then None else Some(ElemsPlaced(nodes, vs.value, keyed))
  }

  lemma ElemsDoneValid(s: Lex, k: nat, len: nat, keyed: bool)
    requires Valid(s) && !s.inEscape
    ensures Valid(ElemsDone(s, k, len, keyed))
  {
  }

  lemma ReadElems(inp: Input, s: Lex, nodes: seq<Node>, es: seq<Elem>, keyed: bool, rest: bytes)
    requires ElemReady(s, nodes, keyed) && ElemsFit(es, keyed)
    requires Room(inp, s, nodes, MostFrames(es), MostSlots(es))
    requires LastEnded(es, rest) && At(inp.text, s.pos, ElemsText(es) + rest)
    ensures Valid(Behind(s, es, |ElemsText(es)|, keyed))
    ensures Reaches(inp, s, nodes, ElemsText(es), Behind(s, es, |ElemsText(es)|, keyed),
        PlacedAll(nodes, ElemsMean(es, keyed, inp.strtod), keyed), rest)
    decreases es, 4
  {
    hide ParseBytes, ElemText, MoreText, At, ElemFits, ElemMeans, ElemPlaced, Clean, HasSlot, Reaches, PlacedAll,
        ElemsMean, LastEnded;
    if es == [] {
      NothingRead(inp, s, nodes, keyed, rest);
    } else {
      var first, tail := ElemText(es[0]), MoreText(es[1..]);
      var s1, v := ElemsDone(s, 1, |first|, keyed), ElemMeans(es[0], keyed, inp.strtod);
      assert ElemsText(es) + rest == first + (tail + rest);
      FirstEnded(es, keyed, rest);
      ReadElem(inp, s, nodes, es[0], keyed, tail + rest);
      AtConcat(inp.text, s.pos, first, tail + rest);
      ElemsDoneValid(s, |es|, |ElemsText(es)|, keyed);
      var all := PlacedAll(nodes, ElemsMean(es, keyed, inp.strtod), keyed);
      PlacedStep(nodes, es, keyed, inp.strtod);
      if v.Some? {
        ElemOverAfter(s, nodes, ElemPlaced(nodes, v.value), |first|, keyed);
        ReadMore(inp, s1, ElemPlaced(nodes, v.value), es[1..], keyed, rest);
        ElemsDoneTwice(s, 1, |first|, |es[1..]|, |tail|, keyed);
      }
      ReachesTwice(inp, s, nodes, first, s1, if v.None? then None else Some(ElemPlaced(nodes, v.value)), tail,
          ElemsDone(s, |es|, |ElemsText(es)|, keyed), all, rest);
    }
  }

  lemma NothingRead(inp: Input, s: Lex, nodes: seq<Node>, keyed: bool, rest: bytes)
    requires Valid(s) && HasSlot(nodes, keyed)
    ensures Reaches(inp, s, nodes, [], s, PlacedAll(nodes, ElemsMean([], keyed, inp.strtod), keyed), rest)
  {
    hide ParseBytes;
    assert [] + rest == rest;
  }

  lemma PlacedStep(nodes: seq<Node>, es: seq<Elem>, keyed: bool, strtod: FloatReader)
    requires es != [] && ElemsFit(es, keyed) && HasSlot(nodes, keyed)
    ensures var v, all := ElemMeans(es[0], keyed, strtod), PlacedAll(nodes, ElemsMean(es, keyed, strtod), keyed);
      && (v.None? ==> all.None?)
      && (v.Some? ==> all == PlacedAll(ElemPlaced(nodes, v.value), ElemsMean(es[1..], keyed, strtod), keyed))
  {
    hide ElemMeans, ElemPlaced, ElemFits;
    var v, vs := ElemMeans(es[0], keyed, strtod), ElemsMean(es[1..], keyed, strtod);
    if v.Some? && vs.Some? { assert ([v.value] + vs.value)[1..] == vs.value; }
  }

  lemma BracketEnds(es: seq<Elem>, keyed: bool, close: byte, rest: bytes)
    requires ElemsFit(es, keyed) && (close == RBRACE || close == RBRACKET)
    ensures LastEnded(es, [close] + rest)
  {
    hide DocFits;
    if es != [] { FitsAt(es, keyed, |es| - 1); }
  }

  lemma {:induction false} FitsAt(es: seq<Elem>, keyed: bool, i: nat)
    requires ElemsFit(es, keyed) && i < |es|
    ensures ElemFits(es[i], keyed)
  {
    if i > 0 { FitsAt(es[1..], keyed, i - 1); }
  }

  /** Behind the first element comes a comma, or what comes behind all of them. */
  lemma FirstEnded(es: seq<Elem>, keyed: bool, rest: bytes)
    requires es != [] && LastEnded(es, rest) && ElemsFit(es, keyed)
    ensures Ended(es[0], MoreText(es[1..]) + rest) && LastEnded(es[1..], rest)
  {
    hide ElemText;
    if |es| == 1 {
      assert es[1..] == [] && [] + rest == rest;
    } else {
      assert es[1..][|es| - 2] == es[|es| - 1];
      CommaCloses(es[0].after, es[1..], rest);
    }
  }

  lemma CommaCloses(after: bytes, es: seq<Elem>, rest: bytes)
    requires es != [] && Blank(after)
    ensures Closes(after + (MoreText(es) + rest))
  {
    hide ElemText;
  }

  lemma ReadMore(inp: Input, s: Lex, nodes: seq<Node>, es: seq<Elem>, keyed: bool, rest: bytes)
    requires ElemOver(s, nodes, keyed) && ElemsFit(es, keyed)
    requires Room(inp, s, nodes, MostFrames(es), MostSlots(es))
    requires LastEnded(es, rest) && At(inp.text, s.pos, MoreText(es) + rest)
    ensures Valid(ElemsDone(s, |es|, |MoreText(es)|, keyed))
    ensures Reaches(inp, s, nodes, MoreText(es), ElemsDone(s, |es|, |MoreText(es)|, keyed),
        PlacedAll(nodes, ElemsMean(es, keyed, inp.strtod), keyed), rest)
    decreases es, 4
  {
    hide ParseBytes, ElemText, At, ElemFits, ElemMeans, ElemPlaced, Clean, HasSlot, Reaches, PlacedAll, ElemsMean,
        LastEnded;
    ElemsDoneValid(s, |es|, |MoreText(es)|, keyed);
    if es == [] {
      NothingRead(inp, s, nodes, keyed, rest);
      assert ElemsDone(s, 0, 0, keyed) == s;
    } else {
      var first, tail := [COMMA] + ElemText(es[0]), MoreText(es[1..]);
      var s1, v := ElemsDone(s, 1, |first|, keyed), ElemMeans(es[0], keyed, inp.strtod);
      assert MoreText(es) == first + tail && first + tail + rest == first + (tail + rest);
      FirstEnded(es, keyed, rest);
      ReadNext(inp, s, nodes, es[0], keyed, tail + rest);
      AtConcat(inp.text, s.pos, first, tail + rest);
      var all := PlacedAll(nodes, ElemsMean(es, keyed, inp.strtod), keyed);
      PlacedStep(nodes, es, keyed, inp.strtod);
      if v.Some? {
        ReadMore(inp, s1, ElemPlaced(nodes, v.value), es[1..], keyed, rest);
        ElemsDoneTwice(s, 1, |first|, |es[1..]|, |tail|, keyed);
      }
      ReachesTwice(inp, s, nodes, first, s1, if v.None? then None else Some(ElemPlaced(nodes, v.value)), tail,
          ElemsDone(s, |es|, |MoreText(es)|, keyed), all, rest);
    }
  }

  /** A comma and one element. */
  lemma ReadNext(inp: Input, s: Lex, nodes: seq<Node>, e: Elem, keyed: bool, rest: bytes)
    requires ElemOver(s, nodes, keyed) && ElemFits(e, keyed)
    requires Room(inp, s, nodes, Frames(e.doc), (if e.key.Some? then 1 else 0) + Slots(e.doc))
    requires Ended(e, rest) && At(inp.text, s.pos, [COMMA] + ElemText(e) + rest)
    ensures var s1, v := ElemsDone(s, 1, 1 + |ElemText(e)|, keyed), ElemMeans(e, keyed, inp.strtod);
      && Valid(s1) && (v.Some? ==> ElemOver(s1, ElemPlaced(nodes, v.value), keyed))
      && Reaches(inp, s, nodes, [COMMA] + ElemText(e), s1,
             if v.None? then None else Some(ElemPlaced(nodes, v.value)), rest)
    decreases e, 4
  {
    hide ParseBytes, ElemText, At, ElemFits, ElemMeans, ElemPlaced, HasSlot, StoppedBy;
    var text, v := ElemText(e), ElemMeans(e, keyed, inp.strtod);
    var s0, s1 := Separated(s, 1), ElemsDone(s, 1, 1 + |text|, keyed);
    assert [COMMA] + text + rest == [COMMA] + (text + rest);
    AtConcat(inp.text, s.pos, [COMMA], text + rest);
    ReadComma(inp, s, nodes, keyed, text + rest);
    ReadElem(inp, s0, nodes, e, keyed, rest);
    assert ElemsDone(s0, 1, |text|, keyed) == s1;
    if v.Some? { ElemOverAfter(s0, nodes, ElemPlaced(nodes, v.value), |text|, keyed); }
  }

  lemma ReadComma(inp: Input, s: Lex, nodes: seq<Node>, keyed: bool, rest: bytes)
    requires ElemOver(s, nodes, keyed)
    ensures ElemReady(Separated(s, 1), nodes, keyed)
    ensures ParseBytes(inp, Parsing(s, nodes), [COMMA] + rest)
         == ParseBytes(inp, Parsing(Separated(s, 1), nodes), rest)
  {
    hide ParseBytes, ParseByte, Step;
    CommaStep(s, nodes, keyed);
    ParseCons(inp, Parsing(s, nodes), COMMA, rest);
    QuietByte(inp, s, nodes, COMMA, Separated(s, 1));
  }

  // ---- one element --------------------------------------------------------------------------------

  /** An element where one may start, with the white space around it. */
  lemma ReadElem(inp: Input, s: Lex, nodes: seq<Node>, e: Elem, keyed: bool, rest: bytes)
    requires ElemReady(s, nodes, keyed) && ElemFits(e, keyed)
    requires Room(inp, s, nodes, Frames(e.doc), (if e.key.Some? then 1 else 0) + Slots(e.doc))
    requires Ended(e, rest) && At(inp.text, s.pos, ElemText(e) + rest)
    ensures Valid(ElemsDone(s, 1, |ElemText(e)|, keyed))
    ensures var v := ElemMeans(e, keyed, inp.strtod);
      Reaches(inp, s, nodes, ElemText(e), ElemsDone(s, 1, |ElemText(e)|, keyed),
          if v.None? then None else Some(ElemPlaced(nodes, v.value)), rest)
    decreases e, 3
  {
    hide ParseBytes, DocText, HeadText, DocMeans, ElemReady, ElemPlaced, At, DocFits, Placed, Clean, HasSlot,
        HasPlace, ValueReady, HeadEnd, StoppedBy, Blank;
    ElemsDoneReady(s, nodes, |ElemText(e)|, keyed);
    var text, v := DocText(e.doc), DocMeans(e.doc, inp.strtod);
    var s2, nodes2 := HeadEnd(s, e), HeadNodes(nodes, e);
    ElemPieces(inp.text, s.pos, e, rest);
    ReadHead(inp, s, nodes, e, keyed, text + (e.after + rest));
    ReadDoc(inp, s2, nodes2, e.doc, e.after + rest);
    if v.Some? {
      HeadPlaced(s, nodes, e, keyed, v.value, |text|);
      DoneValid(s2, |text|);
      DoneBlank(inp, Done(s2, |text|), Placed(s2, nodes2, v.value), e.after, rest);
    }
  }

  lemma ElemPieces(text: bytes, pos: nat, e: Elem, rest: bytes)
    requires At(text, pos, ElemText(e) + rest)
    ensures ElemText(e) + rest == HeadText(e) + (DocText(e.doc) + (e.after + rest))
    ensures |ElemText(e)| == |HeadText(e)| + |DocText(e.doc)| + |e.after|
    ensures At(text, pos, HeadText(e) + (DocText(e.doc) + (e.after + rest)))
    ensures At(text, pos + |HeadText(e)|, DocText(e.doc) + (e.after + rest))
  {
    hide At, HeadText, DocText;
    assert ElemText(e) + rest == HeadText(e) + (DocText(e.doc) + (e.after + rest));
    AtConcat(text, pos, HeadText(e), DocText(e.doc) + (e.after + rest));
  }

  lemma ElemsDoneReady(s: Lex, nodes: seq<Node>, len: nat, keyed: bool)
    requires ElemReady(s, nodes, keyed)
    ensures Valid(s) && Valid(ElemsDone(s, 1, len, keyed))
  {
  }

  lemma DoneBlank(inp: Input, s: Lex, nodes: seq<Node>, w: bytes, rest: bytes)
    requires Valid(s) && !s.inEscape && (|s.frames| == 1 || IsContainer(Top(s).kind)) && Blank(w)
    ensures ParseBytes(inp, Parsing(s, nodes), w + rest)
         == ParseBytes(inp, Parsing(s.(pos := s.pos + |w|), nodes), rest)
  {
    BlankIsWhitespace(w);
    ParseBlanks(inp, s, nodes, w, rest);
  }

  /** The lexer where the value of an element may start. */
  function HeadEnd(s: Lex, e: Elem): Lex
    requires s.frames != []
  {
    var len := |HeadText(e)|;
    if e.key.None? then s.(pos := s.pos + len) else AfterColon(Closed(s, KeyFrame, 0), len)
  }

  /** The node stack there: a key waits for its value. */
  function HeadNodes(nodes: seq<Node>, e: Elem): seq<Node>
    requires e.key.Some? ==> CharsFit(e.key.value.chars)
  {
    if e.key.None? then nodes else nodes + [KeyVal(CString(StringMeans(e.key.value.chars)), Null)]
  }

  lemma ReadHead(inp: Input, s: Lex, nodes: seq<Node>, e: Elem, keyed: bool, rest: bytes)
    requires ElemReady(s, nodes, keyed) && ElemFits(e, keyed)
    requires Room(inp, s, nodes, 1, if e.key.Some? then 1 else 0) && At(inp.text, s.pos, HeadText(e) + rest)
    ensures var s2, nodes2 := HeadEnd(s, e), HeadNodes(nodes, e);
      && ValueReady(s2) && HasPlace(s2, nodes2) && IsContainer(Top(s2).kind) && s2.pos == s.pos + |HeadText(e)|
      && |s2.frames| == |s.frames| && |s2.nescapes| == |s.nescapes|
      && ParseBytes(inp, Parsing(s, nodes), HeadText(e) + rest) == ParseBytes(inp, Parsing(s2, nodes2), rest)
  {
    hide ParseBytes, Blank, StringMeans, CharsFit, At, KeyText, DocFits;
    var key := if e.key.None? then [] else KeyText(e.key.value);
    assert HeadText(e) + rest == e.before + (key + rest);
    DoneBlank(inp, s, nodes, e.before, key + rest);
    var s1 := s.(pos := s.pos + |e.before|);
    if keyed {
      AtConcat(inp.text, s.pos, e.before, key + rest);
      ReadKey(inp, s1, nodes, e.key.value, rest);
      assert HeadEnd(s, e) == AfterColon(Closed(s1, KeyFrame, 0), |key|);
    } else {
      assert [] + rest == rest;
    }
  }

  /** A key, its colon and the white space on both sides. */
  lemma ReadKey(inp: Input, s: Lex, nodes: seq<Node>, k: Key, rest: bytes)
    requires ElemReady(s, nodes, true) && KeyFits(k)
    requires |s.frames| < |s.nescapes| && |nodes| < inp.capacity && At(inp.text, s.pos, KeyText(k) + rest)
    ensures var s2, nodes2 := AfterColon(Closed(s, KeyFrame, 0), |KeyText(k)|),
                              nodes + [KeyVal(CString(StringMeans(k.chars)), Null)];
      && ValueReady(s2) && HasPlace(s2, nodes2)
      && ParseBytes(inp, Parsing(s, nodes), KeyText(k) + rest) == ParseBytes(inp, Parsing(s2, nodes2), rest)
  {
    hide ParseBytes, Blank, StringMeans, CharsFit, At, StringText, KeyText, ValueReady, HasPlace;
    var str, colon := StringText(k.chars), [COLON] + (k.next + rest);
    var nodes2 := nodes + [KeyVal(CString(StringMeans(k.chars)), Null)];
    KeyPieces(k, rest);
    ParseKeyText(inp, s, nodes, k.chars, k.after + colon);
    ReadColon(inp, s, nodes, nodes2, |str|, k, rest);
    KeyWaits(s, nodes, nodes2, |KeyText(k)|);
  }

  lemma KeyPieces(k: Key, rest: bytes)
    ensures KeyText(k) + rest == StringText(k.chars) + (k.after + ([COLON] + (k.next + rest)))
    ensures |KeyText(k)| == |StringText(k.chars)| + |k.after| + (1 + |k.next|)
  {
    hide StringText;
  }

  /** From the closing quote of a key to its value. */
  lemma ReadColon(inp: Input, s: Lex, nodes: seq<Node>, nodes2: seq<Node>, len: nat, k: Key, rest: bytes)
    requires ElemReady(s, nodes, true) && KeyFits(k)
    ensures var s1 := Closed(s, KeyFrame, len);
      var s2 := AfterColon(Closed(s, KeyFrame, 0), len + |k.after| + (1 + |k.next|));
      && Valid(s1) && ValueReady(s2)
      && ParseBytes(inp, Parsing(s1, nodes2), k.after + ([COLON] + (k.next + rest)))
         == ParseBytes(inp, Parsing(s2, nodes2), rest)
  {
    hide ParseBytes, Blank, CharsFit;
    ClosedReady(s, nodes, len);
    DoneBlank(inp, Closed(s, KeyFrame, len), nodes2, k.after, [COLON] + (k.next + rest));
    BlankIsWhitespace(k.next);
    ParseColon(inp, s, Closed(s, KeyFrame, len + |k.after|), nodes2, len + |k.after|, k.next, rest);
  }

  lemma KeyWaits(s: Lex, nodes: seq<Node>, nodes2: seq<Node>, len: nat)
    requires ElemReady(s, nodes, true)
    requires |nodes2| == |nodes| + 1 && nodes2[..|nodes|] == nodes && nodes2[|nodes|].KeyVal?
    ensures var s2 := AfterColon(Closed(s, KeyFrame, 0), len);
      s2.frames != [] && HasPlace(s2, nodes2)
  {
  }

  lemma ClosedReady(s: Lex, nodes: seq<Node>, len: nat)
    requires ElemReady(s, nodes, true)
    ensures var s1 := Closed(s, KeyFrame, len);
      Valid(s1) && !s1.inEscape && IsContainer(Top(s1).kind)
  {
  }

  /** Behind the value: the element is in its container. */
  lemma HeadPlaced(s: Lex, nodes: seq<Node>, e: Elem, keyed: bool, v: Node, len: nat)
    requires ElemReady(s, nodes, keyed) && ElemFits(e, keyed) && !v.KeyVal?
    requires var s2 := HeadEnd(s, e); ValueReady(s2) && HasPlace(s2, HeadNodes(nodes, e)) && IsContainer(Top(s2).kind)
    ensures var s2, key := HeadEnd(s, e), if keyed then CString(StringMeans(e.key.value.chars)) else [];
      var s3 := Done(s2, len);
      && Valid(s3) && !s3.inEscape && IsContainer(Top(s3).kind)
      && s3.(pos := s3.pos + |e.after|) == ElemsDone(s, 1, |HeadText(e)| + len + |e.after|, keyed)
      && Placed(s2, HeadNodes(nodes, e), v) == ElemPlaced(nodes, if keyed then KeyVal(key, v) else v)
  {
    hide StringMeans, CharsFit, HeadText, SetKeyVal, Clean, DocFits;
    if keyed {
      var key := CString(StringMeans(e.key.value.chars));
      assert (nodes + [KeyVal(key, Null)])[..|nodes|] == nodes;
    }
  }

  // ---- whole documents ------------------------------------------------------------------------------

  /** Room for the text of a document; a scalar is wrapped in a list. */
  predicate HasRoom(doc: Doc, levels: nat) {
    if Bracketed(doc) then Frames(doc) + 1 <= levels && Slots(doc) <= levels else levels >= 3
  }

  /**
   Every text of the grammar, with white space on both sides, is read as what it means; it is refused if and
   only if one of its numbers is.
   */
  lemma DocumentMeans(before: bytes, doc: Doc, after: bytes, column: seq<nat>, strtod: FloatReader)
    requires DocFits(doc) && Blank(before) && Blank(after)
    requires |column| >= 2 && Fresh(column) && HasRoom(doc, |column|)
    ensures CreateNode(before + (DocText(doc) + after), column, strtod)
         == match DocMeans(doc, strtod) case Some(v) => Ok(v) case None => Err(LexerError(InvalidNumber))
  {
    hide DocText, DocMeans, ParseBytes, Level, DocFits, IsScalarText;
    DocBegins(before, doc, after);
    if Bracketed(doc) {
      ReadDocument(before, doc, after, column, strtod);
    } else {
      var list := ListDoc([], [Elem([], None, doc, after)]);
      Wrapped(doc, after, strtod);
      ReadDocument([], list, [], column, strtod);
      assert [] + (DocText(list) + []) == DocText(list);
    }
  }

  /** White space is skipped up to the first byte of the document, and only a bracket is no scalar. */
  lemma DocBegins(before: bytes, doc: Doc, after: bytes)
    requires DocFits(doc) && Blank(before)
    ensures var text := before + (DocText(doc) + after);
      && IsScalarText(text) == !Bracketed(doc)
      && Buffer(text) == if Bracketed(doc) then text else [LBRACKET] + (DocText(doc) + after) + [RBRACKET]
  {
    hide DocText, DocFits;
    var text := before + (DocText(doc) + after);
    FirstOfDoc(doc);
    BlankIsWhitespace(before);
    assert text[|before|] == DocText(doc)[0];
    assert text[..|before|] == before;
    SkipsTo(text, |before|);
    assert text[|before|..] == DocText(doc) + after;
  }

  lemma {:induction false} SkipsTo(text: bytes, k: nat)
    requires k < |text| && !IsWhitespace(text[k]) && AllWhitespace(text[..k])
    ensures SkipWhitespace(text) == k
  {
    if k > 0 {
      assert text[..k][0] == text[0] && text[1..][..k - 1] == text[..k][1..];
      SkipsTo(text[1..], k - 1);
    }
  }

  lemma FirstOfDoc(doc: Doc)
    requires DocFits(doc)
    ensures var t := DocText(doc);
      t != [] && !IsWhitespace(t[0]) && (t[0] == LBRACE || t[0] == LBRACKET <==> Bracketed(doc))
  {
    hide BodyText, ElemsText, FractionText, ExponentText;
    if doc.NumberDoc? { assert NumeralText(doc.numeral)[0] == WholeText(doc.numeral)[0]; }
  }

  /** A scalar in brackets is the list of it. */
  lemma Wrapped(doc: Doc, after: bytes, strtod: FloatReader)
    requires DocFits(doc) && Blank(after) && !Bracketed(doc)
    ensures var list := ListDoc([], [Elem([], None, doc, after)]);
      && DocFits(list) && Frames(list) == 2 && Slots(list) == 2
      && DocText(list) == [LBRACKET] + (DocText(doc) + after) + [RBRACKET]
      && DocMeans(list, strtod)
         == match DocMeans(doc, strtod) case Some(v) => Some(Array([v])) case None => None
  {
    hide DocText, DocMeans;
    var e := Elem([], None, doc, after);
    WrappedText(doc, after);
    OnlyElem([e], e, strtod);
    PlainList([e], strtod);
  }

  lemma PlainList(es: seq<Elem>, strtod: FloatReader)
    requires ElemsFit(es, false)
    ensures var list := ListDoc([], es);
      && DocFits(list) && Frames(list) == 1 + MostFrames(es) && Slots(list) == 1 + MostSlots(es)
      && DocText(list) == [LBRACKET] + ElemsText(es) + [RBRACKET]
      && DocMeans(list, strtod)
         == match ElemsMean(es, false, strtod) case Some(vs) => Some(Array(vs)) case None => None
  {
    hide ElemsText, ElemsFit, ElemsMean, MostFrames, MostSlots;
    assert [] + (ElemsText(es) + [RBRACKET]) == ElemsText(es) + [RBRACKET];
  }

  lemma OnlyElem(es: seq<Elem>, e: Elem, strtod: FloatReader)
    requires es == [e] && e.key.None? && ElemFits(e, false)
    ensures ElemsFit(es, false) && ElemsText(es) == ElemText(e)
    ensures MostFrames(es) == Frames(e.doc) && MostSlots(es) == Slots(e.doc)
    ensures ElemsMean(es, false, strtod) == match DocMeans(e.doc, strtod) case Some(v) => Some([v]) case None => None
  {
    hide ElemText, DocMeans, DocFits, Frames, Slots;
    var v := DocMeans(e.doc, strtod);
    NoElem(es[1..], strtod);
    if v.Some? { assert [v.value] + [] == [v.value]; }
    assert ElemText(e) + [] == ElemText(e);
  }

  lemma NoElem(es: seq<Elem>, strtod: FloatReader)
    requires es == []
    ensures ElemsFit(es, false) && MoreText(es) == [] && ElemsMean(es, false, strtod) == Some([])
    ensures MostFrames(es) == 0 && MostSlots(es) == 0
  {
  }

  lemma WrappedText(doc: Doc, after: bytes)
    ensures ElemText(Elem([], None, doc, after)) == DocText(doc) + after
  {
    hide DocText;
  }

  lemma ReadDocument(before: bytes, doc: Doc, after: bytes, column: seq<nat>, strtod: FloatReader)
    requires DocFits(doc) && Blank(before) && Blank(after) && Bracketed(doc)
    requires |column| >= 2 && Fresh(column) && Frames(doc) + 1 <= |column| && Slots(doc) <= |column|
    ensures var text := before + (DocText(doc) + after);
      var p := ParseBytes(Input(text, |column|, strtod), Parsing(Start(column), []), text);
      match DocMeans(doc, strtod)
      case None => StoppedBy(p, CallbackError(InvalidNumber))
      case Some(v) => p.Parsing? && Level(p.lex) == 0 && p.lex.frames[0].nelem == 1 && p.nodes == [v]
  {
    hide DocText, DocMeans, ParseBytes, Frames, Slots, DocFits, Blank, StoppedBy;
    var text := before + (DocText(doc) + after);
    var inp, s := Input(text, |column|, strtod), Start(column);
    DoneBlank(inp, s, [], before, DocText(doc) + after);
    var s1 := s.(pos := |before|);
    assert text[|before|..|before| + |DocText(doc) + after|] == DocText(doc) + after;
    ReadDoc(inp, s1, [], doc, after);
    var s2, means := Done(s1, |DocText(doc)|), DocMeans(doc, strtod);
    if means.Some? {
      assert after + [] == after;
      DoneBlank(inp, s2, [means.value], after, []);
      ParseNothing(inp, Parsing(s2.(pos := s2.pos + |after|), [means.value]));
    }
  }

  /** A number by itself or alone in a list: which reader it gets, and what is made of the answer. */
  lemma NumberMeans(n: Numeral, column: seq<nat>, strtod: FloatReader)
    requires NumeralFits(n) && |column| >= 3 && Fresh(column)
    ensures CreateNode(NumeralText(n), column, strtod)
         == match NumeralMeans(n, strtod) case Some(v) => Ok(v) case None => Err(LexerError(InvalidNumber))
    ensures CreateNode([0x5b] + NumeralText(n) + [0x5d], column, strtod)
         == match NumeralMeans(n, strtod) case Some(v) => Ok(Array([v])) case None => Err(LexerError(InvalidNumber))
  {
    hide NumeralText, NumeralFits, NumeralMeans, CreateNode;
    var doc := NumberDoc(n);
    var list := ListDoc([], [Elem([], None, doc, [])]);
    DocumentMeans([], doc, [], column, strtod);
    assert [] + (NumeralText(n) + []) == NumeralText(n);
    Wrapped(doc, [], strtod);
    DocumentMeans([], list, [], column, strtod);
    assert [] + (DocText(list) + []) == [0x5b] + NumeralText(n) + [0x5d];
  }

  /**
   A text whose first byte opens no container is read as the same text in brackets, whatever it is: with the
   same error, or as the first element of that list. So `1,2` is accepted, as 1.
   */
  lemma ScalarIsFirst(before: bytes, text: bytes, column: seq<nat>, strtod: FloatReader)
    requires Blank(before) && |column| >= 2
    requires text != [] && !Blank([text[0]]) && text[0] != 0x7b && text[0] != 0x5b
    ensures var listed := CreateNode([0x5b] + text + [0x5d], column, strtod);
      CreateNode(before + text, column, strtod)
      == match listed
         case Err(e) => Err(e)
         case Ok(v) => if v.Array? && v.items != [] then Ok(v.items[0]) else Ok(Null)
  {
    hide ParseBytes, SkipWhitespace;
    var list := [0x5b] + text + [0x5d];
    BlankIsWhitespace(before);
    BlankIsWhitespace([text[0]]);
    assert (before + text)[|before|] == text[0] && (before + text)[..|before|] == before;
    SkipsTo(before + text, |before|);
    assert (before + text)[|before|..] == text;
    assert list[0] == LBRACKET && list[..0] == [];
    SkipsTo(list, 0);
    assert Buffer(before + text) == list == Buffer(list);
    TwoStacks.ResultWellFormed(list, column, strtod);
  }
}
