/** JSON text that goes wrong between its tokens: the answer to every byte at every place of every document. */
module Refusals {
  // A document is cut at some place between its tokens. A table that mentions places and bytes only says
  // which bytes are refused there, and with which error.

  import opened Bytes
  import opened Errors
  import opened Nodes
  import opened Lexer
  import opened Parser
  import opened RoundTrip
  import opened Strings
  import opened Documents

  // ---- where a text is cut ------------------------------------------------------------------------

  /** An open container up to the first byte of an element's value; a list's element has no key. */
  datatype Opening = Opening(gap: bytes, done: seq<Elem>, before: bytes, key: Option<Key>)

  /** The text in front of a cut: containers that are open, and the place in the innermost one. */
  datatype Cut =
    | AtElem(path: seq<Opening>, keyed: bool, gap: bytes, done: seq<Elem>, blank: bytes)
    | BehindElem(path: seq<Opening>, keyed: bool, gap: bytes, done: seq<Elem>)
    | BehindKey(path: seq<Opening>, gap: bytes, done: seq<Elem>, before: bytes, chars: seq<Char>, after: bytes)
    | BehindColon(path: seq<Opening>, opening: Opening)

  function BracketOf(keyed: bool): byte { if keyed then 0x7b else 0x5b }

  /** The bracket, the elements that are complete, and the comma behind them. */
  function StartText(keyed: bool, gap: bytes, done: seq<Elem>): bytes {
    [BracketOf(keyed)] + (gap + (ElemsText(done) + if done == [] then [] else [0x2c]))
  }

  function OpeningText(o: Opening): bytes {
    StartText(o.key.Some?, o.gap, o.done) + (o.before + if o.key.None? then [] else KeyText(o.key.value))
  }

  function PathText(path: seq<Opening>): bytes {
    if path == [] then [] else OpeningText(path[0]) + PathText(path[1..])
  }

  /** The text from the cut's innermost bracket on. */
  function PlaceText(cut: Cut): bytes {
    match cut
    case AtElem(_, keyed, gap, done, blank) => StartText(keyed, gap, done) + blank
    case BehindElem(_, keyed, gap, done) => [BracketOf(keyed)] + (gap + ElemsText(done))
    case BehindKey(_, gap, done, before, chars, after) =>
      StartText(true, gap, done) + (before + (StringText(chars) + after))
    case BehindColon(_, o) => OpeningText(o)
  }

  function CutText(cut: Cut): bytes { PathText(cut.path) + PlaceText(cut) }

  // ---- the table ------------------------------------------------------------------------------------

  /** The first byte of a number or a word. */
  predicate StartsBare(c: byte) { c == 0x2d || 0x30 <= c <= 0x39 || c == 0x74 || c == 0x66 || c == 0x6e }

  predicate IsBlank(c: byte) { c == 0x20 || c == 0x09 || c == 0x0a || c == 0x0d }

  /** What a byte that begins no token is refused with. */
  function Alien(c: byte): JsonError {
    if c == 0x5c then EscapeOutsideString
    else if c == 0 then FoundNullByte
    else if c < 0x20 then WeirdWhitespace
    else SpecialExpected
  }

  /** Where an element may start. A bracket in place of a key has another error behind a comma. */
  function AtElemComplaint(keyed: bool, first: bool, c: byte): Option<JsonError> {
    if IsBlank(c) || c == 0x22 then None
    else if StartsBare(c) then if keyed then Some(HKeyExpected) else None
    else if c == 0x7b || c == 0x5b then
      if !keyed then None else Some(if first then HKeyExpected else CantInsert)
    else if c == 0x2c || c == 0x3a then Some(StrayToken)
    else if c == 0x7d || c == 0x5d then
      if !first then Some(TrailingComma) else if c == BracketOf(keyed) + 2 then None else Some(BracketMismatch)
    else Some(Alien(c))
  }

  /** Behind an element. A string is let through there in a list, without a comma. */
  function BehindElemComplaint(keyed: bool, c: byte): Option<JsonError> {
    if IsBlank(c) || c == 0x2c then None
    else if c == 0x22 then if keyed then Some(StrayToken) else None
    else if StartsBare(c) then Some(if keyed then HKeyExpected else CantInsert)
    else if c == 0x7b || c == 0x5b then Some(CantInsert)
    else if c == 0x3a then Some(StrayToken)
    else if c == 0x7d || c == 0x5d then if c == BracketOf(keyed) + 2 then None else Some(BracketMismatch)
    else Some(Alien(c))
  }

  function BehindKeyComplaint(c: byte): Option<JsonError> {
    if IsBlank(c) || c == 0x3a then None
    else if c == 0x22 then Some(MissingToken)
    else if StartsBare(c) || c == 0x7b || c == 0x5b then Some(CantInsert)
    else if c == 0x2c then Some(StrayToken)
    else if c == 0x7d then Some(ValueExpected)
    else if c == 0x5d then Some(BracketMismatch)
    else Some(Alien(c))
  }

  function BehindColonComplaint(c: byte): Option<JsonError> {
    if IsBlank(c) || c == 0x22 || StartsBare(c) || c == 0x7b || c == 0x5b then None
    else if c == 0x2c || c == 0x3a then Some(StrayToken)
    else if c == 0x7d then Some(ValueExpected)
    else if c == 0x5d then Some(BracketMismatch)
    else Some(Alien(c))
  }

  function Complaint(cut: Cut, c: byte): Option<JsonError> {
    match cut
    case AtElem(_, keyed, _, done, _) => AtElemComplaint(keyed, done == [], c)
    case BehindElem(_, keyed, _, _) => BehindElemComplaint(keyed, c)
    case BehindKey(_, _, _, _, _, _) => BehindKeyComplaint(c)
    case BehindColon(_, _) => BehindColonComplaint(c)
  }

  // ---- fitting cuts -----------------------------------------------------------------------------------

  /** Complete elements whose numbers are accepted, with room on both stacks for them and their container. */
  predicate StartFits(keyed: bool, gap: bytes, done: seq<Elem>, frames: nat, slots: nat, strtod: FloatReader) {
    && Blank(gap) && ElemsFit(done, keyed) && ElemsMean(done, keyed, strtod).Some?
    && 1 + MostFrames(done) <= frames && 1 + MostSlots(done) <= slots
  }

  predicate OpeningFits(o: Opening, frames: nat, slots: nat, strtod: FloatReader) {
    && StartFits(o.key.Some?, o.gap, o.done, frames, slots, strtod) && Blank(o.before)
    && (o.key.Some? ==> KeyFits(o.key.value) && 2 <= frames && 2 <= slots)
  }

  function SlotsOf(o: Opening): nat { if o.key.Some? then 2 else 1 }

  predicate PathFits(path: seq<Opening>, frames: nat, slots: nat, strtod: FloatReader) {
    path != [] ==> OpeningFits(path[0], frames, slots, strtod)
                   && PathFits(path[1..], frames - 1, slots - SlotsOf(path[0]), strtod)
  }

  function PathSlots(path: seq<Opening>): nat { if path == [] then 0 else SlotsOf(path[0]) + PathSlots(path[1..]) }

  lemma {:induction false} PathRoom(path: seq<Opening>, frames: nat, slots: nat, strtod: FloatReader)
    requires PathFits(path, frames, slots, strtod)
    ensures |path| <= frames && PathSlots(path) <= slots
  {
    hide OpeningFits;
    if path != [] {
      assert 1 <= frames && SlotsOf(path[0]) <= slots by { OpeningRoom(path[0], frames, slots, strtod); }
      PathRoom(path[1..], frames - 1, slots - SlotsOf(path[0]), strtod);
    }
  }

  lemma OpeningRoom(o: Opening, frames: nat, slots: nat, strtod: FloatReader)
    requires OpeningFits(o, frames, slots, strtod)
    ensures 1 <= frames && SlotsOf(o) <= slots
  {
  }

  predicate PlaceFits(cut: Cut, frames: nat, slots: nat, strtod: FloatReader) {
    match cut
    case AtElem(_, keyed, gap, done, blank) => StartFits(keyed, gap, done, frames, slots, strtod) && Blank(blank)
    case BehindElem(_, keyed, gap, done) => StartFits(keyed, gap, done, frames, slots, strtod) && done != []
    case BehindKey(_, gap, done, before, chars, after) =>
      && StartFits(true, gap, done, frames, slots, strtod) && Blank(before) && CharsFit(chars) && Blank(after)
      && 2 <= frames && 2 <= slots
    case BehindColon(_, o) => OpeningFits(o, frames, slots, strtod) && o.key.Some?
  }

  /** levels is the number of lexer levels, of which the root has one, and of slots. */
  predicate CutFits(cut: Cut, levels: nat, strtod: FloatReader) {
    && levels >= 2 && PathFits(cut.path, levels - 1, levels, strtod)
    && |cut.path| <= levels - 1 && PathSlots(cut.path) <= levels
    && PlaceFits(cut, levels - 1 - |cut.path|, levels - PathSlots(cut.path), strtod)
  }

  // ---- reading up to the cut ----------------------------------------------------------------------------

  predicate Calm(s: Lex) { s.expecting != COMMA && s.expecting != COLON }

  predicate Stands(s: Lex, nodes: seq<Node>, keyed: bool, first: bool) {
    && ElemReady(s, nodes, keyed) && Calm(s)
    && s.tokLast == (if first then 0 else COMMA) && s.canInsert == (first || !keyed)
  }

  /** s' and nodes' are k frames and m slots further. */
  predicate Deeper(s: Lex, nodes: seq<Node>, s': Lex, nodes': seq<Node>, k: nat, m: nat) {
    |s'.nescapes| == |s.nescapes| && |s'.frames| == |s.frames| + k && |nodes'| == |nodes| + m
  }

  function FramesLeft(s: Lex): int { |s.nescapes| - |s.frames| }

  function SlotsLeft(inp: Input, nodes: seq<Node>): int { inp.capacity - |nodes| }

  /** The bracket and the complete elements. */
  lemma ReadDone(inp: Input, s: Lex, nodes: seq<Node>, keyed: bool, gap: bytes, done: seq<Elem>, rest: bytes)
    returns (s': Lex, nodes': seq<Node>)
    requires ValueReady(s) && HasPlace(s, nodes) && Calm(s) && FramesLeft(s) >= 0 && SlotsLeft(inp, nodes) >= 0
    requires StartFits(keyed, gap, done, FramesLeft(s), SlotsLeft(inp, nodes), inp.strtod) && LastEnded(done, rest)
    requires At(inp.text, s.pos, [BracketOf(keyed)] + (gap + ElemsText(done)) + rest)
    ensures if done == [] then Stands(s', nodes', keyed, true) else ElemOver(s', nodes', keyed)
    ensures Deeper(s, nodes, s', nodes', 1, 1) && s'.pos == s.pos + 1 + |gap| + |ElemsText(done)|
    ensures ParseBytes(inp, Parsing(s, nodes), [BracketOf(keyed)] + (gap + ElemsText(done)) + rest)
         == ParseBytes(inp, Parsing(s', nodes'), rest)
  {
    hide ParseBytes, ElemsText, At, Clean, HasPlace, ElemsFit, ElemsMean, Blank, ElemsPlaced;
    var kind := if keyed then ObjectFrame else ListFrame;
    BlankIsWhitespace(gap);
    assert [BracketOf(keyed)] + (gap + ElemsText(done)) + rest == [BracketOf(keyed)] + (gap + (ElemsText(done) + rest));
    s', nodes' := Opened(s, kind).(pos := s.pos + 1 + |gap|), nodes + [if keyed then Dict([]) else Array([])];
    ParseOpening(inp, s, nodes, kind, gap, ElemsText(done) + rest);
    if done == [] {
      NoText(done);
      assert [] + rest == rest;
    } else {
      AtConcat(inp.text, s.pos, [BracketOf(keyed)], gap + (ElemsText(done) + rest));
      AtConcat(inp.text, s.pos + 1, gap, ElemsText(done) + rest);
      ReadElems(inp, s', nodes', done, keyed, rest);
      var vs := ElemsMean(done, keyed, inp.strtod).value;
      DoneOver(s', nodes', done, keyed, |ElemsText(done)|, ElemsPlaced(nodes', vs, keyed));
      s', nodes' := ElemsDone(s', |done|, |ElemsText(done)|, keyed), ElemsPlaced(nodes', vs, keyed);
    }
  }

  lemma DoneOver(s: Lex, nodes: seq<Node>, done: seq<Elem>, keyed: bool, len: nat, nodes': seq<Node>)
    requires ElemReady(s, nodes, keyed) && HasSlot(nodes', keyed)
    ensures ElemOver(ElemsDone(s, |done|, len, keyed), nodes', keyed)
  {
  }

  /** And the comma. */
  lemma ReadStart(inp: Input, s: Lex, nodes: seq<Node>, keyed: bool, gap: bytes, done: seq<Elem>, rest: bytes)
    returns (s': Lex, nodes': seq<Node>)
    requires ValueReady(s) && HasPlace(s, nodes) && Calm(s) && FramesLeft(s) >= 0 && SlotsLeft(inp, nodes) >= 0
    requires StartFits(keyed, gap, done, FramesLeft(s), SlotsLeft(inp, nodes), inp.strtod)
    requires At(inp.text, s.pos, StartText(keyed, gap, done) + rest)
    ensures Stands(s', nodes', keyed, done == [])
    ensures Deeper(s, nodes, s', nodes', 1, 1) && s'.pos == s.pos + |StartText(keyed, gap, done)|
    ensures ParseBytes(inp, Parsing(s, nodes), StartText(keyed, gap, done) + rest)
         == ParseBytes(inp, Parsing(s', nodes'), rest)
  {
    hide ParseBytes, ElemsText, At, Clean, HasPlace, ElemsMean, ElemsFit, StartFits, ElemReady, ElemOver;
    var text, comma := [BracketOf(keyed)] + (gap + ElemsText(done)), if done == [] then [] else [COMMA];
    assert StartText(keyed, gap, done) + rest == text + (comma + rest);
    CommaEnds(keyed, gap, done, FramesLeft(s), SlotsLeft(inp, nodes), inp.strtod, rest);
    s', nodes' := ReadDone(inp, s, nodes, keyed, gap, done, comma + rest);
    if done == [] {
      assert [] + rest == rest;
    } else {
      ReadComma(inp, s', nodes', keyed, rest);
      CommaStands(s', nodes', keyed);
      s' := Separated(s', 1);
    }
  }

  lemma CommaEnds(keyed: bool, gap: bytes, done: seq<Elem>, frames: nat, slots: nat, strtod: FloatReader, rest: bytes)
    requires StartFits(keyed, gap, done, frames, slots, strtod)
    ensures LastEnded(done, (if done == [] then [] else [COMMA]) + rest)
  {
    hide DocFits;
    if done != [] {
      FitsAt(done, keyed, |done| - 1);
    }
  }

  lemma CommaStands(s: Lex, nodes: seq<Node>, keyed: bool)
    requires ElemOver(s, nodes, keyed)
    ensures Stands(Separated(s, 1), nodes, keyed, false)
  {
  }

  lemma ReadBlank(inp: Input, s: Lex, nodes: seq<Node>, keyed: bool, first: bool, w: bytes, rest: bytes)
    requires Stands(s, nodes, keyed, first) && Blank(w)
    ensures Stands(s.(pos := s.pos + |w|), nodes, keyed, first)
    ensures ParseBytes(inp, Parsing(s, nodes), w + rest)
         == ParseBytes(inp, Parsing(s.(pos := s.pos + |w|), nodes), rest)
  {
    hide ParseBytes, Blank;
    DoneBlank(inp, s, nodes, w, rest);
  }

  /** Up to the first byte of a value. */
  lemma ReadOpening(inp: Input, s: Lex, nodes: seq<Node>, o: Opening, rest: bytes) returns (s': Lex, nodes': seq<Node>)
    requires ValueReady(s) && HasPlace(s, nodes) && Calm(s) && FramesLeft(s) >= 0 && SlotsLeft(inp, nodes) >= 0
    requires OpeningFits(o, FramesLeft(s), SlotsLeft(inp, nodes), inp.strtod)
    requires At(inp.text, s.pos, OpeningText(o) + rest)
    ensures ValueReady(s') && HasPlace(s', nodes') && Calm(s')
    ensures Top(s').kind == if o.key.Some? then ObjectFrame else ListFrame
    ensures Deeper(s, nodes, s', nodes', 1, SlotsOf(o)) && s'.pos == s.pos + |OpeningText(o)|
    ensures ParseBytes(inp, Parsing(s, nodes), OpeningText(o) + rest) == ParseBytes(inp, Parsing(s', nodes'), rest)
  {
    hide ParseBytes, At, Clean, StartText, KeyText, HasPlace, StartFits, Blank, HasSlot, Stands, ValueReady;
    var keyed, first := o.key.Some?, o.done == [];
    var start, key := StartText(keyed, o.gap, o.done), if o.key.None? then [] else KeyText(o.key.value);
    var behind := key + rest;
    assert OpeningText(o) + rest == start + (o.before + behind);
    s', nodes' := ReadStart(inp, s, nodes, keyed, o.gap, o.done, o.before + behind);
    AtConcat(inp.text, s.pos, start, o.before + behind);
    ReadBlank(inp, s', nodes', keyed, first, o.before, behind);
    AtConcat(inp.text, s'.pos, o.before, behind);
    s' := s'.(pos := s'.pos + |o.before|);
    if keyed {
      KeyEnds(inp, s', nodes', first, o.key.value, rest);
      nodes' := nodes' + [KeyVal(CString(StringMeans(o.key.value.chars)), Null)];
      s' := AfterColon(Closed(s', KeyFrame, 0), |key|);
    } else {
      assert [] + rest == rest;
      ListHasPlace(s', nodes', first);
    }
  }

  lemma KeyEnds(inp: Input, s: Lex, nodes: seq<Node>, first: bool, k: Key, rest: bytes)
    requires Stands(s, nodes, true, first) && KeyFits(k)
    requires FramesLeft(s) > 0 && SlotsLeft(inp, nodes) > 0 && At(inp.text, s.pos, KeyText(k) + rest)
    ensures var s2, nodes2 := AfterColon(Closed(s, KeyFrame, 0), |KeyText(k)|),
                              nodes + [KeyVal(CString(StringMeans(k.chars)), Null)];
      && ValueReady(s2) && HasPlace(s2, nodes2) && Calm(s2) && Top(s2).kind == ObjectFrame
      && |s2.frames| == |s.frames| && |s2.nescapes| == |s.nescapes| && s2.pos == s.pos + |KeyText(k)|
      && ParseBytes(inp, Parsing(s, nodes), KeyText(k) + rest) == ParseBytes(inp, Parsing(s2, nodes2), rest)
  {
    hide ParseBytes, At, Clean, KeyText, HasPlace, KeyFits, HasSlot;
    ReadKey(inp, s, nodes, k, rest);
  }

  lemma ListHasPlace(s: Lex, nodes: seq<Node>, first: bool)
    requires Stands(s, nodes, false, first)
    ensures ValueReady(s) && HasPlace(s, nodes) && Calm(s) && Top(s).kind == ListFrame
  {
  }

  lemma {:induction false} ReadPath(inp: Input, s: Lex, nodes: seq<Node>, path: seq<Opening>, rest: bytes)
    returns (s': Lex, nodes': seq<Node>)
    requires ValueReady(s) && HasPlace(s, nodes) && Calm(s) && FramesLeft(s) >= 0 && SlotsLeft(inp, nodes) >= 0
    requires PathFits(path, FramesLeft(s), SlotsLeft(inp, nodes), inp.strtod)
    requires At(inp.text, s.pos, PathText(path) + rest)
    ensures ValueReady(s') && HasPlace(s', nodes') && Calm(s')
    ensures Deeper(s, nodes, s', nodes', |path|, PathSlots(path)) && s'.pos == s.pos + |PathText(path)|
    ensures ParseBytes(inp, Parsing(s, nodes), PathText(path) + rest) == ParseBytes(inp, Parsing(s', nodes'), rest)
    decreases |path|
  {
    hide ParseBytes, At, ValueReady, OpeningText, OpeningFits, HasPlace, Calm;
    s', nodes' := s, nodes;
    if path == [] {
      assert PathText(path) + rest == rest;
    } else {
      var text, tail := OpeningText(path[0]), PathText(path[1..]);
      assert PathText(path) + rest == text + (tail + rest);
      OpeningRoom(path[0], FramesLeft(s), SlotsLeft(inp, nodes), inp.strtod);
      s', nodes' := ReadOpening(inp, s, nodes, path[0], tail + rest);
      AtConcat(inp.text, s.pos, text, tail + rest);
      s', nodes' := ReadPath(inp, s', nodes', path[1..], rest);
    }
  }

  /** The states at a cut. */
  predicate Poised(s: Lex, nodes: seq<Node>, cut: Cut) {
    match cut
    case AtElem(_, keyed, _, done, _) => Stands(s, nodes, keyed, done == [])
    case BehindElem(_, keyed, _, _) => ElemOver(s, nodes, keyed)
    case BehindKey(_, _, _, _, _, _) => KeyOver(s)
    case BehindColon(_, _) => ValueReady(s) && Calm(s) && Top(s).kind == ObjectFrame
  }

  lemma ReadPlace(inp: Input, s: Lex, nodes: seq<Node>, cut: Cut, rest: bytes) returns (s': Lex, nodes': seq<Node>)
    requires ValueReady(s) && HasPlace(s, nodes) && Calm(s) && FramesLeft(s) >= 0 && SlotsLeft(inp, nodes) >= 0
    requires PlaceFits(cut, FramesLeft(s), SlotsLeft(inp, nodes), inp.strtod)
    requires cut.BehindElem? ==> LastEnded(cut.done, rest)
    requires At(inp.text, s.pos, PlaceText(cut) + rest)
    ensures Poised(s', nodes', cut) && |s'.nescapes| == |s.nescapes| && |s'.frames| == |s.frames| + 1
    ensures s'.pos == s.pos + |PlaceText(cut)|
    ensures ParseBytes(inp, Parsing(s, nodes), PlaceText(cut) + rest) == ParseBytes(inp, Parsing(s', nodes'), rest)
  {
    hide ParseBytes, At, Clean, StartText, OpeningText, StartFits, HasPlace, HasSlot, Blank, CharsFit, OpeningFits,
        Stands, ValueReady, ElemOver;
    match cut
    case AtElem(_, keyed, gap, done, blank) =>
      assert PlaceText(cut) + rest == StartText(keyed, gap, done) + (blank + rest);
      s', nodes' := ReadStart(inp, s, nodes, keyed, gap, done, blank + rest);
      ReadBlank(inp, s', nodes', keyed, done == [], blank, rest);
      s' := s'.(pos := s'.pos + |blank|);
    case BehindElem(_, keyed, gap, done) =>
      s', nodes' := ReadDone(inp, s, nodes, keyed, gap, done, rest);
    case BehindColon(_, o) => s', nodes' := ReadOpening(inp, s, nodes, o, rest);
    case BehindKey(_, gap, done, before, chars, after) =>
      s', nodes' := ReadBehindKey(inp, s, nodes, cut, rest);
  }

  lemma ReadBehindKey(inp: Input, s: Lex, nodes: seq<Node>, cut: Cut, rest: bytes) returns (s': Lex, nodes': seq<Node>)
    requires cut.BehindKey?
    requires ValueReady(s) && HasPlace(s, nodes) && Calm(s) && FramesLeft(s) >= 0 && SlotsLeft(inp, nodes) >= 0
    requires PlaceFits(cut, FramesLeft(s), SlotsLeft(inp, nodes), inp.strtod)
    requires At(inp.text, s.pos, PlaceText(cut) + rest)
    ensures Poised(s', nodes', cut) && |s'.nescapes| == |s.nescapes| && |s'.frames| == |s.frames| + 1
    ensures s'.pos == s.pos + |PlaceText(cut)|
    ensures ParseBytes(inp, Parsing(s, nodes), PlaceText(cut) + rest) == ParseBytes(inp, Parsing(s', nodes'), rest)
  {
    hide ParseBytes, At, Clean, StartText, StartFits, HasPlace, HasSlot, Blank, CharsFit, StringText, Stands,
        ValueReady, KeyOver, PlaceText, StringMeans, Calm;
    var start, key, first := StartText(true, cut.gap, cut.done), StringText(cut.chars), cut.done == [];
    var behind := key + (cut.after + rest);
    BehindKeyText(cut, rest);
    s', nodes' := ReadStart(inp, s, nodes, true, cut.gap, cut.done, cut.before + behind);
    AtConcat(inp.text, s.pos, start, cut.before + behind);
    ReadBlank(inp, s', nodes', true, first, cut.before, behind);
    AtConcat(inp.text, s'.pos, cut.before, behind);
    s' := s'.(pos := s'.pos + |cut.before|);
    KeyIsOver(inp, s', nodes', first, cut.chars, cut.after, rest);
    s', nodes' := Closed(s', KeyFrame, |key| + |cut.after|), nodes' + [KeyVal(CString(StringMeans(cut.chars)), Null)];
  }

  lemma BehindKeyText(cut: Cut, rest: bytes)
    requires cut.BehindKey?
    ensures PlaceText(cut) + rest
         == StartText(true, cut.gap, cut.done) + (cut.before + (StringText(cut.chars) + (cut.after + rest)))
  {
    hide StartText, StringText;
  }

  predicate KeyOver(s: Lex) {
    && Valid(s) && Clean(s) && !s.inEscape && Top(s).kind == ObjectFrame && Top(s).nelem % 2 == 1
    && s.expecting == COLON && s.tokLast == 0 && !s.canInsert
  }

  lemma KeyIsOver(inp: Input, s: Lex, nodes: seq<Node>, first: bool, chars: seq<Char>, after: bytes, rest: bytes)
    requires Stands(s, nodes, true, first) && CharsFit(chars) && Blank(after)
    requires FramesLeft(s) > 0 && SlotsLeft(inp, nodes) > 0 && At(inp.text, s.pos, StringText(chars) + (after + rest))
    ensures var s2 := Closed(s, KeyFrame, |StringText(chars)| + |after|);
      && KeyOver(s2) && |s2.frames| == |s.frames| && |s2.nescapes| == |s.nescapes|
      && ParseBytes(inp, Parsing(s, nodes), StringText(chars) + (after + rest))
         == ParseBytes(inp, Parsing(s2, nodes + [KeyVal(CString(StringMeans(chars)), Null)]), rest)
  {
    hide ParseBytes, At, HasSlot, Blank, CharsFit, StringText, StringMeans, KeyOver;
    var len, nodes1 := |StringText(chars)|, nodes + [KeyVal(CString(StringMeans(chars)), Null)];
    ParseKeyText(inp, s, nodes, chars, after + rest);
    KeyPoised(s, nodes, len);
    KeyPoised(s, nodes, len + |after|);
    KeyBlank(inp, Closed(s, KeyFrame, len), nodes1, after, rest);
  }

  lemma KeyBlank(inp: Input, s: Lex, nodes: seq<Node>, w: bytes, rest: bytes)
    requires KeyOver(s) && Blank(w)
    ensures ParseBytes(inp, Parsing(s, nodes), w + rest)
         == ParseBytes(inp, Parsing(s.(pos := s.pos + |w|), nodes), rest)
  {
    hide ParseBytes, Blank;
    DoneBlank(inp, s, nodes, w, rest);
  }

  lemma KeyPoised(s: Lex, nodes: seq<Node>, len: nat)
    requires ElemReady(s, nodes, true)
    ensures KeyOver(Closed(s, KeyFrame, len))
  {
  }

  // ---- the byte behind it ---------------------------------------------------------------------------

  lemma AtElemStep(s: Lex, nodes: seq<Node>, keyed: bool, first: bool, c: byte)
    requires Stands(s, nodes, keyed, first)
    ensures AtElemComplaint(keyed, first, c).Some? ==>
      Step(s, c) == Fail(AtElemComplaint(keyed, first, c).value, [], s.nescapes)
  {
  }

  lemma BehindElemStep(s: Lex, nodes: seq<Node>, keyed: bool, c: byte)
    requires ElemOver(s, nodes, keyed)
    ensures BehindElemComplaint(keyed, c).Some? ==>
      Step(s, c) == Fail(BehindElemComplaint(keyed, c).value, [], s.nescapes)
  {
  }

  lemma BehindKeyStep(s: Lex, c: byte)
    requires KeyOver(s)
    ensures BehindKeyComplaint(c).Some? ==> Step(s, c) == Fail(BehindKeyComplaint(c).value, [], s.nescapes)
  {
  }

  lemma BehindColonStep(s: Lex, c: byte)
    requires ValueReady(s) && Calm(s) && Top(s).kind == ObjectFrame
    ensures BehindColonComplaint(c).Some? ==> Step(s, c) == Fail(BehindColonComplaint(c).value, [], s.nescapes)
  {
  }

  lemma AtElemGoes(s: Lex, nodes: seq<Node>, keyed: bool, first: bool, c: byte)
    requires Stands(s, nodes, keyed, first) && FramesLeft(s) > 0
    ensures AtElemComplaint(keyed, first, c).None? ==> Step(s, c).Next?
  {
  }

  lemma BehindElemGoes(s: Lex, nodes: seq<Node>, keyed: bool, c: byte)
    requires ElemOver(s, nodes, keyed) && FramesLeft(s) > 0
    ensures BehindElemComplaint(keyed, c).None? ==> Step(s, c).Next?
  {
  }

  lemma BehindKeyGoes(s: Lex, c: byte)
    requires KeyOver(s) && FramesLeft(s) > 0
    ensures BehindKeyComplaint(c).None? ==> Step(s, c).Next?
  {
  }

  lemma BehindColonGoes(s: Lex, c: byte)
    requires ValueReady(s) && Calm(s) && Top(s).kind == ObjectFrame && FramesLeft(s) > 0
    ensures BehindColonComplaint(c).None? ==> Step(s, c).Next?
  {
  }

  lemma ComplaintStep(s: Lex, nodes: seq<Node>, cut: Cut, c: byte)
    requires Poised(s, nodes, cut)
    ensures Valid(s) && |s.frames| >= 2 && (Top(s).kind == ListFrame || Top(s).kind == ObjectFrame)
    ensures Complaint(cut, c).Some? ==> Step(s, c) == Fail(Complaint(cut, c).value, [], s.nescapes)
    ensures Complaint(cut, c).None? && FramesLeft(s) > 0 ==> Step(s, c).Next?
  {
    hide Step, AtElemComplaint, BehindElemComplaint, BehindKeyComplaint, BehindColonComplaint;
    match cut
    case AtElem(_, keyed, _, done, _) =>
      AtElemStep(s, nodes, keyed, done == [], c);
      if FramesLeft(s) > 0 { AtElemGoes(s, nodes, keyed, done == [], c); }
    case BehindElem(_, keyed, _, _) =>
      BehindElemStep(s, nodes, keyed, c);
      if FramesLeft(s) > 0 { BehindElemGoes(s, nodes, keyed, c); }
    case BehindKey(_, _, _, _, _, _) =>
      BehindKeyStep(s, c);
      if FramesLeft(s) > 0 { BehindKeyGoes(s, c); }
    case BehindColon(_, _) =>
      BehindColonStep(s, c);
      if FramesLeft(s) > 0 { BehindColonGoes(s, c); }
  }

  // ---- whole texts --------------------------------------------------------------------------------------

  /** The parse of a text that goes on behind the cut. */
  lemma ReadCut(before: bytes, cut: Cut, rest: bytes, column: seq<nat>, strtod: FloatReader)
    returns (s: Lex, nodes: seq<Node>)
    requires Blank(before) && Fresh(column) && CutFits(cut, |column|, strtod)
    requires cut.BehindElem? ==> LastEnded(cut.done, rest)
    ensures Poised(s, nodes, cut) && Valid(s) && |s.nescapes| == |column| && |s.frames| == |cut.path| + 2
    ensures var text := before + (CutText(cut) + rest);
      && !IsScalarText(text) && Buffer(text) == text && At(text, s.pos, rest)
      && ParseText(text, column, strtod) == ParseBytes(Input(text, |column|, strtod), Parsing(s, nodes), rest)
  {
    hide ParseBytes, At, PathText, PlaceText, PathFits, PlaceFits, Blank, Poised, IsScalarText;
    var text := before + (CutText(cut) + rest);
    CutBegins(before, cut, rest);
    var inp, behind := Input(text, |column|, strtod), PathText(cut.path) + (PlaceText(cut) + rest);
    assert text == before + behind;
    s, nodes := Start(column), [];
    DoneBlank(inp, s, nodes, before, behind);
    s := s.(pos := |before|);
    TextAt(before, behind);
    s, nodes := ReadPath(inp, s, nodes, cut.path, PlaceText(cut) + rest);
    AtConcat(text, |before|, PathText(cut.path), PlaceText(cut) + rest);
    AtConcat(text, s.pos, PlaceText(cut), rest);
    s, nodes := ReadPlace(inp, s, nodes, cut, rest);
    PoisedValid(s, nodes, cut);
  }

  lemma TextAt(a: bytes, b: bytes)
    ensures At(a + b, |a|, b)
  {
  }

  lemma PoisedValid(s: Lex, nodes: seq<Node>, cut: Cut)
    requires Poised(s, nodes, cut)
    ensures Valid(s)
  {
  }

  lemma CutBegins(before: bytes, cut: Cut, rest: bytes)
    requires Blank(before)
    ensures var text := before + (CutText(cut) + rest);
      !IsScalarText(text) && Buffer(text) == text
  {
    hide ElemsText, KeyText, StringText;
    var text := before + (CutText(cut) + rest);
    BlankIsWhitespace(before);
    var open := CutText(cut)[0];
    assert open == LBRACE || open == LBRACKET;
    assert text[|before|] == open && text[..|before|] == before;
    SkipsTo(text, |before|);
  }

  /** A byte that is refused ends the parse, whatever follows. */
  lemma ByteRefused(before: bytes, cut: Cut, c: byte, rest: bytes, column: seq<nat>, strtod: FloatReader)
    requires Blank(before) && Fresh(column) && CutFits(cut, |column|, strtod)
    requires cut.BehindElem? ==> LastEnded(cut.done, [c] + rest)
    requires Complaint(cut, c).Some?
    ensures CreateNode(before + (CutText(cut) + ([c] + rest)), column, strtod)
         == Err(LexerError(Complaint(cut, c).value))
  {
    hide ParseBytes, ParseText, CutText, Complaint, Step, CutFits, IsScalarText, Poised;
    var text := before + (CutText(cut) + ([c] + rest));
    var s, nodes := ReadCut(before, cut, [c] + rest, column, strtod);
    ComplaintStep(s, nodes, cut, c);
    ByteFails(Input(text, |column|, strtod), s, nodes, c, Complaint(cut, c).value, rest);
  }

  lemma ByteFails(inp: Input, s: Lex, nodes: seq<Node>, c: byte, e: JsonError, rest: bytes)
    requires Valid(s) && Step(s, c).Fail? && Step(s, c).error == e && Step(s, c).events == []
    ensures ParseBytes(inp, Parsing(s, nodes), [c] + rest) == LexError(e, Step(s, c).nescapes)
  {
    hide ParseBytes, Step;
    ParseCons(inp, Parsing(s, nodes), c, rest);
    ParseStopped(inp, ParseByte(inp, Parsing(s, nodes), c), rest);
  }

  /** With a level to spare the bytes of the table are the only ones that are refused. */
  lemma RefusedExactly(before: bytes, cut: Cut, c: byte, column: seq<nat>, strtod: FloatReader, e: JsonError)
    requires Blank(before) && Fresh(column) && CutFits(cut, |column|, strtod) && |cut.path| + 2 < |column|
    requires cut.BehindElem? ==> LastEnded(cut.done, [c])
    ensures CreateNode(before + (CutText(cut) + [c]), column, strtod) == Err(LexerError(e)) <==>
      Complaint(cut, c) == Some(e)
  {
    hide ParseBytes, ParseText, CutText, Complaint, Step, CutFits, IsScalarText, Poised;
    var text := before + (CutText(cut) + [c]);
    assert [c] + [] == [c];
    if Complaint(cut, c).Some? {
      ByteRefused(before, cut, c, [], column, strtod);
    } else {
      var s, nodes := ReadCut(before, cut, [c], column, strtod);
      ComplaintStep(s, nodes, cut, c);
      ByteGoes(Input(text, |column|, strtod), s, nodes, c);
    }
  }

  /** Brackets, quotes and first bytes of barewords stop no callback with an error. */
  lemma ByteGoes(inp: Input, s: Lex, nodes: seq<Node>, c: byte)
    requires Valid(s) && (Top(s).kind == ListFrame || Top(s).kind == ObjectFrame) && Step(s, c).Next?
    ensures var p := ParseBytes(inp, Parsing(s, nodes), [c]);
      !p.LexError? && (p.CallbackStop? ==> !p.stop.CallbackError?)
  {
    hide ParseBytes, Step;
    assert [c] + [] == [c];
    ParseCons(inp, Parsing(s, nodes), c, []);
    ParseNothing(inp, ParseByte(inp, Parsing(s, nodes), c));
    OneCallback(s, c);
    var events := Step(s, c).events;
    if events != [] {
      EventsOne(inp, nodes, events[0]);
      NoComplaint(inp, nodes, events[0]);
    }
  }

  lemma OneCallback(s: Lex, c: byte)
    requires Valid(s) && (Top(s).kind == ListFrame || Top(s).kind == ObjectFrame) && Step(s, c).Next?
    ensures var events := Step(s, c).events;
      events == [] || (events == [events[0]] && (events[0].Pop? ==> IsContainer(events[0].kind)))
  {
  }

  lemma NoComplaint(inp: Input, nodes: seq<Node>, ev: Event)
    requires ev.Pop? ==> IsContainer(ev.kind)
    ensures var b := OnEvent(inp, nodes, ev); b.Stopped? ==> !b.stop.CallbackError?
  {
  }

  /** Nothing behind the cut: a container is open. */
  lemma CutIncomplete(before: bytes, cut: Cut, column: seq<nat>, strtod: FloatReader)
    requires Blank(before) && Fresh(column) && CutFits(cut, |column|, strtod)
    requires cut.BehindElem? ==> LastEnded(cut.done, [])
    ensures CreateNode(before + CutText(cut), column, strtod) == Err(Incomplete)
  {
    hide ParseBytes, ParseText, CutText, CutFits, IsScalarText, Poised;
    var text := before + CutText(cut);
    assert CutText(cut) + [] == CutText(cut);
    var s, nodes := ReadCut(before, cut, [], column, strtod);
    ParseNothing(Input(text, |column|, strtod), Parsing(s, nodes));
  }

  /** White space is no document. */
  lemma BlankNotFound(w: bytes, column: seq<nat>, strtod: FloatReader)
    requires Blank(w) && |column| >= 2
    ensures CreateNode(w, column, strtod) == Err(ValueNotFound)
  {
    hide ParseBytes;
    var inp := Input(w, |column|, strtod);
    BlankIsWhitespace(w);
    assert SkipWhitespace(w) == |w|;
    assert w + [] == w;
    DoneBlank(inp, Start(column), [], w, []);
    ParseNothing(inp, Parsing(Start(column).(pos := |w|), []));
  }

  // ---- behind the document ----------------------------------------------------------------------------------

  function BehindRootComplaint(c: byte): Option<JsonError> {
    if IsBlank(c) || c == 0x2c then None
    else if c == 0x22 then Some(StringOutsideContainer)
    else if StartsBare(c) || c == 0x7b || c == 0x5b then Some(CantInsert)
    else if c == 0x3a then Some(StrayToken)
    else if c == 0x7d || c == 0x5d then Some(BracketMismatch)
    else Some(Alien(c))
  }

  lemma BehindRootStep(s: Lex, len: nat, c: byte)
    requires ValueReady(s) && |s.frames| == 1
    ensures Valid(Done(s, len))
    ensures BehindRootComplaint(c).Some? ==>
      Step(Done(s, len), c) == Fail(BehindRootComplaint(c).value, [], s.nescapes)
  {
  }

  /** Behind the root nothing but white space and a comma is let through. */
  lemma BehindRootRefused(before: bytes, doc: Doc, after: bytes, c: byte, rest: bytes, column: seq<nat>,
                          strtod: FloatReader)
    requires DocFits(doc) && Bracketed(doc) && Blank(before) && Blank(after) && DocMeans(doc, strtod).Some?
    requires |column| >= 2 && Fresh(column) && HasRoom(doc, |column|) && BehindRootComplaint(c).Some?
    ensures CreateNode(before + (DocText(doc) + (after + ([c] + rest))), column, strtod)
         == Err(LexerError(BehindRootComplaint(c).value))
  {
    hide DocText, DocMeans, ParseBytes, Frames, Slots, DocFits, Blank, Step, BehindRootComplaint, IsScalarText;
    var behind := after + ([c] + rest);
    var text := before + (DocText(doc) + behind);
    DocBegins(before, doc, behind);
    var inp, s, len := Input(text, |column|, strtod), Start(column), |DocText(doc)|;
    DoneBlank(inp, s, [], before, DocText(doc) + behind);
    var s1 := s.(pos := |before|);
    TextAt(before, DocText(doc) + behind);
    ReadDoc(inp, s1, [], doc, behind);
    var v := DocMeans(doc, strtod).value;
    DoneBlank(inp, Done(s1, len), [v], after, [c] + rest);
    BehindRootStep(s1, len + |after|, c);
    ByteFails(inp, Done(s1, len + |after|), [v], c, BehindRootComplaint(c).value, rest);
  }
}
