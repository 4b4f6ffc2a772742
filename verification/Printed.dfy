/** Printed text by the grammar of JSON, and the round trip of trees with doubles. */
module Printed {
  // What is printed is a document of the grammar, with the layout as its white space. So the parser
  // reads it as what that document means. A double is a numeral then; if that has neither a fraction
  // nor an exponent, an integer comes back.

  import opened Bytes
  import opened Decimal
  import opened Utf8
  import opened Errors
  import opened Escape
  import opened Nodes
  import opened Lexer
  import opened Parser
  import opened Printer
  import opened RoundTrip
  import opened Numerals
  import opened Numbers
  import opened Strings
  import opened Documents

  // ---- strings ------------------------------------------------------------------------------------

  /** How a byte is printed. */
  function CharOf(c: byte, noescape: bool): Char {
    if c == 0x22 || c == 0x5c || c == 0x2f then Short(c)
    else if c == 0x08 then Short(0x62)
    else if c == 0x0c then Short(0x66)
    else if c == 0x0a then Short(0x6e)
    else if c == 0x0d then Short(0x72)
    else if c == 0x09 then Short(0x74)
    else if noescape || 0x20 <= c < 0x7f then Plain(c)
    else Unit([0x30, 0x30, HEX_DIGITS[c / 16], HEX_DIGITS[c % 16]])
  }

  function CharsOf(s: bytes, noescape: bool): seq<Char> {
    if s == [] then [] else [CharOf(s[0], noescape)] + CharsOf(s[1..], noescape)
  }

  lemma CharPrinted(c: byte, noescape: bool)
    ensures CharText(CharOf(c, noescape)) == EscapeByte(c, noescape)
  {
    EscapedForm(c, noescape);
    if CharOf(c, noescape).Unit? {
      var h := CharOf(c, noescape).digits;
      assert [0x5c, 0x75] + h == [0x5c, 0x75, 0x30, 0x30, h[2], h[3]];
    }
  }

  lemma CharMeansByte(c: byte, noescape: bool)
    requires LexSafe([c], noescape)
    ensures CharFits(CharOf(c, noescape))
    ensures CharMeans(CharOf(c, noescape)) == if noescape then [c] else Encode(c as int)
  {
    hide Encode, HexNumber, IsSimpleChar;
    assert [c][0] == c;
    SimpleFrom(c);
    if c < 0x80 { AsciiEncoded(c); }
    if CharOf(c, noescape).Unit? { HexOfUnit(c); }
  }

  lemma AsciiEncoded(c: byte)
    requires c < 0x80
    ensures Encode(c as int) == [c]
  {
  }

  lemma SimpleFrom(c: byte)
    ensures IsSimpleChar(c) ==> c >= 0x14
  {
  }

  lemma HexOfUnit(c: byte)
    ensures var ds := [0x30, 0x30, HEX_DIGITS[c / 16], HEX_DIGITS[c % 16]];
      FourHex(ds) && HexNumber(ds) == c as nat
  {
    HexDigitPlace(c as int / 16);
    HexDigitPlace(c as int % 16);
  }

  lemma HexDigitPlace(d: int)
    requires 0 <= d < 16
    ensures HexByte(HEX_DIGITS[d]) && HexPlace(HEX_DIGITS[d]) == d
  {
  }

  lemma {:induction false} StringPrinted(s: bytes, noescape: bool)
    ensures BodyText(CharsOf(s, noescape)) == EscapeBody(s, noescape)
    ensures StringText(CharsOf(s, noescape)) == Quoted(s, noescape)
  {
    hide CharText, EscapeByte, CharOf;
    if s != [] {
      StringPrinted(s[1..], noescape);
      CharPrinted(s[0], noescape);
    }
  }

  lemma {:induction false} StringMeansBytes(s: bytes, noescape: bool)
    requires LexSafe(s, noescape)
    ensures CharsFit(CharsOf(s, noescape)) && StringMeans(CharsOf(s, noescape)) == Recoded(s, noescape)
  {
    hide CharMeans, CharFits, CharOf, Encode;
    if s != [] {
      assert LexSafe(s[1..], noescape) && LexSafe([s[0]], noescape);
      StringMeansBytes(s[1..], noescape);
      CharMeansByte(s[0], noescape);
      assert s == [s[0]] + s[1..];
    }
  }

  // ---- numbers ------------------------------------------------------------------------------------

  function NumeralOf(i: int): Numeral { Numeral(i < 0, Digits(if i < 0 then -i else i), None, None) }

  lemma IntegerPrinted(i: int64, strtod: FloatReader)
    ensures NumeralFits(NumeralOf(i)) && NumeralText(NumeralOf(i)) == IntText(i)
    ensures NumeralMeans(NumeralOf(i), strtod) == Some(Integer(i))
  {
    hide Digits, Places, Value;
    var n: nat := if i < 0 then -(i as int) else i;
    LeadingDigit(n);
    ValueOfDigits(n);
    DecimalsAreDigits(Digits(n));
    ValueIsPlaces(Digits(n));
    if Digits(n)[0] == 0x30 && n == 0 { assert |Digits(n)| == 1; }
    assert NumeralText(NumeralOf(i)) == WholeText(NumeralOf(i)) + ([] + []);
  }

  /** The numerals that doubles are printed as. */
  type Spelling = double -> Numeral

  // ---- documents ----------------------------------------------------------------------------------

  /** The document that is printed for a tree at a depth. */
  function DocOf(n: Node, f: Format, d: int, nums: Spelling): Doc
    decreases n, 1
  {
    match n
    case Null => NullDoc
    case Boolean(b) => if b then TrueDoc else FalseDoc
    case Integer(i) => NumberDoc(NumeralOf(i))
    case Number(x) => NumberDoc(nums(x))
    case Text(s) => StringDoc(CharsOf(s, f.noescape))
    case KeyVal(_, _) => NullDoc
    case Dict(es) =>
      ObjectDoc(if es == [] then Trail(f, es, d) else Lead(f, es, d), ElemsOf(es, f, d + 1, [], Trail(f, es, d), nums))
    case Array(es) =>
      ListDoc(if es == [] then Trail(f, es, d) else Lead(f, es, d), ElemsOf(es, f, d + 1, [], Trail(f, es, d), nums))
  }

  function ElemOf(n: Node, f: Format, d: int, before: bytes, after: bytes, nums: Spelling): Elem
    decreases n, 2
  {
    if n.KeyVal? then Elem(before, Some(Key(CharsOf(n.key, f.noescape), [], f.space)), DocOf(n.val, f, d, nums), after)
    else Elem(before, None, DocOf(n, f, d, nums), after)
  }

  /** With the white space in front of the first and behind the last. */
  function ElemsOf(ns: seq<Node>, f: Format, d: int, before: bytes, after: bytes, nums: Spelling): (es: seq<Elem>)
    ensures |es| == |ns|
    decreases ns, 0
  {
    if ns == [] then []
    else
      [ElemOf(ns[0], f, d, before, if |ns| == 1 then after else [], nums)]
      + ElemsOf(ns[1..], f, d, f.newline + Indent(f, d), after, nums)
  }

  /** Every double in the tree is printed as its numeral, and its strings reach the lexer without an error. */
  predicate Spelled(n: Node, f: Format, nums: Spelling)
    decreases n, 1
  {
    match n
    case Number(x) => NumeralFits(nums(x)) && f.dtoa(x) == NumeralText(nums(x))
    case Text(s) => LexSafe(s, f.noescape)
    case KeyVal(k, v) => !v.KeyVal? && LexSafe(k, f.noescape) && Spelled(v, f, nums)
    case Dict(es) => AllSpelled(es, f, nums)
    case Array(items) => AllSpelled(items, f, nums)
    case _ => true
  }

  predicate AllSpelled(ns: seq<Node>, f: Format, nums: Spelling)
    decreases ns, 0
  {
    ns == [] || (Spelled(ns[0], f, nums) && AllSpelled(ns[1..], f, nums))
  }

  // ---- the text -------------------------------------------------------------------------------------

  /** The printed text is that document's. */
  lemma {:induction false} PrintedText(n: Node, f: Format, d: int, nums: Spelling)
    requires !n.KeyVal? && Spelled(n, f, nums)
    ensures Print(f, n, d) == DocText(DocOf(n, f, d, nums))
    decreases n, 1
  {
    hide NumeralText, StringText, Quoted, Lead, Trail, PrintEach, ElemsText, ElemsOf, AllSpelled, IntText, NumeralFits;
    match n
    case Integer(i) => IntegerPrinted(i, (x: bytes) => None);
    case Text(s) => StringPrinted(s, f.noescape);
    case Dict(es) =>
      PrintedEach(es, f, d + 1, [], Trail(f, es, d), nums);
      ContainerPrinted(f, es, d, LBRACE, RBRACE, ElemsText(ElemsOf(es, f, d + 1, [], Trail(f, es, d), nums)));
    case Array(es) =>
      PrintedEach(es, f, d + 1, [], Trail(f, es, d), nums);
      ContainerPrinted(f, es, d, LBRACKET, RBRACKET, ElemsText(ElemsOf(es, f, d + 1, [], Trail(f, es, d), nums)));
    case _ =>
  }

  lemma ContainerPrinted(f: Format, es: seq<Node>, d: int, open: byte, close: byte, inner: bytes)
    requires inner == if es == [] then [] else PrintEach(f, es, d + 1) + Trail(f, es, d)
    ensures [open] + Lead(f, es, d) + PrintEach(f, es, d + 1) + Trail(f, es, d) + [close]
         == [open] + ((if es == [] then Trail(f, es, d) else Lead(f, es, d)) + (inner + [close]))
  {
    hide Trail, Indent;
    if es == [] { assert PrintEach(f, es, d + 1) == [] && Lead(f, es, d) == []; }
  }

  lemma PrintedElem(n: Node, f: Format, d: int, before: bytes, after: bytes, nums: Spelling)
    requires Spelled(n, f, nums)
    ensures ElemText(ElemOf(n, f, d, before, after, nums)) == before + (Print(f, n, d) + after)
    decreases n, 2
  {
    hide DocText, StringText, Quoted, DocOf, Print;
    if n.KeyVal? {
      PrintedText(n.val, f, d, nums);
      StringPrinted(n.key, f.noescape);
      EntryPrinted(f, n, d);
      EntryGrouped(before, Quoted(n.key, f.noescape), f.space, Print(f, n.val, d), after);
    } else {
      PrintedText(n, f, d, nums);
      assert before + [] == before;
    }
  }

  lemma EntryPrinted(f: Format, n: Node, d: int)
    requires n.KeyVal?
    ensures Print(f, n, d) == Quoted(n.key, f.noescape) + [COLON] + f.space + Print(f, n.val, d)
  {
    hide Quoted;
  }

  lemma EntryGrouped(before: bytes, key: bytes, space: bytes, value: bytes, after: bytes)
    ensures before + (key + ([] + ([0x3a] + space))) + (value + after)
         == before + ((key + [COLON] + space + value) + after)
  {
    assert key + ([] + ([0x3a] + space)) == key + [COLON] + space;
    assert before + (key + [COLON] + space) + (value + after) == before + ((key + [COLON] + space) + (value + after));
    assert (key + [COLON] + space) + (value + after) == (key + [COLON] + space + value) + after;
  }

  lemma EachUnfold(ns: seq<Node>, f: Format, d: int, before: bytes, after: bytes, nums: Spelling)
    requires ns != []
    ensures var es := ElemsOf(ns, f, d, before, after, nums);
      && es != [] && es[0] == ElemOf(ns[0], f, d, before, if |ns| == 1 then after else [], nums)
      && es[1..] == ElemsOf(ns[1..], f, d, f.newline + Indent(f, d), after, nums)
      && ElemsText(es) == ElemText(es[0]) + MoreText(es[1..])
      && MoreText(es) == [COMMA] + (ElemText(es[0]) + MoreText(es[1..]))
  {
    hide ElemText, ElemOf, Indent;
  }

  lemma PrintedEach(ns: seq<Node>, f: Format, d: int, before: bytes, after: bytes, nums: Spelling)
    requires AllSpelled(ns, f, nums)
    ensures ElemsText(ElemsOf(ns, f, d, before, after, nums))
         == if ns == [] then [] else before + (PrintEach(f, ns, d) + after)
    decreases ns, 0
  {
    hide ElemText, ElemOf, Print, Spelled, Indent, ElemsOf, ElemsText, MoreText, PrintRest;
    if ns == [] {
      NoElements(ns, f, d, before, after, nums);
    } else {
      EachUnfold(ns, f, d, before, after, nums);
      PrintedElem(ns[0], f, d, before, if |ns| == 1 then after else [], nums);
      PrintedMore(ns[1..], f, d, after, nums);
      NoRest(f, ns[1..], d);
      Grouped(before, Print(f, ns[0], d), PrintRest(f, ns[1..], d), after);
    }
  }

  lemma NoElements(ns: seq<Node>, f: Format, d: int, before: bytes, after: bytes, nums: Spelling)
    requires ns == []
    ensures ElemsText(ElemsOf(ns, f, d, before, after, nums)) == MoreText(ElemsOf(ns, f, d, before, after, nums)) == []
  {
  }

  lemma NoRest(f: Format, ns: seq<Node>, d: int)
    ensures ns == [] ==> PrintRest(f, ns, d) == []
  {
  }

  lemma Grouped(a: bytes, b: bytes, c: bytes, e: bytes)
    ensures a + (b + []) + (c + e) == a + ((b + c) + e)
    ensures a + (b + e) + [] == a + ((b + []) + e)
  {
    assert b + [] == b;
    assert a + b + (c + e) == a + ((b + c) + e);
  }

  lemma PrintedMore(ns: seq<Node>, f: Format, d: int, after: bytes, nums: Spelling)
    requires AllSpelled(ns, f, nums)
    ensures MoreText(ElemsOf(ns, f, d, f.newline + Indent(f, d), after, nums))
         == if ns == [] then [] else PrintRest(f, ns, d) + after
    decreases ns, 0
  {
    hide ElemText, ElemOf, Print, Spelled, Indent, ElemsOf, ElemsText, MoreText;
    var before := f.newline + Indent(f, d);
    if ns == [] {
      NoElements(ns, f, d, before, after, nums);
    } else {
      EachUnfold(ns, f, d, before, after, nums);
      PrintedElem(ns[0], f, d, before, if |ns| == 1 then after else [], nums);
      PrintedMore(ns[1..], f, d, after, nums);
      NoRest(f, ns[1..], d);
      Grouped(before, Print(f, ns[0], d), PrintRest(f, ns[1..], d), after);
      assert Separator(f, d) == [COMMA] + before;
      assert PrintRest(f, ns, d) == [COMMA] + before + Print(f, ns[0], d) + PrintRest(f, ns[1..], d);
      CommaGrouped(before, Print(f, ns[0], d), PrintRest(f, ns[1..], d), after);
    }
  }

  lemma CommaGrouped(a: bytes, b: bytes, c: bytes, e: bytes)
    ensures [COMMA] + (a + ((b + c) + e)) == [COMMA] + a + b + c + e
  {
  }

  // ---- what comes back --------------------------------------------------------------------------------

  /** The tree that is read: strings recoded, and every double as what its numeral means. */
  function Returned(n: Node, noescape: bool, nums: Spelling, strtod: FloatReader): (v: Option<Node>)
    ensures v.Some? ==> v.value.KeyVal? == n.KeyVal?
    decreases n, 1
  {
    match n
    case Number(x) => if NumeralFits(nums(x)) then NumeralMeans(nums(x), strtod) else None
    case Text(s) => Some(Text(Recoded(s, noescape)))
    case KeyVal(k, val) =>
      (match Returned(val, noescape, nums, strtod)
       case None => None
       case Some(v) => Some(KeyVal(Recoded(k, noescape), v)))
    case Dict(es) =>
      (match AllReturned(es, noescape, nums, strtod) case None => None case Some(vs) => Some(Dict(vs)))
    case Array(es) =>
      (match AllReturned(es, noescape, nums, strtod) case None => None case Some(vs) => Some(Array(vs)))
    case _ => Some(n)
  }

  function AllReturned(ns: seq<Node>, noescape: bool, nums: Spelling, strtod: FloatReader): (vs: Option<seq<Node>>)
    ensures vs.Some? ==> |vs.value| == |ns| && forall i :: 0 <= i < |ns| ==> vs.value[i].KeyVal? == ns[i].KeyVal?
    decreases ns, 0
  {
    if ns == [] then Some([])
    else
      match Returned(ns[0], noescape, nums, strtod)
      case None => None
      case Some(v) =>
        match AllReturned(ns[1..], noescape, nums, strtod)
        case None => None
        case Some(vs) => Some([v] + vs)
  }

  /** The keys of the entries that come back. */
  lemma {:induction false} ReturnedKeys(es: seq<Node>, noescape: bool, nums: Spelling, strtod: FloatReader, i: nat)
    requires AllKeyVals(es) && AllReturned(es, noescape, nums, strtod).Some? && i < |es|
    ensures AllReturned(es, noescape, nums, strtod).value[i].key == Recoded(es[i].key, noescape)
  {
    hide Recoded;
    if i > 0 { ReturnedKeys(es[1..], noescape, nums, strtod, i - 1); }
  }

  lemma ReturnedDistinct(es: seq<Node>, noescape: bool, nums: Spelling, strtod: FloatReader)
    requires AllKeyVals(es) && DistinctKeys(es) && AllReturned(es, noescape, nums, strtod).Some?
    ensures var vs := AllReturned(es, noescape, nums, strtod).value; AllKeyVals(vs) && DistinctKeys(vs)
  {
    hide AllReturned;
    var vs := AllReturned(es, noescape, nums, strtod).value;
    forall i, j | 0 <= i < j < |vs| ensures vs[i].key != vs[j].key {
      ReturnedKeys(es, noescape, nums, strtod, i);
      ReturnedKeys(es, noescape, nums, strtod, j);
      if vs[i].key == vs[j].key && !noescape { Latin1Injective(es[i].key, es[j].key); }
    }
  }

  lemma {:induction false} GatheredDistinct(done: seq<Node>, pairs: seq<Node>)
    requires AllKeyVals(done + pairs) && DistinctKeys(done + pairs) && AllKeyVals(done) && AllKeyVals(pairs)
    ensures Gathered(done, pairs) == done + pairs
    decreases |pairs|
  {
    if pairs == [] {
      assert done + pairs == done;
    } else {
      assert forall i :: 0 <= i < |done| ==> (done + pairs)[i] == done[i];
      assert (done + pairs)[|done|] == pairs[0];
      assert SetKeyVal(done, pairs[0]) == done + [pairs[0]];
      assert done + [pairs[0]] + pairs[1..] == done + pairs;
      GatheredDistinct(done + [pairs[0]], pairs[1..]);
    }
  }

  // ---- what the document means --------------------------------------------------------------------------

  lemma LayoutBlank(f: Format, es: seq<Node>, d: int)
    requires BlankFormat(f)
    ensures Blank(Lead(f, es, d)) && Blank(Trail(f, es, d)) && Blank(f.newline + Indent(f, d)) && Blank(f.space)
    ensures Blank([])
  {
    BlankIsWhitespace([]);
    LeadBlank(f, es, d);
    IndentBlank(f, d);
    BlankIsWhitespace(Lead(f, es, d));
    BlankIsWhitespace(Trail(f, es, d));
    BlankIsWhitespace(f.newline + Indent(f, d));
    BlankIsWhitespace(f.space);
  }

  /** The document is one, and means what comes back. */
  lemma {:induction false} PrintedMeans(n: Node, f: Format, d: int, nums: Spelling, strtod: FloatReader)
    requires IsValue(n) && Spelled(n, f, nums) && BlankFormat(f)
    ensures var doc := DocOf(n, f, d, nums);
      && DocFits(doc) && Frames(doc) == FrameDepth(n) && Slots(doc) == NodeDepth(n)
      && Bracketed(doc) == (n.Dict? || n.Array?)
      && DocMeans(doc, strtod) == Returned(n, f.noescape, nums, strtod)
    decreases n, 1
  {
    hide NumeralText, NumeralMeans, NumeralFits, NumeralOf, CharsOf, CharsFit, StringMeans, Recoded, Lead, Trail, Blank,
        ElemsOf, ElemsFit, ElemsMean, AllReturned, AllSpelled, MostFrames, MostSlots, MaxFrameDepth, MaxNodeDepth,
        Gathered, BlankFormat, DistinctKeys;
    match n
    case Integer(i) => IntegerPrinted(i, strtod);
    case Text(s) => StringMeansBytes(s, f.noescape);
    case Dict(es) =>
      LayoutBlank(f, es, d);
      EachMeans(es, true, f, d + 1, [], Trail(f, es, d), nums, strtod);
      if AllReturned(es, f.noescape, nums, strtod).Some? {
        var vs := AllReturned(es, f.noescape, nums, strtod).value;
        ReturnedDistinct(es, f.noescape, nums, strtod);
        assert [] + vs == vs;
        GatheredDistinct([], vs);
      }
    case Array(es) =>
      LayoutBlank(f, es, d);
      EachMeans(es, false, f, d + 1, [], Trail(f, es, d), nums, strtod);
    case _ =>
  }

  lemma ElemMeansNode(n: Node, f: Format, d: int, before: bytes, after: bytes, nums: Spelling, strtod: FloatReader)
    requires WellFormed(n) && Spelled(n, f, nums) && BlankFormat(f) && Blank(before) && Blank(after)
    ensures var e := ElemOf(n, f, d, before, after, nums);
      && ElemFits(e, n.KeyVal?) && Frames(e.doc) == FrameDepth(n)
      && (if e.key.Some? then 1 else 0) + Slots(e.doc) == NodeDepth(n)
      && ElemMeans(e, n.KeyVal?, strtod) == Returned(n, f.noescape, nums, strtod)
    decreases n, 2
  {
    hide CharsOf, CharsFit, StringMeans, Recoded, DocOf, DocFits, DocMeans, Frames, Slots, Blank, Latin1;
    if n.KeyVal? {
      PrintedMeans(n.val, f, d, nums, strtod);
      StringMeansBytes(n.key, f.noescape);
      LayoutBlank(f, [], d);
      KeyKept(n.key, f.noescape);
    } else {
      PrintedMeans(n, f, d, nums, strtod);
    }
  }

  /** A key without a NUL has none when it comes back. */
  lemma KeyKept(key: bytes, noescape: bool)
    requires NUL !in key
    ensures CString(Recoded(key, noescape)) == Recoded(key, noescape)
  {
    if !noescape { Latin1NoNul(key); }
  }

  lemma EachMeans(ns: seq<Node>, keyed: bool, f: Format, d: int, before: bytes, after: bytes, nums: Spelling,
                  strtod: FloatReader)
    requires (forall i :: 0 <= i < |ns| ==> ns[i].KeyVal? == keyed) && AllWellFormed(ns) && AllSpelled(ns, f, nums)
    requires BlankFormat(f) && Blank(before) && Blank(after)
    ensures var es := ElemsOf(ns, f, d, before, after, nums);
      && ElemsFit(es, keyed) && MostFrames(es) == MaxFrameDepth(ns) && MostSlots(es) == MaxNodeDepth(ns)
      && ElemsMean(es, keyed, strtod) == AllReturned(ns, f.noescape, nums, strtod)
    decreases ns, 0
  {
    hide ElemOf, ElemFits, ElemMeans, Returned, Spelled, Blank, BlankFormat, Indent, WellFormed, Frames, Slots,
        FrameDepth, NodeDepth, ElemsOf, ElemText, MoreText, ElemsText, DocFits;
    if ns == [] {
      assert ElemsOf(ns, f, d, before, after, nums) == [];
    } else {
      var last := if |ns| == 1 then after else [];
      LayoutBlank(f, [], d);
      EachUnfold(ns, f, d, before, after, nums);
      ElemMeansNode(ns[0], f, d, before, last, nums, strtod);
      EachMeans(ns[1..], keyed, f, d, f.newline + Indent(f, d), after, nums, strtod);
    }
  }

  // ---- the round trip -----------------------------------------------------------------------------------

  /**
   Parsing what is printed, in a new context with room for it: the tree comes back with its strings
   recoded and its doubles as their numerals are read; a numeral that is refused is the error.
   */
  lemma PrintedReturns(n: Node, f: Format, nums: Spelling, column: seq<nat>, strtod: FloatReader)
    requires IsValue(n) && Spelled(n, f, nums) && BlankFormat(f)
    requires |column| >= 2 && Fresh(column) && Fits(n, |column|)
    ensures CreateNode(Print(f, n, 0), column, strtod)
         == match Returned(n, f.noescape, nums, strtod)
            case Some(v) => Ok(v)
            case None => Err(LexerError(InvalidNumber))
  {
    hide Print, DocText, DocOf, DocFits, DocMeans, CreateNode, Returned, Frames, Slots, WellFormed, Spelled,
        BlankFormat, FrameDepth, NodeDepth;
    var doc := DocOf(n, f, 0, nums);
    PrintedText(n, f, 0, nums);
    PrintedMeans(n, f, 0, nums, strtod);
    assert [] + (DocText(doc) + []) == DocText(doc);
    DocumentMeans([], doc, [], column, strtod);
  }

  /** Every double is printed with a fraction or an exponent, and `strtod` reads its bits back. */
  predicate DoublesReturn(n: Node, nums: Spelling, strtod: FloatReader)
    decreases n, 1
  {
    match n
    case Number(x) => NumeralFits(nums(x)) && !IsWhole(nums(x)) && strtod(NumeralText(nums(x))) == Some(x)
    case KeyVal(_, v) => DoublesReturn(v, nums, strtod)
    case Dict(es) => AllDoublesReturn(es, nums, strtod)
    case Array(items) => AllDoublesReturn(items, nums, strtod)
    case _ => true
  }

  predicate AllDoublesReturn(ns: seq<Node>, nums: Spelling, strtod: FloatReader)
    decreases ns, 0
  {
    ns == [] || (DoublesReturn(ns[0], nums, strtod) && AllDoublesReturn(ns[1..], nums, strtod))
  }

  /** Exactly then, and if escaping is off or all text is ASCII, the very same tree comes back. */
  lemma {:induction false} SameReturned(n: Node, noescape: bool, nums: Spelling, strtod: FloatReader)
    ensures Returned(n, noescape, nums, strtod) == Some(n) <==>
      DoublesReturn(n, nums, strtod) && (noescape || AsciiTree(n))
    decreases n, 1
  {
    hide NumeralText, NumeralFits, AllReturned, AllDoublesReturn, AllAscii;
    match n
    case Text(s) => Latin1Identity(s);
    case KeyVal(k, v) =>
      Latin1Identity(k);
      SameReturned(v, noescape, nums, strtod);
    case Dict(es) => AllSameReturned(es, noescape, nums, strtod);
    case Array(items) => AllSameReturned(items, noescape, nums, strtod);
    case _ =>
  }

  lemma {:induction false} AllSameReturned(ns: seq<Node>, noescape: bool, nums: Spelling, strtod: FloatReader)
    ensures AllReturned(ns, noescape, nums, strtod) == Some(ns) <==>
      AllDoublesReturn(ns, nums, strtod) && (noescape || AllAscii(ns))
    decreases ns, 0
  {
    hide Returned, DoublesReturn, AsciiTree;
    if ns != [] {
      SameReturned(ns[0], noescape, nums, strtod);
      AllSameReturned(ns[1..], noescape, nums, strtod);
      assert ns == [ns[0]] + ns[1..];
      var vs := AllReturned(ns, noescape, nums, strtod);
      if vs.Some? { assert vs.value[1..] == AllReturned(ns[1..], noescape, nums, strtod).value; }
    }
  }

  lemma PrintedReturnsSame(n: Node, f: Format, nums: Spelling, column: seq<nat>, strtod: FloatReader)
    requires IsValue(n) && Spelled(n, f, nums) && BlankFormat(f)
    requires |column| >= 2 && Fresh(column) && Fits(n, |column|)
    ensures CreateNode(Print(f, n, 0), column, strtod) == Ok(n) <==>
      DoublesReturn(n, nums, strtod) && (f.noescape || AsciiTree(n))
  {
    hide Returned, DoublesReturn, AsciiTree, CreateNode, Print, IsValue, Spelled;
    PrintedReturns(n, f, nums, column, strtod);
    SameReturned(n, f.noescape, nums, strtod);
  }
}
