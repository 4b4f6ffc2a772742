/** Command lines, by a grammar on bytes: what splits, and into which words. */
module Words {
  // A word is bare, or bare up to a quoted part that ends it. Words stand apart by blanks. A line
  // splits if and only if it is made of such words, and then into what they stand for.

  import opened Bytes
  import opened Quoting

  // ---- the grammar --------------------------------------------------------------------------

  /** The white space of the C locale. */
  predicate Blank(c: byte) { c == 0x20 || 0x09 <= c <= 0x0d }

  predicate Blanks(s: bytes) { forall i :: 0 <= i < |s| ==> Blank(s[i]) }

  /** The blanks that end a bare word; a vertical tab or a form feed within one is part of it. */
  predicate Stop(c: byte) { c == 0x20 || c == 0x09 || c == 0x0a || c == 0x0d }

  predicate BareByte(c: byte) { !Stop(c) && c != QUOTE && c != APOSTROPHE }

  predicate HexDigitByte(c: byte) { 0x30 <= c <= 0x39 || 0x41 <= c <= 0x46 || 0x61 <= c <= 0x66 }

  function HexWorth(c: byte): (n: nat)
    requires HexDigitByte(c)
    ensures n < 16
  {
    if c <= 0x39 then c as nat - 0x30 else if c <= 0x46 then c as nat - 0x41 + 10 else c as nat - 0x61 + 10
  }

  /** What a backslash makes of n, r, t, b and a; another byte stands for itself. */
  function Stands(c: byte): byte {
    if c == 0x6e then 0x0a else if c == 0x72 then 0x0d else if c == 0x74 then 0x09
    else if c == 0x62 then 0x08 else if c == 0x61 then 0x07 else c
  }

  /** A byte of a quoted part, as it is, behind a backslash, or by two hexadecimal digits. */
  datatype Item = Raw(c: byte) | Escaped(c: byte) | Hex(h: byte, l: byte)

  function ItemText(i: Item): (t: bytes)
    ensures t != []
  {
    match i
    case Raw(c) => [c]
    case Escaped(c) => [BACKSLASH, c]
    case Hex(h, l) => [BACKSLASH, 0x78, h, l]
  }

  function ItemsText(items: seq<Item>): bytes { if items == [] then [] else ItemText(items[0]) + ItemsText(items[1..]) }

  predicate IsHexPair(s: bytes) { |s| >= 2 && HexDigitByte(s[0]) && HexDigitByte(s[1]) }

  /**
   In double quotes, a backslash goes with the byte behind it, unless that is an x with two
   hexadecimal digits. In single quotes it only goes with an apostrophe.
   */
  predicate ItemFits(q: byte, i: Item, behind: bytes) {
    match i
    case Raw(c) =>
      if q == QUOTE then c != QUOTE && c != BACKSLASH
      else c != APOSTROPHE && !(c == BACKSLASH && behind != [] && behind[0] == APOSTROPHE)
    case Escaped(c) => if q == QUOTE then !(c == 0x78 && IsHexPair(behind)) else c == APOSTROPHE
    case Hex(h, l) => q == QUOTE && HexDigitByte(h) && HexDigitByte(l)
  }

  /** The items of a quoted part, which its closing quote or nothing is behind. */
  predicate ItemsFit(q: byte, items: seq<Item>, behind: bytes) {
    items == [] || (ItemFits(q, items[0], ItemsText(items[1..]) + behind) && ItemsFit(q, items[1..], behind))
  }

  function ItemMeans(q: byte, i: Item): byte {
    match i
    case Raw(c) => c
    case Escaped(c) => if q == QUOTE then Stands(c) else c
    case Hex(h, l) => if HexDigitByte(h) && HexDigitByte(l) then (HexWorth(h) * 16 + HexWorth(l)) as byte else l
  }

  function ItemsMean(q: byte, items: seq<Item>): bytes {
    if items == [] then [] else [ItemMeans(q, items[0])] + ItemsMean(q, items[1..])
  }

  /** A word: its bare part, and the quoted part that may end it. */
  datatype Word = Word(bare: bytes, quoted: Option<Part>)

  datatype Part = Part(quote: byte, items: seq<Item>)

  predicate WordFits(w: Word) {
    && (forall i :: 0 <= i < |w.bare| ==> BareByte(w.bare[i]))
    && (w.bare != [] ==> !Blank(w.bare[0]))
    && match w.quoted
       case None => w.bare != []
       case Some(p) => (p.quote == QUOTE || p.quote == APOSTROPHE) && ItemsFit(p.quote, p.items, [p.quote])
  }

  function PartText(p: Part): bytes { [p.quote] + (ItemsText(p.items) + [p.quote]) }

  function WordText(w: Word): bytes { w.bare + if w.quoted.None? then [] else PartText(w.quoted.value) }

  function WordMeans(w: Word): bytes {
    w.bare + if w.quoted.None? then [] else ItemsMean(w.quoted.value.quote, w.quoted.value.items)
  }

  /** What may stand behind a word: nothing, or a blank that ends it. */
  predicate Apart(w: Word, behind: bytes) {
    behind != [] ==> if w.quoted.None? then Stop(behind[0]) else Blank(behind[0])
  }

  /** Words with the blanks behind them; there are some between two words. */
  datatype Spaced = Spaced(word: Word, blanks: bytes)

  predicate LineFits(ws: seq<Spaced>) {
    ws == [] ||
    (WordFits(ws[0].word) && Blanks(ws[0].blanks) && Apart(ws[0].word, ws[0].blanks)
     && (|ws| > 1 ==> ws[0].blanks != []) && LineFits(ws[1..]))
  }

  function LineText(ws: seq<Spaced>): bytes {
    if ws == [] then [] else WordText(ws[0].word) + (ws[0].blanks + LineText(ws[1..]))
  }

  function LineMeans(ws: seq<Spaced>): (r: seq<bytes>)
    ensures |r| == |ws|
  {
    if ws == [] then [] else [WordMeans(ws[0].word)] + LineMeans(ws[1..])
  }

  // ---- every such line splits -------------------------------------------------------------------

  lemma HexAgrees(c: byte)
    ensures HexDigitByte(c) <==> IsHexDigit(c)
    ensures HexDigitByte(c) ==> HexToInt(c) == HexWorth(c)
  {
  }

  lemma BlankIsSpace(c: byte)
    ensures Blank(c) <==> IsSpace(c)
  {
  }

  function ModeOf(q: byte): Mode { if q == QUOTE then InQuotes else InSingleQuotes }

  lemma {:induction false} ReadBare(b: bytes, rest: bytes, current: bytes)
    requires forall i :: 0 <= i < |b| ==> BareByte(b[i])
    ensures ReadToken(b + rest, Plain, current) == ReadToken(rest, Plain, current + b)
    decreases |b|
  {
    if b == [] {
      assert b + rest == rest && current + b == current;
    } else {
      assert (b + rest)[0] == b[0] && (b + rest)[1..] == b[1..] + rest && current + [b[0]] + b[1..] == current + b;
      assert BareByte(b[0]);
      ReadBare(b[1..], rest, current + [b[0]]);
    }
  }

  lemma ReadItem(q: byte, i: Item, behind: bytes, current: bytes)
    requires (q == QUOTE || q == APOSTROPHE) && ItemFits(q, i, behind) && (i.Raw? && i.c == BACKSLASH ==> behind != [])
    ensures ReadToken(ItemText(i) + behind, ModeOf(q), current)
         == ReadToken(behind, ModeOf(q), current + [ItemMeans(q, i)])
  {
    var s := ItemText(i) + behind;
    match i
    case Raw(c) =>
      assert s[0] == c && s[1..] == behind;
    case Escaped(c) =>
      assert s[0] == BACKSLASH && s[1] == c && s[2..] == behind;
      if |behind| >= 2 {
        assert s[2] == behind[0] && s[3] == behind[1];
        HexAgrees(behind[0]);
        HexAgrees(behind[1]);
      }
    case Hex(h, l) =>
      assert s[0] == BACKSLASH && s[1] == 0x78 && s[2] == h && s[3] == l && s[4..] == behind;
      HexAgrees(h);
      HexAgrees(l);
  }

  lemma {:induction false} ReadItems(q: byte, items: seq<Item>, behind: bytes, after: bytes, current: bytes)
    requires (q == QUOTE || q == APOSTROPHE) && behind != [] && behind[0] == q && ItemsFit(q, items, [q])
    ensures ReadToken(ItemsText(items) + behind, ModeOf(q), current)
         == ReadToken(behind, ModeOf(q), current + ItemsMean(q, items))
    decreases |items|
  {
    hide ReadToken, ItemFits;
    if items == [] {
      assert [] + behind == behind && current + [] == current;
    } else {
      var tail := ItemsText(items[1..]);
      assert ItemsText(items) + behind == ItemText(items[0]) + (tail + behind);
      FitsBehind(q, items[0], tail, behind);
      ReadItem(q, items[0], tail + behind, current);
      ReadItems(q, items[1..], behind, after, current + [ItemMeans(q, items[0])]);
      assert current + [ItemMeans(q, items[0])] + ItemsMean(q, items[1..]) == current + ItemsMean(q, items);
    }
  }

  /** A quote is no hexadecimal digit, so what is behind it does not matter. */
  lemma FitsBehind(q: byte, i: Item, tail: bytes, behind: bytes)
    requires (q == QUOTE || q == APOSTROPHE) && behind != [] && behind[0] == q && ItemFits(q, i, tail + [q])
    ensures ItemFits(q, i, tail + behind)
  {
    if |tail + behind| >= 2 && |tail| < 2 && IsHexPair(tail + behind) {
      if |tail| == 1 { assert (tail + behind)[1] == q; } else { assert (tail + behind)[0] == q; }
    }
    assert tail == [] ==> (tail + behind)[0] == (tail + [q])[0] == q;
    assert tail != [] ==> (tail + behind)[0] == (tail + [q])[0];
    if |tail| >= 2 { assert (tail + behind)[1] == tail[1] == (tail + [q])[1]; }
  }

  /** A word at the head of a line, and what is left: without the blank that ended it, if it was bare. */
  lemma ReadWord(w: Word, rest: bytes)
    requires WordFits(w) && Apart(w, rest)
    ensures ReadToken(WordText(w) + rest, Plain, [])
         == Token(WordMeans(w), if w.quoted.None? && rest != [] then rest[1..] else rest)
  {
    hide ReadToken, ItemsFit, Closed;
    match w.quoted
    case None =>
      assert WordText(w) + rest == w.bare + rest && [] + w.bare == w.bare == WordMeans(w);
      ReadBare(w.bare, rest, []);
      BareStops(rest, w.bare);
    case Some(p) =>
      var tail := ItemsText(p.items) + ([p.quote] + rest);
      PartGrouped(w.bare, p, rest);
      ReadBare(w.bare, [p.quote] + tail, []);
      assert [] + w.bare == w.bare && ([p.quote] + tail)[1..] == tail;
      QuoteOpens([p.quote] + tail, w.bare);
      ReadItems(p.quote, p.items, [p.quote] + rest, rest, w.bare);
      QuoteCloses(p.quote, rest, w.bare + ItemsMean(p.quote, p.items));
  }

  lemma PartGrouped(bare: bytes, p: Part, rest: bytes)
    ensures bare + PartText(p) + rest == bare + ([p.quote] + (ItemsText(p.items) + ([p.quote] + rest)))
  {
  }

  lemma BareStops(rest: bytes, current: bytes)
    requires rest != [] ==> Stop(rest[0])
    ensures ReadToken(rest, Plain, current) == Token(current, if rest != [] then rest[1..] else rest)
  {
  }

  lemma QuoteOpens(s: bytes, current: bytes)
    requires s != [] && (s[0] == QUOTE || s[0] == APOSTROPHE)
    ensures ReadToken(s, Plain, current) == ReadToken(s[1..], ModeOf(s[0]), current)
  {
  }

  lemma QuoteCloses(q: byte, rest: bytes, current: bytes)
    requires q == QUOTE || q == APOSTROPHE
    ensures ReadToken([q] + rest, ModeOf(q), current)
         == if rest != [] && !Blank(rest[0]) then Unbalanced else Token(current, rest)
  {
    assert ([q] + rest)[1..] == rest;
    if rest != [] {
      assert ([q] + rest)[1] == rest[0];
      BlankIsSpace(rest[0]);
    }
  }

  lemma {:induction false} BlanksSkipped(b: bytes, s: bytes)
    requires Blanks(b)
    ensures SplitArgs(b + s) == SplitArgs(s)
    decreases |b|
  {
    hide SplitArgs;
    if b == [] {
      assert b + s == s;
    } else {
      assert (b + s)[0] == b[0] && (b + s)[1..] == b[1..] + s;
      BlankIsSpace(b[0]);
      Quoting.Blank(b + s);
      BlanksSkipped(b[1..], s);
    }
  }

  lemma WordBegins(w: Word, rest: bytes)
    requires WordFits(w)
    ensures WordText(w) + rest != [] && !IsSpace((WordText(w) + rest)[0])
  {
    hide ItemsFit;
    if w.bare != [] {
      assert (WordText(w) + rest)[0] == w.bare[0];
      BlankIsSpace(w.bare[0]);
    } else {
      PartGrouped([], w.quoted.value, rest);
      assert (WordText(w) + rest)[0] == w.quoted.value.quote;
    }
  }

  lemma {:induction false} LineSplits(ws: seq<Spaced>)
    requires LineFits(ws)
    ensures SplitArgs(LineText(ws)) == Some(LineMeans(ws))
    decreases |ws|
  {
    hide SplitArgs, WordText, WordFits, ReadToken;
    if ws == [] {
      NoArgs();
    } else {
      var w, b, tail := ws[0].word, ws[0].blanks, LineText(ws[1..]);
      var rest := b + tail;
      if b == [] { assert ws[1..] == [] && rest == []; } else { assert rest[0] == b[0] && rest[1..] == b[1..] + tail; }
      WordBegins(w, rest);
      ReadWord(w, rest);
      Quoting.Blank(WordText(w) + rest);
      BlanksSkipped(b, tail);
      if b != [] { BlanksSkipped(b[1..], tail); }
      LineSplits(ws[1..]);
    }
  }

  // ---- and no other -----------------------------------------------------------------------------

  lemma {:induction false} ItemsEnd(q: byte, s: bytes, current: bytes) returns (items: seq<Item>, rest: bytes)
    requires (q == QUOTE || q == APOSTROPHE) && ReadToken(s, ModeOf(q), current).Token?
    ensures s == ItemsText(items) + ([q] + rest) && ItemsFit(q, items, [q])
    decreases |s|
  {
    hide ItemsText, ItemsFit, ItemFits;
    assert s != [];
    if s[0] == q {
      items, rest := [], s[1..];
      NoItems(q);
      assert s == [] + ([q] + rest);
    } else {
      var i := FirstItem(q, s, current);
      var k := |ItemText(i)|;
      items, rest := ItemsEnd(q, s[k..], current + [ItemMeans(q, i)]);
      OneItemMore(q, i, items, s, rest);
      items := [i] + items;
    }
  }

  lemma NoItems(q: byte)
    ensures ItemsText([]) == [] && ItemsFit(q, [], [q])
  {
  }

  lemma FirstItem(q: byte, s: bytes, current: bytes) returns (i: Item)
    requires (q == QUOTE || q == APOSTROPHE) && s != [] && s[0] != q && ReadToken(s, ModeOf(q), current).Token?
    ensures |ItemText(i)| <= |s| && s[..|ItemText(i)|] == ItemText(i) && ItemFits(q, i, s[|ItemText(i)|..])
    ensures ReadToken(s[|ItemText(i)|..], ModeOf(q), current + [ItemMeans(q, i)]).Token?
  {
    if |s| >= 4 { HexAgrees(s[2]); HexAgrees(s[3]); }
    if q == QUOTE && s[0] == BACKSLASH && |s| > 1 {
      i := if IsHexEscape(s) then Hex(s[2], s[3]) else Escaped(s[1]);
    } else if q == APOSTROPHE && s[0] == BACKSLASH && |s| > 1 && s[1] == APOSTROPHE {
      i := Escaped(APOSTROPHE);
    } else {
      i := Raw(s[0]);
    }
  }

  lemma OneItemMore(q: byte, i: Item, items: seq<Item>, s: bytes, rest: bytes)
    requires (q == QUOTE || q == APOSTROPHE) && ItemsFit(q, items, [q])
    requires var k := |ItemText(i)|;
      k <= |s| && s[..k] == ItemText(i) && ItemFits(q, i, s[k..]) && s[k..] == ItemsText(items) + ([q] + rest)
    ensures s == ItemsText([i] + items) + ([q] + rest) && ItemsFit(q, [i] + items, [q])
  {
    hide ItemText, ItemFits;
    var k, tail := |ItemText(i)|, ItemsText(items);
    assert ([i] + items)[0] == i && ([i] + items)[1..] == items;
    assert s == s[..k] + s[k..];
    assert ItemText(i) + (tail + ([q] + rest)) == ItemText(i) + tail + ([q] + rest);
    ShorterBehind(q, i, tail, rest);
  }

  lemma ShorterBehind(q: byte, i: Item, tail: bytes, rest: bytes)
    requires (q == QUOTE || q == APOSTROPHE) && ItemFits(q, i, tail + ([q] + rest))
    ensures ItemFits(q, i, tail + [q])
  {
    var long, short := tail + ([q] + rest), tail + [q];
    assert long[0] == short[0] && (|short| >= 2 ==> long[1] == short[1]);
  }

  lemma {:induction false} BareEnds(s: bytes, current: bytes) returns (b: bytes, rest: bytes)
    requires ReadToken(s, Plain, current).Token?
    ensures s == b + rest && forall i :: 0 <= i < |b| ==> BareByte(b[i])
    ensures rest != [] ==> !BareByte(rest[0])
    ensures ReadToken(s, Plain, current) == ReadToken(rest, Plain, current + b)
    decreases |s|
  {
    if s == [] || !BareByte(s[0]) {
      b, rest := [], s;
      assert current + b == current;
    } else {
      b, rest := BareEnds(s[1..], current + [s[0]]);
      b := [s[0]] + b;
      assert current + [s[0]] + b[1..] == current + b;
    }
  }

  /** The word at the head of a line that can be read. */
  lemma WordEnds(s: bytes) returns (w: Word, rest: bytes)
    requires s != [] && !Blank(s[0]) && ReadToken(s, Plain, []).Token?
    ensures WordFits(w) && Apart(w, rest) && s == WordText(w) + rest
  {
    hide ReadToken, ItemsFit;
    var b;
    b, rest := BareEnds(s, []);
    if b != [] { assert s[0] == b[0]; }
    if rest != [] && !Stop(rest[0]) {
      var q := rest[0];
      assert [] + b == b && rest == [q] + rest[1..];
      QuoteOpens(rest, b);
      var items, after := ItemsEnd(q, rest[1..], b);
      ReadItems(q, items, [q] + after, after, b);
      QuoteCloses(q, after, b + ItemsMean(q, items));
      w := Word(b, Some(Part(q, items)));
      PartGrouped(b, Part(q, items), after);
      rest := after;
    } else {
      w := Word(b, None);
      if rest != [] { assert s[0] == (b + rest)[0]; }
      assert s == b + [] + rest;
    }
  }

  lemma {:induction false} BlanksEnd(s: bytes) returns (b: bytes, rest: bytes)
    ensures s == b + rest && Blanks(b) && (rest != [] ==> !Blank(rest[0]))
    decreases |s|
  {
    if s == [] || !Blank(s[0]) {
      b, rest := [], s;
    } else {
      b, rest := BlanksEnd(s[1..]);
      b := [s[0]] + b;
    }
  }

  lemma {:induction false} LineEnds(s: bytes) returns (ws: seq<Spaced>)
    requires SplitArgs(s).Some? && (s != [] ==> !Blank(s[0]))
    ensures LineFits(ws) && s == LineText(ws)
    decreases |s|
  {
    hide SplitArgs, ReadToken, WordText, WordFits;
    if s == [] {
      ws := [];
    } else {
      BlankIsSpace(s[0]);
      Quoting.Blank(s);
      var w, rest := WordEnds(s);
      ReadWord(w, rest);
      WordBegins(w, []);
      assert WordText(w) + [] == WordText(w);
      var b, tail := BlanksEnd(rest);
      BlanksSkipped(b, tail);
      if b != [] { assert rest[0] == b[0] && rest[1..] == b[1..] + tail; BlanksSkipped(b[1..], tail); }
      if rest != [] { StopIsBlank(rest[0]); assert b != []; }
      ws := LineEnds(tail);
      if b == [] { NoLine(ws); }
      ws := [Spaced(w, b)] + ws;
    }
  }

  lemma StopIsBlank(c: byte)
    ensures Stop(c) ==> Blank(c)
  {
  }

  lemma NoLine(ws: seq<Spaced>)
    requires LineFits(ws) && LineText(ws) == []
    ensures ws == []
  {
    if ws != [] { WordBegins(ws[0].word, ws[0].blanks + LineText(ws[1..])); }
  }

  /** A line splits into words if and only if, its leading blanks apart, it is made of words that stand for them. */
  lemma SplitsExactly(line: bytes, words: seq<bytes>)
    ensures SplitArgs(line) == Some(words)
       <==> exists b: bytes, ws: seq<Spaced> ::
              Blanks(b) && LineFits(ws) && line == b + LineText(ws) && words == LineMeans(ws)
  {
    hide SplitArgs, LineFits, LineText;
    var b, s := BlanksEnd(line);
    BlanksSkipped(b, s);
    if SplitArgs(line) == Some(words) {
      var ws := LineEnds(s);
      LineSplits(ws);
    }
    if b': bytes, ws: seq<Spaced> :| Blanks(b') && LineFits(ws) && line == b' + LineText(ws) && words == LineMeans(ws) {
      BlanksSkipped(b', LineText(ws));
      LineSplits(ws);
    }
  }

  // ---- what does not split ----------------------------------------------------------------------

  /** Behind the items of a quoted part: nothing, a last backslash, or its quote and then a byte that is no blank. */
  predicate Unclosed(q: byte, behind: bytes) {
    || behind == []
    || behind == [BACKSLASH]
    || (|behind| > 1 && behind[0] == q && !Blank(behind[1]))
  }

  /** Such a line does not split, whatever words are in front. */
  lemma UnclosedFails(b: bytes, ws: seq<Spaced>, bare: bytes, q: byte, items: seq<Item>, behind: bytes)
    requires Blanks(b) && LineFits(ws) && (ws != [] ==> ws[|ws| - 1].blanks != [])
    requires (forall i :: 0 <= i < |bare| ==> BareByte(bare[i])) && (bare != [] ==> !Blank(bare[0]))
    requires (q == QUOTE || q == APOSTROPHE) && ItemsFit(q, items, behind) && Unclosed(q, behind)
    ensures SplitArgs(b + (LineText(ws) + (bare + ([q] + (ItemsText(items) + behind))))) == None
  {
    hide SplitArgs, LineFits, LineText, ReadToken, ItemsFit, ItemsText;
    var tail := ItemsText(items) + behind;
    var s := bare + ([q] + tail);
    BlanksSkipped(b, LineText(ws) + s);
    ReadBare(bare, [q] + tail, []);
    assert [] + bare == bare && ([q] + tail)[1..] == tail;
    QuoteOpens([q] + tail, bare);
    ItemsUnclosed(q, items, behind, bare);
    if bare != [] { BlankIsSpace(bare[0]); assert s[0] == bare[0]; } else { assert s[0] == q; }
    Quoting.Blank(s);
    WordsThenNone(ws, s);
  }

  lemma {:induction false} ItemsUnclosed(q: byte, items: seq<Item>, behind: bytes, current: bytes)
    requires (q == QUOTE || q == APOSTROPHE) && ItemsFit(q, items, behind) && Unclosed(q, behind)
    ensures ReadToken(ItemsText(items) + behind, ModeOf(q), current) == Unbalanced
    decreases |items|
  {
    hide ReadToken, ItemFits;
    if items == [] {
      assert [] + behind == behind;
      NeverCloses(q, behind, current);
    } else {
      var tail := ItemsText(items[1..]) + behind;
      assert ItemsText(items) + behind == ItemText(items[0]) + tail;
      if tail == [] && items[0] == Raw(BACKSLASH) {
        LastBackslash(q, current);
      } else {
        ReadItem(q, items[0], tail, current);
        ItemsUnclosed(q, items[1..], behind, current + [ItemMeans(q, items[0])]);
      }
    }
  }

  lemma LastBackslash(q: byte, current: bytes)
    requires q == QUOTE || q == APOSTROPHE
    ensures ReadToken([BACKSLASH] + [], ModeOf(q), current) == Unbalanced
  {
    var s: bytes := [BACKSLASH] + [];
    assert s == [BACKSLASH] && s[1..] == [];
    assert ReadToken(s, ModeOf(q), current) == ReadToken(s[1..], ModeOf(q), current + [BACKSLASH]);
  }

  lemma NeverCloses(q: byte, behind: bytes, current: bytes)
    requires (q == QUOTE || q == APOSTROPHE) && Unclosed(q, behind)
    ensures ReadToken(behind, ModeOf(q), current) == Unbalanced
  {
    if behind == [BACKSLASH] {
      LastBackslash(q, current);
      assert [BACKSLASH] + [] == behind;
    } else if behind != [] {
      assert behind == [q] + behind[1..];
      QuoteCloses(q, behind[1..], current);
    }
  }

  /** If what is behind some words does not split, the line does not. */
  lemma {:induction false} WordsThenNone(ws: seq<Spaced>, s: bytes)
    requires LineFits(ws) && (ws != [] ==> ws[|ws| - 1].blanks != []) && SplitArgs(s) == None
    ensures SplitArgs(LineText(ws) + s) == None
    decreases |ws|
  {
    hide SplitArgs, WordText, WordFits, ReadToken;
    if ws == [] {
      assert [] + s == s;
    } else {
      var w, b, tail := ws[0].word, ws[0].blanks, LineText(ws[1..]) + s;
      var rest := b + tail;
      assert LineText(ws) + s == WordText(w) + rest;
      assert b != [] && rest[0] == b[0] && rest[1..] == b[1..] + tail;
      WordBegins(w, rest);
      ReadWord(w, rest);
      Quoting.Blank(WordText(w) + rest);
      BlanksSkipped(b, tail);
      BlanksSkipped(b[1..], tail);
      WordsThenNone(ws[1..], s);
    }
  }

  /** In particular plain words, joined by blanks. */
  lemma PlainWords(b: bytes, ws: seq<Spaced>)
    requires Blanks(b) && LineFits(ws) && forall i :: 0 <= i < |ws| ==> ws[i].word.quoted.None?
    ensures SplitArgs(b + LineText(ws)) == Some(seq(|ws|, i requires 0 <= i < |ws| => ws[i].word.bare))
  {
    hide SplitArgs, LineFits, LineText;
    BlanksSkipped(b, LineText(ws));
    LineSplits(ws);
    PlainMeaning(ws);
  }

  lemma {:induction false} PlainMeaning(ws: seq<Spaced>)
    requires forall i :: 0 <= i < |ws| ==> ws[i].word.quoted.None?
    ensures LineMeans(ws) == seq(|ws|, i requires 0 <= i < |ws| => ws[i].word.bare)
    decreases |ws|
  {
    if ws != [] {
      PlainMeaning(ws[1..]);
      assert ws[0].word.bare + [] == ws[0].word.bare;
    }
  }
}
