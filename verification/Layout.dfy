/** Layout: indented text is the compact text with white space put in. */
module Layout {
  // A reader of the compact text who keeps track of strings and of the open brackets can lay it out:
  // it needs to know nothing else of the tree.

  import opened Bytes
  import opened Decimal
  import opened Escape
  import opened Nodes
  import opened Printer

  // ---- the layout of a text -------------------------------------------------------------------

  /** So many copies of a text, one behind the other. */
  function Copies(s: bytes, n: nat): bytes { if n == 0 then [] else Copies(s, n - 1) + s }

  lemma {:induction false} CopiesExactly(s: bytes, n: nat)
    ensures |Copies(s, n)| == n * |s|
    ensures forall k: nat :: k < n ==> k * |s| + |s| <= |Copies(s, n)| && Copies(s, n)[k * |s|..k * |s| + |s|] == s
  {
    if n > 0 {
      CopiesExactly(s, n - 1);
      forall k: nat | k < n
        ensures k * |s| + |s| <= |Copies(s, n)| && Copies(s, n)[k * |s|..k * |s| + |s|] == s
      {
        var front := Copies(s, n - 1);
        if k < n - 1 {
          assert Copies(s, n)[k * |s|..k * |s| + |s|] == front[k * |s|..k * |s| + |s|];
        } else {
          assert k * |s| == |front|;
        }
      }
    }
  }

  predicate Opens(c: byte) { c == 0x7b || c == 0x5b }

  predicate Closes(c: byte) { c == 0x7d || c == 0x5d }

  /** A new line, indented for the brackets that are open. */
  function Line(f: Format, depth: nat): bytes { f.newline + Copies(f.indent, depth) }

  /**
   The layout of the rest of a compact text: with so many brackets open, within a string or not,
   and right behind an opening bracket or not. Lines begin behind an opening bracket and a comma and
   before a closing one, except in an empty container; there the indentation comes all the same.
   */
  function Relaid(f: Format, s: bytes, depth: nat, quoted: bool, first: bool): bytes
    decreases |s|
  {
    if s == [] then []
    else
      var c, rest := s[0], s[1..];
      if quoted then
        if c == 0x5c && rest != [] then [c, rest[0]] + Relaid(f, rest[1..], depth, true, false)
        else [c] + Relaid(f, rest, depth, c != 0x22, false)
      else if Closes(c) then
        var d := if depth == 0 then 0 else depth - 1;
        (if first then [] else f.newline) + Copies(f.indent, d) + [c] + Relaid(f, rest, d, false, false)
      else
        (if first then Line(f, depth) else []) + [c] +
        (if c == 0x22 then Relaid(f, rest, depth, true, false)
         else if Opens(c) then Relaid(f, rest, depth + 1, false, true)
         else if c == 0x2c then Line(f, depth) + Relaid(f, rest, depth, false, false)
         else if c == 0x3a then f.space + Relaid(f, rest, depth, false, false)
         else Relaid(f, rest, depth, false, false))
  }

  // ---- pieces of text ---------------------------------------------------------------------------

  /** A byte that stands for nothing but itself outside strings. */
  predicate PlainByte(c: byte) { !Opens(c) && !Closes(c) && c != 0x22 && c != 0x2c && c != 0x3a }

  predicate Plain(w: bytes) { forall i :: 0 <= i < |w| ==> PlainByte(w[i]) }

  /** `%.17g` prints something, and no brackets, quotes, commas or colons. */
  ghost predicate PlainDoubles(f: Format) { forall d: double :: f.dtoa(d) != [] && Plain(f.dtoa(d)) }

  /** The same format without any layout. */
  function Unlaid(f: Format): Format { Format([], [], [], f.noescape, f.dtoa) }

  /** What comes in front of a value that an opening bracket is in front of. */
  function Lined(f: Format, depth: nat, first: bool): bytes { if first then Line(f, depth) else [] }

  lemma {:induction false} RelayPlain(f: Format, w: bytes, rest: bytes, depth: nat, first: bool)
    requires Plain(w) && w != []
    ensures Relaid(f, w + rest, depth, false, first)
         == Lined(f, depth, first) + (w + Relaid(f, rest, depth, false, false))
    decreases |w|
  {
    hide Relaid, Line, Lined;
    assert PlainByte(w[0]) && w == [w[0]] + w[1..] && w + rest == [w[0]] + (w[1..] + rest);
    RelayOne(f, w[0], w[1..] + rest, depth, first);
    if |w| == 1 {
      assert w[1..] + rest == rest && w == [w[0]];
    } else {
      RelayPlain(f, w[1..], rest, depth, false);
      NotLined(f, depth);
      PlainGrouped(Lined(f, depth, first), w[0], w[1..], Relaid(f, rest, depth, false, false));
    }
  }

  lemma RelayOne(f: Format, c: byte, s: bytes, depth: nat, first: bool)
    requires PlainByte(c)
    ensures Relaid(f, [c] + s, depth, false, first)
         == Lined(f, depth, first) + ([c] + Relaid(f, s, depth, false, false))
  {
    hide Line;
    assert ([c] + s)[1..] == s;
  }

  lemma PlainGrouped(a: bytes, c: byte, w: bytes, r: bytes)
    ensures a + ([c] + ([] + (w + r))) == a + (([c] + w) + r)
  {
    assert [] + (w + r) == w + r;
  }

  /** One byte of a string, as it is printed, is laid out as it stands. */
  lemma RelayEscaped(f: Format, c: byte, noescape: bool, rest: bytes, depth: nat)
    ensures Relaid(f, EscapeByte(c, noescape) + rest, depth, true, false)
         == EscapeByte(c, noescape) + Relaid(f, rest, depth, true, false)
  {
    var e := EscapeByte(c, noescape);
    EscapeShape(c, noescape);
    if |e| == 1 {
      assert (e + rest)[0] == e[0] && (e + rest)[1..] == rest;
    } else {
      var tail := e[2..] + rest;
      assert (e + rest)[0] == e[0] && (e + rest)[1] == e[1] && (e + rest)[1..][1..] == tail;
      RelayWithin(f, e[2..], rest, depth);
      assert e == [e[0], e[1]] + e[2..];
    }
  }

  lemma EscapeShape(c: byte, noescape: bool)
    ensures var e := EscapeByte(c, noescape);
      if |e| == 1 then e[0] != 0x5c && e[0] != 0x22
      else |e| >= 2 && e[0] == 0x5c && forall i :: 2 <= i < |e| ==> e[i] != 0x5c && e[i] != 0x22
  {
  }

  lemma {:induction false} RelayWithin(f: Format, w: bytes, rest: bytes, depth: nat)
    requires forall i :: 0 <= i < |w| ==> w[i] != 0x5c && w[i] != 0x22
    ensures Relaid(f, w + rest, depth, true, false) == w + Relaid(f, rest, depth, true, false)
    decreases |w|
  {
    if w == [] {
      assert w + rest == rest;
    } else {
      assert (w + rest)[0] == w[0] && (w + rest)[1..] == w[1..] + rest;
      RelayWithin(f, w[1..], rest, depth);
      assert w == [w[0]] + w[1..];
    }
  }

  lemma {:induction false} RelayBody(f: Format, s: bytes, noescape: bool, rest: bytes, depth: nat)
    ensures Relaid(f, EscapeBody(s, noescape) + rest, depth, true, false)
         == EscapeBody(s, noescape) + Relaid(f, rest, depth, true, false)
    decreases |s|
  {
    hide Relaid, EscapeByte;
    if s == [] {
      assert [] + rest == rest;
    } else {
      var tail := EscapeBody(s[1..], noescape);
      assert EscapeBody(s, noescape) + rest == EscapeByte(s[0], noescape) + (tail + rest);
      RelayEscaped(f, s[0], noescape, tail + rest, depth);
      RelayBody(f, s[1..], noescape, rest, depth);
    }
  }

  lemma RelayString(f: Format, s: bytes, noescape: bool, rest: bytes, depth: nat, first: bool)
    ensures Relaid(f, Quoted(s, noescape) + rest, depth, false, first)
         == Lined(f, depth, first) + (Quoted(s, noescape) + Relaid(f, rest, depth, false, false))
  {
    hide EscapeBody;
    var body, tail := EscapeBody(s, noescape), [QUOTE] + rest;
    var text := Quoted(s, noescape) + rest;
    assert text == [QUOTE] + (body + tail);
    RelayQuote(f, body + tail, depth, first);
    RelayBody(f, s, noescape, tail, depth);
    assert tail[1..] == rest;
    Group5(Lined(f, depth, first), [QUOTE], body, [QUOTE], Relaid(f, rest, depth, false, false));
  }

  lemma RelayQuote(f: Format, s: bytes, depth: nat, first: bool)
    ensures Relaid(f, [QUOTE] + s, depth, false, first)
         == Lined(f, depth, first) + [QUOTE] + Relaid(f, s, depth, true, false)
  {
    assert ([QUOTE] + s)[1..] == s;
  }

  lemma Group5(a: bytes, b: bytes, c: bytes, d: bytes, e: bytes)
    ensures a + b + (c + (d + e)) == a + ((b + c + d) + e)
  {
  }

  lemma WordsPlain(i: int)
    ensures Plain(NULL_TEXT) && Plain(TRUE_TEXT) && Plain(FALSE_TEXT) && Plain(IntText(i))
  {
    hide Digits;
    var ds := Digits(if i < 0 then -i else i);
    assert forall k :: 0 <= k < |ds| ==> IsDigit(ds[k]);
  }

  // ---- the tree ---------------------------------------------------------------------------------

  lemma {:induction false} IndentIsCopies(f: Format, d: nat)
    ensures Indent(f, d) == Copies(f.indent, d)
    decreases d
  {
    if d > 0 {
      IndentIsCopies(f, d - 1);
      CopyInFront(f.indent, d - 1);
    }
  }

  lemma {:induction false} CopyInFront(s: bytes, n: nat)
    ensures s + Copies(s, n) == Copies(s, n) + s
  {
    if n > 0 {
      CopyInFront(s, n - 1);
      assert s + Copies(s, n) == (s + Copies(s, n - 1)) + s;
    }
  }

  /** The text of a tree, wherever it stands in a compact text. */
  lemma {:induction false} RelayTree(f: Format, n: Node, rest: bytes, depth: nat, first: bool)
    requires PlainDoubles(f)
    ensures Relaid(f, Print(Unlaid(f), n, depth) + rest, depth, false, first)
         == Lined(f, depth, first) + (Print(f, n, depth) + Relaid(f, rest, depth, false, false))
    decreases n, 1
  {
    hide Relaid, Quoted, IntText, Plain, PrintEach, Lead, Trail;
    match n
    case Dict(es) => RelayContainer(f, n, es, 0x7b, 0x7d, rest, depth, first);
    case Array(items) => RelayContainer(f, n, items, 0x5b, 0x5d, rest, depth, first);
    case KeyVal(k, v) => RelayEntry(f, k, v, rest, depth, first);
    case Text(s) => RelayString(f, s, f.noescape, rest, depth, first);
    case Number(d) => RelayPlain(f, f.dtoa(d), rest, depth, first);
    case Integer(i) =>
      WordsPlain(i);
      RelayPlain(f, IntText(i), rest, depth, first);
    case _ =>
      WordsPlain(0);
      RelayPlain(f, Head(f, n), rest, depth, first);
  }

  lemma RelayEntry(f: Format, k: bytes, v: Node, rest: bytes, depth: nat, first: bool)
    requires PlainDoubles(f)
    ensures Relaid(f, Print(Unlaid(f), KeyVal(k, v), depth) + rest, depth, false, first)
         == Lined(f, depth, first) + (Print(f, KeyVal(k, v), depth) + Relaid(f, rest, depth, false, false))
    decreases v, 2
  {
    hide Relaid, Quoted, Print, Lined;
    NotLined(f, depth);
    var key, c, value := Quoted(k, f.noescape), Print(Unlaid(f), v, depth), Print(f, v, depth);
    EntryText(Unlaid(f), k, v, depth);
    EntryText(f, k, v, depth);
    assert key + ([COLON] + ([] + c)) + rest == key + ([COLON] + (c + rest));
    RelayString(f, k, f.noescape, [COLON] + (c + rest), depth, first);
    RelayColon(f, c + rest, depth);
    RelayTree(f, v, rest, depth, false);
    Group6(Lined(f, depth, first), key, [COLON], f.space, value, Relaid(f, rest, depth, false, false));
  }

  lemma EntryText(f: Format, k: bytes, v: Node, depth: int)
    ensures Print(f, KeyVal(k, v), depth) == Quoted(k, f.noescape) + ([COLON] + (f.space + Print(f, v, depth)))
  {
    hide Quoted;
  }

  lemma RelayColon(f: Format, s: bytes, depth: nat)
    ensures Relaid(f, [COLON] + s, depth, false, false) == [COLON] + (f.space + Relaid(f, s, depth, false, false))
  {
    assert ([COLON] + s)[1..] == s;
    assert [] + [COLON] + (f.space + Relaid(f, s, depth, false, false))
        == [COLON] + (f.space + Relaid(f, s, depth, false, false));
  }

  lemma Group6(a: bytes, b: bytes, c: bytes, d: bytes, e: bytes, g: bytes)
    ensures a + (b + (c + (d + ([] + (e + g))))) == a + ((b + (c + (d + e))) + g)
  {
    assert [] + (e + g) == e + g;
    assert b + (c + (d + (e + g))) == (b + (c + (d + e))) + g;
  }

  lemma RelayContainer(f: Format, n: Node, ns: seq<Node>, open: byte, close: byte, rest: bytes, depth: nat, first: bool)
    requires PlainDoubles(f)
    requires (n.Dict? && n.entries == ns && open == 0x7b && close == 0x7d)
          || (n.Array? && n.items == ns && open == 0x5b && close == 0x5d)
    ensures Relaid(f, Print(Unlaid(f), n, depth) + rest, depth, false, first)
         == Lined(f, depth, first) + (Print(f, n, depth) + Relaid(f, rest, depth, false, false))
    decreases ns, 3
  {
    hide Relaid, PrintEach, Print, Lined;
    var c, inner := PrintEach(Unlaid(f), ns, depth + 1), PrintEach(f, ns, depth + 1);
    CompactContainer(f, n, ns, open, close, depth);
    LaidContainer(f, n, ns, open, close, depth);
    assert [open] + c + [close] + rest == [open] + (c + ([close] + rest));
    RelayOpen(f, open, c + ([close] + rest), depth, first);
    RelayEach(f, ns, [close] + rest, depth + 1);
    RelayClose(f, close, rest, depth + 1, ns == []);
    var lead, tail := if ns == [] then [] else Line(f, depth + 1), if ns == [] then [] else f.newline;
    Group8(Lined(f, depth, first), [open], lead, inner, tail, Copies(f.indent, depth), [close],
           Relaid(f, rest, depth, false, false));
  }

  lemma CompactContainer(f: Format, n: Node, ns: seq<Node>, open: byte, close: byte, depth: nat)
    requires (n.Dict? && n.entries == ns && open == 0x7b && close == 0x7d)
          || (n.Array? && n.items == ns && open == 0x5b && close == 0x5d)
    ensures Print(Unlaid(f), n, depth) == [open] + PrintEach(Unlaid(f), ns, depth + 1) + [close]
  {
    hide PrintEach;
    NoIndent(Unlaid(f), depth);
    NoIndent(Unlaid(f), depth + 1);
    assert Lead(Unlaid(f), ns, depth) == [] && Trail(Unlaid(f), ns, depth) == [];
    assert [open] + [] + PrintEach(Unlaid(f), ns, depth + 1) + [] + [close]
        == [open] + PrintEach(Unlaid(f), ns, depth + 1) + [close];
  }

  lemma LaidContainer(f: Format, n: Node, ns: seq<Node>, open: byte, close: byte, depth: nat)
    requires (n.Dict? && n.entries == ns && open == 0x7b && close == 0x7d)
          || (n.Array? && n.items == ns && open == 0x5b && close == 0x5d)
    ensures var lead, tail := if ns == [] then [] else Line(f, depth + 1), if ns == [] then [] else f.newline;
      Print(f, n, depth) == [open] + lead + PrintEach(f, ns, depth + 1) + (tail + Copies(f.indent, depth)) + [close]
  {
    hide PrintEach, Indent, Copies;
    IndentIsCopies(f, depth);
    IndentIsCopies(f, depth + 1);
  }

  lemma RelayOpen(f: Format, open: byte, s: bytes, depth: nat, first: bool)
    requires Opens(open)
    ensures Relaid(f, [open] + s, depth, false, first)
         == Lined(f, depth, first) + [open] + Relaid(f, s, depth + 1, false, true)
  {
    assert ([open] + s)[1..] == s;
  }

  lemma RelayClose(f: Format, close: byte, s: bytes, depth: nat, first: bool)
    requires Closes(close) && depth > 0
    ensures Relaid(f, [close] + s, depth, false, first)
         == (if first then [] else f.newline) + Copies(f.indent, depth - 1) + [close]
          + Relaid(f, s, depth - 1, false, false)
  {
    assert ([close] + s)[1..] == s;
  }

  lemma Group8(a: bytes, b: bytes, c: bytes, d: bytes, e: bytes, g: bytes, h: bytes, i: bytes)
    ensures a + b + (c + (d + (e + g + h + i))) == a + (b + c + d + (e + g) + h + i)
  {
    assert e + g + h + i == (e + g) + (h + i);
    assert b + c + d + (e + g) + h + i == b + (c + (d + ((e + g) + (h + i))));
  }

  /** The elements of a container, right behind its opening bracket. */
  lemma RelayEach(f: Format, ns: seq<Node>, rest: bytes, depth: nat)
    requires PlainDoubles(f)
    ensures Relaid(f, PrintEach(Unlaid(f), ns, depth) + rest, depth, false, true)
         == (if ns == [] then [] else Line(f, depth))
          + (PrintEach(f, ns, depth) + Relaid(f, rest, depth, false, ns == []))
    decreases ns, 2
  {
    hide Relaid, Print, PrintRest, Line;
    if ns == [] {
      var r := Relaid(f, rest, depth, false, true);
      assert [] + rest == rest && [] + ([] + r) == r;
    } else {
      var c, tail := Print(Unlaid(f), ns[0], depth), PrintRest(Unlaid(f), ns[1..], depth);
      assert PrintEach(Unlaid(f), ns, depth) + rest == c + (tail + rest);
      RelayTree(f, ns[0], tail + rest, depth, true);
      RelayRest(f, ns[1..], rest, depth);
      Group4(Line(f, depth), Print(f, ns[0], depth), PrintRest(f, ns[1..], depth),
             Relaid(f, rest, depth, false, false));
    }
  }

  lemma Group4(a: bytes, b: bytes, c: bytes, d: bytes)
    ensures a + (b + (c + d)) == a + ((b + c) + d)
  {
  }

  lemma RelayRest(f: Format, ns: seq<Node>, rest: bytes, depth: nat)
    requires PlainDoubles(f)
    ensures Relaid(f, PrintRest(Unlaid(f), ns, depth) + rest, depth, false, false)
         == PrintRest(f, ns, depth) + Relaid(f, rest, depth, false, false)
    decreases ns, 2
  {
    hide Relaid, Print, PrintRest, Line, Lined;
    if ns == [] {
      NoRest(f, depth);
      assert [] + rest == rest;
    } else {
      var c, tail := Print(Unlaid(f), ns[0], depth), PrintRest(Unlaid(f), ns[1..], depth);
      RestTexts(f, ns, depth);
      assert [COMMA] + c + tail + rest == [COMMA] + (c + (tail + rest));
      RelayComma(f, c + (tail + rest), depth);
      RelayTree(f, ns[0], tail + rest, depth, false);
      RelayRest(f, ns[1..], rest, depth);
      NotLined(f, depth);
      GroupRest([COMMA], Line(f, depth), Print(f, ns[0], depth), PrintRest(f, ns[1..], depth),
                Relaid(f, rest, depth, false, false));
    }
  }

  lemma NoRest(f: Format, depth: nat)
    ensures PrintRest(Unlaid(f), [], depth) == [] && PrintRest(f, [], depth) == []
  {
  }

  lemma NotLined(f: Format, depth: nat)
    ensures Lined(f, depth, false) == []
  {
  }

  lemma RestTexts(f: Format, ns: seq<Node>, depth: nat)
    requires ns != []
    ensures PrintRest(Unlaid(f), ns, depth)
         == [COMMA] + Print(Unlaid(f), ns[0], depth) + PrintRest(Unlaid(f), ns[1..], depth)
    ensures PrintRest(f, ns, depth) == [COMMA] + Line(f, depth) + Print(f, ns[0], depth) + PrintRest(f, ns[1..], depth)
  {
    hide Print, Indent, Copies;
    NoIndent(Unlaid(f), depth);
    IndentIsCopies(f, depth);
    assert Separator(Unlaid(f), depth) == [COMMA];
    assert Separator(f, depth) == [COMMA] + Line(f, depth);
  }

  lemma RelayComma(f: Format, s: bytes, depth: nat)
    ensures Relaid(f, [COMMA] + s, depth, false, false)
         == [COMMA] + (Line(f, depth) + Relaid(f, s, depth, false, false))
  {
    assert ([COMMA] + s)[1..] == s;
    assert [] + [COMMA] + (Line(f, depth) + Relaid(f, s, depth, false, false))
        == [COMMA] + (Line(f, depth) + Relaid(f, s, depth, false, false));
  }

  lemma GroupRest(a: bytes, b: bytes, c: bytes, d: bytes, e: bytes)
    ensures a + (b + ([] + (c + (d + e)))) == a + b + c + d + e
  {
    assert [] + (c + (d + e)) == c + (d + e);
  }

  /** The text of every tree in every format is the layout of its compact text. */
  lemma PrintIsLayout(f: Format, n: Node)
    requires PlainDoubles(f)
    ensures Print(f, n, 0) == Relaid(f, Print(Unlaid(f), n, 0), 0, false, false)
  {
    RelayTree(f, n, [], 0, false);
    assert Print(Unlaid(f), n, 0) + [] == Print(Unlaid(f), n, 0);
    assert [] + (Print(f, n, 0) + []) == Print(f, n, 0);
  }
}
