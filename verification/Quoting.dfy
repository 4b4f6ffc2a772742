/**
 Quoting and splitting of command lines (sds.c): `sdscatrepr` writes a byte string in quotes
 that `sdssplitargs` reads back.
 */
module Quoting {
  import opened Bytes

  const HEX_X: byte := 0x78      // x

  /** `isspace` in the C locale. */
  predicate IsSpace(c: byte) { c == SPACE || 0x09 <= c <= 0x0d }

  predicate IsHexDigit(c: byte) { HexValue(c).Some? }

  /** `hex_digit_to_int`. */
  function HexToInt(c: byte): (n: int)
    ensures 0 <= n < 16
  {
    if IsHexDigit(c) then HexValue(c).value else 0
  }

  // ---- sdscatrepr -------------------------------------------------------------------------

  /** The text of one byte between the quotes. */
  function ReprByte(c: byte): (r: bytes)
    ensures r != []
  {
    if c == BACKSLASH || c == QUOTE then [BACKSLASH, c]
    else if c == LF then [BACKSLASH, 0x6e]
    else if c == CR then [BACKSLASH, 0x72]
    else if c == TAB then [BACKSLASH, 0x74]
    else if c == BEL then [BACKSLASH, 0x61]
    else if c == BS then [BACKSLASH, 0x62]
    else if IsPrint(c) then [c]
    else [BACKSLASH, HEX_X, HexDigit(c as int / 16), HexDigit(c as int % 16)]
  }

  function ReprBody(s: bytes): bytes {
    if s == [] then [] else ReprByte(s[0]) + ReprBody(s[1..])
  }

  function Repr(s: bytes): bytes { [QUOTE] + ReprBody(s) + [QUOTE] }

  lemma {:induction false} ReprBodySnoc(s: bytes, c: byte)
    ensures ReprBody(s + [c]) == ReprBody(s) + ReprByte(c)
  {
    if s == [] {
      assert ([c])[1..] == [] && [] + [c] == [c];
    } else {
      assert (s + [c])[1..] == s[1..] + [c];
      ReprBodySnoc(s[1..], c);
    }
  }

  /** The switch of `sdscatrepr`. */
  method CatByte(s: bytes, c: byte) returns (r: bytes)
    ensures r == s + ReprByte(c)
  {
    match c {
      case 0x5c | 0x22 => r := s + [BACKSLASH, c];
      case 0x0a => r := s + [BACKSLASH, 0x6e];
      case 0x0d => r := s + [BACKSLASH, 0x72];
      case 0x09 => r := s + [BACKSLASH, 0x74];
      case 0x07 => r := s + [BACKSLASH, 0x61];
      case 0x08 => r := s + [BACKSLASH, 0x62];
      case _ =>
        r := s + if IsPrint(c) then [c] else [BACKSLASH, HEX_X, HexDigit(c as int / 16), HexDigit(c as int % 16)];
    }
  }

  /** `sdscatrepr`. */
  method SdsCatRepr(s: bytes, p: bytes) returns (r: bytes)
    ensures r == s + Repr(p)
  {
    hide ReprBody, ReprByte;
    r := s + [QUOTE];
    var i := 0;
    ReprNothing();
    assert p[..0] == [];
    while i < |p|
      invariant i <= |p| && r == s + ([QUOTE] + ReprBody(p[..i]))
    {
      assert p[..i + 1] == p[..i] + [p[i]];
      ReprBodySnoc(p[..i], p[i]);
      r := CatByte(r, p[i]);
      i := i + 1;
    }
    assert p[..i] == p;
    r := r + [QUOTE];
  }

  lemma ReprNothing()
    ensures ReprBody([]) == []
  {
  }

  // ---- sdssplitargs -----------------------------------------------------------------------

  datatype Mode = Plain | InQuotes | InSingleQuotes

  /** A backslash is followed by what it stands for. */
  function Unquoted(c: byte): byte {
    match c
    case 0x6e => LF
    case 0x72 => CR
    case 0x74 => TAB
    case 0x62 => BS
    case 0x61 => BEL
    case _ => c
  }

  datatype Token = Token(text: bytes, rest: bytes) | Unbalanced

  predicate IsHexEscape(s: bytes) {
    |s| >= 4 && s[0] == BACKSLASH && s[1] == HEX_X && IsHexDigit(s[2]) && IsHexDigit(s[3])
  }

  /** A closing quote must be followed by white space or by nothing. */
  function Closed(s: bytes, current: bytes): Token
    requires s != []
  {
    if |s| > 1 && !IsSpace(s[1]) then Unbalanced else Token(current, s[1..])
  }

  /** One argument, from a point within it on. */
  function ReadToken(s: bytes, mode: Mode, current: bytes): (t: Token)
    ensures t.Token? ==> |t.rest| <= |s| && (s != [] ==> |t.rest| < |s|)
    decreases |s|
  {
    match mode
    case InQuotes =>
      if s == [] then Unbalanced
      else if IsHexEscape(s) then ReadToken(s[4..], mode, current + [(HexToInt(s[2]) * 16 + HexToInt(s[3])) as byte])
      else if s[0] == BACKSLASH && |s| > 1 then ReadToken(s[2..], mode, current + [Unquoted(s[1])])
      else if s[0] == QUOTE then Closed(s, current)
      else ReadToken(s[1..], mode, current + [s[0]])
    case InSingleQuotes =>
      if s == [] then Unbalanced
      else if |s| > 1 && s[0] == BACKSLASH && s[1] == APOSTROPHE then ReadToken(s[2..], mode, current + [APOSTROPHE])
      else if s[0] == APOSTROPHE then Closed(s, current)
      else ReadToken(s[1..], mode, current + [s[0]])
    case Plain =>
      if s == [] then Token(current, [])
      else if s[0] == SPACE || s[0] == LF || s[0] == CR || s[0] == TAB then Token(current, s[1..])
      else if s[0] == QUOTE then ReadToken(s[1..], InQuotes, current)
      else if s[0] == APOSTROPHE then ReadToken(s[1..], InSingleQuotes, current)
      else ReadToken(s[1..], Plain, current + [s[0]])
  }

  function SkipBlanks(s: bytes): (r: bytes)
    ensures |r| <= |s|
  {
    if s != [] && IsSpace(s[0]) then SkipBlanks(s[1..]) else s
  }

  /** The arguments of a line; None for a null result. */
  function SplitArgs(line: bytes): Option<seq<bytes>>
    decreases |line|
  {
    var s := SkipBlanks(line);
    if s == [] then Some([])
    else
      match ReadToken(s, Plain, [])
      case Unbalanced => None
      case Token(t, rest) =>
        match SplitArgs(rest)
        case None => None
        case Some(ts) => Some([t] + ts)
  }

  // ---- splitting undoes quoting -----------------------------------------------------------

  lemma HexByte(c: byte)
    ensures var h, l := HexDigit(c as int / 16), HexDigit(c as int % 16);
      IsHexDigit(h) && IsHexDigit(l) && HexToInt(h) * 16 + HexToInt(l) == c as int
  {
  }

  /** The text of one byte, read back. */
  lemma ReadByte(c: byte, rest: bytes, current: bytes)
    ensures ReadToken(ReprByte(c) + rest, InQuotes, current) == ReadToken(rest, InQuotes, current + [c])
  {
    var s := ReprByte(c) + rest;
    if |ReprByte(c)| == 4 {
      HexByte(c);
      assert IsHexEscape(s) && s[4..] == rest;
    } else if |ReprByte(c)| == 2 {
      assert s[1] == ReprByte(c)[1] && !IsHexEscape(s) && s[2..] == rest;
      assert Unquoted(s[1]) == c;
    } else {
      assert s[0] == c && s[1..] == rest;
    }
  }

  lemma {:induction false} ReadBody(s: bytes, rest: bytes, current: bytes)
    ensures ReadToken(ReprBody(s) + rest, InQuotes, current) == ReadToken(rest, InQuotes, current + s)
    decreases |s|
  {
    hide ReadToken;
    if s == [] {
      assert ReprBody(s) + rest == rest && current + s == current;
    } else {
      assert ReprBody(s) + rest == ReprByte(s[0]) + (ReprBody(s[1..]) + rest);
      ReadByte(s[0], ReprBody(s[1..]) + rest, current);
      ReadBody(s[1..], rest, current + [s[0]]);
      assert current + [s[0]] + s[1..] == current + s;
    }
  }

  /** A quoted string at the head of a line is one argument, up to the quote. */
  lemma ReadRepr(s: bytes, rest: bytes)
    requires rest == [] || IsSpace(rest[0])
    ensures ReadToken(Repr(s) + rest, Plain, []) == Token(s, rest)
  {
    hide ReprBody;
    var tail := [QUOTE] + rest;
    assert (Repr(s) + rest)[0] == QUOTE && (Repr(s) + rest)[1..] == ReprBody(s) + tail;
    PlainQuote(Repr(s) + rest);
    ReadBody(s, tail, []);
    assert [] + s == s && tail[1..] == rest;
    ClosingQuote(tail, s);
  }

  lemma PlainQuote(s: bytes)
    requires s != [] && s[0] == QUOTE
    ensures ReadToken(s, Plain, []) == ReadToken(s[1..], InQuotes, [])
  {
  }

  lemma ClosingQuote(s: bytes, current: bytes)
    requires s != [] && s[0] == QUOTE
    ensures ReadToken(s, InQuotes, current) == Closed(s, current)
  {
  }

  function Joined(ss: seq<bytes>): bytes {
    if ss == [] then []
    else if |ss| == 1 then Repr(ss[0])
    else Repr(ss[0]) + [SPACE] + Joined(ss[1..])
  }

  lemma Blank(s: bytes)
    requires s != []
    ensures IsSpace(s[0]) ==> SplitArgs(s) == SplitArgs(s[1..])
    ensures !IsSpace(s[0]) ==> SplitArgs(s) == match ReadToken(s, Plain, [])
                                               case Unbalanced => None
                                               case Token(t, rest) =>
                                                 match SplitArgs(rest)
                                                 case None => None
                                                 case Some(ts) => Some([t] + ts)
  {
    hide ReadToken;
  }

  /** Splitting a line of quoted strings gives the strings, whatever bytes they hold. */
  lemma {:induction false} SplitJoined(ss: seq<bytes>)
    ensures SplitArgs(Joined(ss)) == Some(ss)
    decreases |ss|
  {
    hide ReadToken, SplitArgs, Repr, ReprBody;
    if ss == [] {
      NoArgs();
    } else {
      var rest := if |ss| == 1 then [] else [SPACE] + Joined(ss[1..]);
      assert Joined(ss) == Repr(ss[0]) + rest;
      ReprQuote(ss[0], rest);
      Blank(Joined(ss));
      ReadRepr(ss[0], rest);
      if |ss| == 1 {
        NoArgs();
      } else {
        Blank(rest);
        assert rest[1..] == Joined(ss[1..]);
        SplitJoined(ss[1..]);
      }
      assert [ss[0]] + ss[1..] == ss;
    }
  }

  lemma NoArgs()
    ensures SplitArgs([]) == Some([])
  {
  }

  lemma ReprQuote(s: bytes, rest: bytes)
    ensures Repr(s) + rest != [] && (Repr(s) + rest)[0] == QUOTE
  {
  }

  /** Quoted text is printable, so no byte in it ends the line as a C string. */
  lemma ReprPrintable(s: bytes)
    ensures forall k :: 0 <= k < |Repr(s)| ==> IsPrint(Repr(s)[k])
  {
    hide ReprByte, IsPrint;
    BodyPrintable(s);
    assert IsPrint(QUOTE) by { QuotePrintable(); }
  }

  lemma QuotePrintable()
    ensures IsPrint(QUOTE)
  {
  }

  lemma BytePrintable(c: byte)
    ensures forall k :: 0 <= k < |ReprByte(c)| ==> IsPrint(ReprByte(c)[k])
  {
  }

  lemma {:induction false} BodyPrintable(s: bytes)
    ensures forall k :: 0 <= k < |ReprBody(s)| ==> IsPrint(ReprBody(s)[k])
  {
    hide ReprByte, IsPrint;
    if s != [] {
      BytePrintable(s[0]);
      BodyPrintable(s[1..]);
    }
  }

  lemma {:induction false} JoinedPrintable(ss: seq<bytes>)
    ensures NUL !in Joined(ss)
    decreases |ss|
  {
    hide Repr;
    if ss != [] {
      ReprPrintable(ss[0]);
      JoinedPrintable(ss[1..]);
    }
  }

  // ---- the loops --------------------------------------------------------------------------

  datatype Status = Going | Done | Error

  /** What a turn of the inner loop leaves to be read. */
  ghost predicate Turned(line: bytes, from: nat, was: Token, mode: Mode, current: bytes, p: nat, st: Status) {
    && from <= p <= |line| && (st == Going ==> from < p)
    && was == match st
              case Going => ReadToken(line[p..], mode, current)
              case Done => Token(current, line[p..])
              case Error => Unbalanced
  }

  /** A turn within double quotes. */
  method TurnInQuotes(line: bytes, from: nat, before: bytes) returns (current: bytes, p: nat, st: Status)
    requires from < |line|
    ensures Turned(line, from, ReadToken(line[from..], InQuotes, before), InQuotes, current, p, st) && p > from
  {
    hide HexToInt, IsHexDigit;
    Reading(line, from);
    current, p, st := before, from, Going;
    var c := line[p];
    if p + 3 < |line| && c == BACKSLASH && line[p + 1] == HEX_X && IsHexDigit(line[p + 2]) && IsHexDigit(line[p + 3]) {
      current := current + [(HexToInt(line[p + 2]) * 16 + HexToInt(line[p + 3])) as byte];
      p := p + 3;
    } else if c == BACKSLASH && p + 1 < |line| {
      p := p + 1;
      current := current + [Unquoted(line[p])];
    } else if c == QUOTE {
      st := if p + 1 < |line| && !IsSpace(line[p + 1]) then Error else Done;
    } else {
      current := current + [c];
    }
    p := p + 1;
  }

  /** A turn within single quotes. */
  method TurnInSingleQuotes(line: bytes, from: nat, before: bytes) returns (current: bytes, p: nat, st: Status)
    requires from < |line|
    ensures Turned(line, from, ReadToken(line[from..], InSingleQuotes, before), InSingleQuotes, current, p, st)
    ensures p > from
  {
    Reading(line, from);
    current, p, st := before, from, Going;
    var c := line[p];
    if c == BACKSLASH && p + 1 < |line| && line[p + 1] == APOSTROPHE {
      p := p + 1;
      current := current + [APOSTROPHE];
    } else if c == APOSTROPHE {
      st := if p + 1 < |line| && !IsSpace(line[p + 1]) then Error else Done;
    } else {
      current := current + [c];
    }
    p := p + 1;
  }

  /** A turn outside quotes. */
  method TurnPlain(line: bytes, from: nat, before: bytes) returns (mode: Mode, current: bytes, p: nat, st: Status)
    requires from < |line|
    ensures Turned(line, from, ReadToken(line[from..], Plain, before), mode, current, p, st) && p > from
  {
    Reading(line, from);
    mode, current, p, st := Plain, before, from, Going;
    var c := line[p];
    if c == SPACE || c == LF || c == CR || c == TAB {
      st := Done;
    } else if c == QUOTE {
      mode := InQuotes;
    } else if c == APOSTROPHE {
      mode := InSingleQuotes;
    } else {
      current := current + [c];
    }
    p := p + 1;
  }

  lemma AtEnd(line: bytes, mode: Mode, current: bytes)
    ensures ReadToken(line[|line|..], mode, current)
         == if mode == Plain then Token(current, line[|line|..]) else Unbalanced
  {
    assert line[|line|..] == [];
  }

  /** The inner loop: one argument of a line, from a point on. */
  method ReadArg(line: bytes, start: nat) returns (current: bytes, p: nat, ok: bool)
    requires start < |line|
    ensures p <= |line| && (ok ==> p > start)
    ensures ReadToken(line[start..], Plain, []) == if ok then Token(current, line[p..]) else Unbalanced
  {
    hide ReadToken;
    current, p := [], start;
    var mode, st := Plain, Going;
    while st == Going
      invariant Turned(line, start, ReadToken(line[start..], Plain, []), mode, current, p, st)
        || (p == start && mode == Plain && current == [] && st == Going)
      invariant st == Done ==> p > start
      decreases |line| - p, st == Going
    {
      if p == |line| {
        AtEnd(line, mode, current);
        st := if mode == Plain then Done else Error;
      } else {
        match mode {
          case InQuotes => current, p, st := TurnInQuotes(line, p, current);
          case InSingleQuotes => current, p, st := TurnInSingleQuotes(line, p, current);
          case Plain => mode, current, p, st := TurnPlain(line, p, current);
        }
      }
    }
    ok := st == Done;
  }

  lemma Reading(line: bytes, p: nat)
    requires p < |line|
    ensures var s := line[p..];
      && s[0] == line[p] && s[1..] == line[p + 1..]
      && (p + 1 < |line| ==> s[1] == line[p + 1] && s[2..] == line[p + 2..])
      && (p + 3 < |line| ==> s[2] == line[p + 2] && s[3] == line[p + 3] && s[4..] == line[p + 4..])
  {
  }

  /** `sdssplitargs`, on the line as a C string. */
  method SdsSplitArgs(text: bytes) returns (r: Option<seq<bytes>>)
    ensures r == SplitArgs(CString(text))
  {
    hide ReadToken, CString;
    var line := CString(text);
    var p, args := 0, [];
    assert line[0..] == line;
    PrependNone(SplitArgs(line));
    while true
      invariant p <= |line|
      invariant SplitArgs(line) == Prepend(args, SplitArgs(line[p..]))
      decreases |line| - p
    {
      ghost var from := p;
      while p < |line| && IsSpace(line[p])
        invariant from <= p <= |line| && SplitArgs(line[p..]) == SplitArgs(line[from..])
      {
        Reading(line, p);
        Blank(line[p..]);
        p := p + 1;
      }
      if p == |line| {
        assert line[p..] == [];
        NoArgs();
        assert args + [] == args;
        return Some(args);
      }
      Reading(line, p);
      Blank(line[p..]);
      var current, q, ok := ReadArg(line, p);
      if !ok { return None; }
      PrependOne(args, current, SplitArgs(line[q..]));
      args, p := args + [current], q;
    }
  }

  function Prepend(done: seq<bytes>, r: Option<seq<bytes>>): Option<seq<bytes>> {
    match r case None => None case Some(ts) => Some(done + ts)
  }

  lemma PrependNone(r: Option<seq<bytes>>)
    ensures Prepend([], r) == r
  {
    if r.Some? { assert [] + r.value == r.value; }
  }

  lemma PrependOne(done: seq<bytes>, t: bytes, r: Option<seq<bytes>>)
    ensures Prepend(done, Prepend([t], r)) == Prepend(done + [t], r)
  {
    if r.Some? { assert done + ([t] + r.value) == done + [t] + r.value; }
  }

  /** Quote each string with the one loop, join, and split with the other: nothing is lost. */
  method QuoteThenSplit(ss: seq<bytes>) returns (r: Option<seq<bytes>>)
    ensures r == Some(ss)
  {
    var line, i := [], 0;
    assert Joined(ss[..0]) == [];
    while i < |ss|
      invariant i <= |ss| && line == Joined(ss[..i])
    {
      if i > 0 { line := line + [SPACE]; }
      line := SdsCatRepr(line, ss[i]);
      assert ss[..i + 1] == ss[..i] + [ss[i]];
      JoinedSnoc(ss[..i], ss[i]);
      i := i + 1;
    }
    assert ss[..i] == ss;
    JoinedPrintable(ss);
    SplitJoined(ss);
    r := SdsSplitArgs(line);
  }

  lemma {:induction false} JoinedSnoc(ss: seq<bytes>, s: bytes)
    ensures Joined(ss + [s]) == (if ss == [] then [] else Joined(ss) + [SPACE]) + Repr(s)
    decreases |ss|
  {
    hide Repr;
    if |ss| == 0 {
      assert ss + [s] == [s];
    } else if |ss| == 1 {
      assert (ss + [s])[1..] == [s];
    } else {
      assert (ss + [s])[1..] == ss[1..] + [s];
      JoinedSnoc(ss[1..], s);
    }
  }

  /**
   What is written for a byte: two bytes for " \ and five control characters, the byte itself if it is
   printable, and \x with two digits otherwise.
   */
  lemma ReprForm(c: byte)
    ensures ReprByte(c) ==
      if c == 0x22 || c == 0x5c then [0x5c, c]
      else if c == 0x0a then [0x5c, 0x6e]
      else if c == 0x0d then [0x5c, 0x72]
      else if c == 0x09 then [0x5c, 0x74]
      else if c == 0x07 then [0x5c, 0x61]
      else if c == 0x08 then [0x5c, 0x62]
      else if c > 0x1f && c < 0x7f then [c]
      else [0x5c, 0x78, HEX_DIGITS[c / 16], HEX_DIGITS[c % 16]]
  {
    HexDigitIs(c as int / 16);
    HexDigitIs(c as int % 16);
  }
}
