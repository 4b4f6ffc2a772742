/**
 String escapes, both ways: the printer `JSONSerialize_String` and the reader
 `jsonsl_util_unescape_ex`, each as a specification function and as the loop of the source.
 */
module Escape {
  import opened Bits
  import opened Bytes
  import opened Errors
  import opened Utf8

  // ---- writing -------------------------------------------------------------------------

  /** The table `twoCharEscape`; NUL means no entry. */
  function TwoCharEscape(c: byte): (e: byte)
  {
    if c == QUOTE || c == BACKSLASH || c == SLASH then c
    else if c == BS then 0x62
    else if c == FF then 0x66
    else if c == LF then 0x6e
    else if c == CR then 0x72
    else if c == TAB then 0x74
    else NUL
  }

  /** `\u%04x` of one byte. */
  function UEscape(c: byte): (s: bytes)
    ensures |s| == 6
  {
    [BACKSLASH, 0x75, 0x30, 0x30, HexDigit(c as int / 16), HexDigit(c as int % 16)]
  }

  /** A byte that is copied as it is. */
  predicate IsSimple(c: byte, noescape: bool) {
    TwoCharEscape(c) == NUL && (noescape || IsPrint(c))
  }

  function EscapeByte(c: byte, noescape: bool): (s: bytes)
    ensures s != []
  {
    if TwoCharEscape(c) != NUL then [BACKSLASH, TwoCharEscape(c)]
    else if IsSimple(c, noescape) then [c]
    else UEscape(c)
  }

  /** What stands between the quotes. */
  function EscapeBody(s: bytes, noescape: bool): (r: bytes)
    ensures |r| >= |s|
  {
    if s == [] then [] else EscapeByte(s[0], noescape) + EscapeBody(s[1..], noescape)
  }

  function Quoted(s: bytes, noescape: bool): bytes {
    [QUOTE] + EscapeBody(s, noescape) + [QUOTE]
  }

  lemma {:induction false} EscapeBodyConcat(a: bytes, b: bytes, noescape: bool)
    ensures EscapeBody(a + b, noescape) == EscapeBody(a, noescape) + EscapeBody(b, noescape)
  {
    if a == [] {
      assert a + b == b;
    } else {
      assert (a + b)[1..] == a[1..] + b;
      EscapeBodyConcat(a[1..], b, noescape);
    }
  }

  /**
   The printer appends the quoted string to buf. It does not copy simple bytes one by one:
   a run of them is remembered by its start and flushed when something else comes.
   */
  method SerializeString(buf: bytes, s: bytes, noescape: bool) returns (r: bytes)
    ensures r == buf + Quoted(s, noescape)
  {
    r := buf + [QUOTE];
    ghost var start := r;
    var simpleBegin: Option<nat> := None;
    var i := 0;
    assert s[..0] == [] && SpanPending(s, noescape, start, r, simpleBegin, i);
    while i < |s|
      invariant 0 <= i <= |s|
      invariant SpanPending(s, noescape, start, r, simpleBegin, i)
    {
      var esc := TwoCharEscape(s[i]);
      if esc == NUL && (noescape || IsPrint(s[i])) {
        ExtendSpan(s, noescape, start, r, simpleBegin, i);
        if simpleBegin.None? {
          simpleBegin := Some(i);
        }
      } else {
        EscapeAfterSpan(s, noescape, start, r, simpleBegin, i);
        r := Flushed(s, r, simpleBegin, i) + if esc != NUL then [BACKSLASH, esc] else UEscape(s[i]);
        simpleBegin := None;
      }
      i := i + 1;
    }
    SpanFlushed(s, noescape, start, r, simpleBegin, i);
    assert s[..i] == s;
    QuotedAppended(buf, s, noescape);
    r := Flushed(s, r, simpleBegin, i) + [QUOTE];
  }

  lemma QuotedAppended(buf: bytes, s: bytes, noescape: bool)
    ensures buf + [QUOTE] + EscapeBody(s, noescape) + [QUOTE] == buf + Quoted(s, noescape)
  {
  }

  /** `FLUSH_SIMPLE`: the buffer with the pending run of simple bytes, if any, appended. */
  function Flushed(s: bytes, r: bytes, simpleBegin: Option<nat>, i: nat): bytes
    requires i <= |s| && (simpleBegin.Some? ==> simpleBegin.value <= i)
  {
    if simpleBegin.Some? then r + s[simpleBegin.value..i] else r
  }

  /** r holds everything up to the start of the pending run of simple bytes, which ends at i. */
  ghost predicate SpanPending(s: bytes, noescape: bool, start: bytes, r: bytes, simpleBegin: Option<nat>, i: nat)
    requires i <= |s|
  {
    var b := if simpleBegin.Some? then simpleBegin.value else i;
    && (simpleBegin.Some? ==> b < i)
    && r == start + EscapeBody(s[..b], noescape)
    && forall k :: b <= k < i ==> IsSimple(s[k], noescape)
  }

  lemma SpanFlushed(s: bytes, noescape: bool, start: bytes, r: bytes, simpleBegin: Option<nat>, i: nat)
    requires i <= |s| && SpanPending(s, noescape, start, r, simpleBegin, i)
    ensures Flushed(s, r, simpleBegin, i) == start + EscapeBody(s[..i], noescape)
  {
    if simpleBegin.Some? {
      var b := simpleBegin.value;
      SimpleRun(s, b, i, noescape);
      assert start + EscapeBody(s[..b], noescape) + s[b..i] == start + (EscapeBody(s[..b], noescape) + s[b..i]);
    }
  }

  lemma ExtendSpan(s: bytes, noescape: bool, start: bytes, r: bytes, simpleBegin: Option<nat>, i: nat)
    requires i < |s| && SpanPending(s, noescape, start, r, simpleBegin, i) && IsSimple(s[i], noescape)
    ensures SpanPending(s, noescape, start, r, if simpleBegin.None? then Some(i) else simpleBegin, i + 1)
  {
  }

  lemma EscapeAfterSpan(s: bytes, noescape: bool, start: bytes, r: bytes, simpleBegin: Option<nat>, i: nat)
    requires i < |s| && SpanPending(s, noescape, start, r, simpleBegin, i)
    ensures SpanPending(s, noescape, start, Flushed(s, r, simpleBegin, i) + EscapeByte(s[i], noescape), None, i + 1)
  {
    SpanFlushed(s, noescape, start, r, simpleBegin, i);
    EscapeBodySnoc(s, i, noescape);
  }

  lemma {:induction false} SimpleRun(s: bytes, b: nat, i: nat, noescape: bool)
    requires b <= i <= |s|
    requires forall k :: b <= k < i ==> IsSimple(s[k], noescape)
    ensures EscapeBody(s[..i], noescape) == EscapeBody(s[..b], noescape) + s[b..i]
  {
    var head := EscapeBody(s[..b], noescape);
    if b == i {
      assert head + s[b..i] == head;
    } else {
      SimpleRun(s, b, i - 1, noescape);
      EscapeBodySnoc(s, i - 1, noescape);
      var run, c := s[b..i - 1], s[i - 1];
      assert s[b..i] == run + [c] && EscapeByte(c, noescape) == [c];
      assert head + run + [c] == head + (run + [c]);
    }
  }

  lemma EscapeBodySnoc(s: bytes, i: nat, noescape: bool)
    requires i < |s|
    ensures EscapeBody(s[..i + 1], noescape) == EscapeBody(s[..i], noescape) + EscapeByte(s[i], noescape)
  {
    assert s[..i + 1] == s[..i] + [s[i]];
    EscapeBodyConcat(s[..i], [s[i]], noescape);
    assert EscapeBody([s[i]], noescape) == EscapeByte(s[i], noescape) + EscapeBody([], noescape);
  }

  // ---- reading -------------------------------------------------------------------------

  /** The table `Allowed_Escapes`; the caller's `_AllowedEscapes` has the same entries. */
  predicate IsAllowedEscape(c: byte) {
    c == QUOTE || c == SLASH || c == BACKSLASH
    || c == 0x62 || c == 0x66 || c == 0x6e || c == 0x72 || c == 0x74 || c == 0x75
  }

  /** The table `Escape_Equivs`, with its fall-back to the escaped byte itself. */
  function Unescaped(c: byte): byte {
    if c == 0x62 then BS
    else if c == 0x66 then FF
    else if c == 0x6e then LF
    else if c == 0x72 then CR
    else if c == 0x74 then TAB
    else c
  }

  /** `jsonsl__get_uescape_16`: four hex digits. */
  function Hex4(s: bytes): (r: Option<int>)
    requires |s| >= 4
    ensures r.Some? ==> 0 <= r.value < 0x10000
  {
    var a, b, c, d := HexValue(s[0]), HexValue(s[1]), HexValue(s[2]), HexValue(s[3]);
    if a.Some? && b.Some? && c.Some? && d.Some? then
      Some(a.value * 0x1000 + b.value * 0x100 + c.value * 0x10 + d.value)
    else None
  }

  predicate IsHighSurrogate(w: int) { 0xD800 <= w <= 0xDBFF }

  predicate IsLowSurrogate(w: int) { 0xDC00 <= w <= 0xDFFF }

  /** The code point a surrogate pair stands for (section 2.2 of RFC 2781). */
  function JoinSurrogates(w1: int, w2: int): (cp: codepoint)
    requires IsHighSurrogate(w1) && IsLowSurrogate(w2)
    ensures 0x10000 <= cp
  {
    (w1 % 0x400) * 0x400 + w2 % 0x400 + 0x10000
  }

  function Prepend(a: bytes, r: Result<bytes, JsonError>): Result<bytes, JsonError> {
    if r.Ok? then Ok(a + r.value) else r
  }

  /**
   Unescapes s. `high` is `last_codepoint`: a high surrogate still waiting for its partner,
   or 0. Text between the two halves of a pair is let through, as the source does.
   */
  function Unescape(s: bytes, high: int): (r: Result<bytes, JsonError>)
    requires high == 0 || IsHighSurrogate(high)
    ensures r.Ok? && s != [] ==> r.value != []
    ensures r.Ok? ==> |r.value| <= |s| + if high != 0 then 6 else 0
    ensures r.Ok? && high != 0 ==> |s| >= 6
    ensures r.Err? ==> r.error != Success
    decreases |s|
  {
    if s == [] then
      if high != 0 then Err(InvalidCodepoint) else Ok([])
    else if s[0] != BACKSLASH then
      Prepend([s[0]], Unescape(s[1..], high))
    else if |s| < 2 || !IsAllowedEscape(s[1]) then
      Err(EscapeInvalid)
    else if s[1] != 0x75 then
      Prepend([Unescaped(s[1])], Unescape(s[2..], high))
    else if |s| < 6 then
      Err(UEscapeTooShort)
    else
      match Hex4(s[2..6])
      case None => Err(PercentBadHex)
      case Some(w) =>
        if high != 0 then
          if IsLowSurrogate(w) then Prepend(Encode(JoinSurrogates(high, w)), Unescape(s[6..], 0))
          else Err(InvalidCodepoint)
        else if !IsSurrogate(w) then
          Prepend(Encode(w), Unescape(s[6..], 0))
        else if IsHighSurrogate(w) then
          Unescape(s[6..], w)
        else
          Err(InvalidCodepoint)
  }

  /** The output written so far, then the result for the unread text from c on, make the result for all of s. */
  ghost predicate Pending(s: bytes, written: bytes, c: nat, high: int) {
    && c <= |s| && (high == 0 || IsHighSurrogate(high))
    && Unescape(s, 0) == Prepend(written, Unescape(s[c..], high))
  }

  lemma PendingStart(s: bytes)
    ensures Pending(s, [], 0, 0)
  {
    assert s[0..] == s;
    PrependNothing(Unescape(s, 0));
  }

  lemma PendingEnd(s: bytes, written: bytes, high: int)
    requires Pending(s, written, |s|, high)
    ensures Unescape(s, 0) == if high != 0 then Err(InvalidCodepoint) else Ok(written)
  {
    assert s[|s|..] == [] && written + [] == written;
  }

  lemma PendingBad(s: bytes, written: bytes, c: nat, high: int)
    requires Pending(s, written, c, high) && c < |s| && s[c] == BACKSLASH
    requires |s| - c < 2 || !IsAllowedEscape(s[c + 1])
    ensures Unescape(s, 0) == Err(EscapeInvalid)
  {
    assert |s[c..]| == |s| - c && s[c..][0] == BACKSLASH;
  }

  /**
   The reader's loop. It writes through an output index that never overtakes the input
   index, so a buffer as long as the input is enough; on an error it returns length 0.
   */
  method UnescapeInto(s: bytes, buf: array<byte>) returns (len: nat, err: JsonError)
    requires buf.Length >= |s|
    modifies buf
    ensures match Unescape(s, 0)
      case Ok(v) => err == Success && len == |v| <= |s| && buf[..len] == v
      case Err(e) => err == e && len == 0
  {
    hide Unescape;
    var c, o, high := 0, 0, 0;
    ghost var written: bytes := [];
    PendingStart(s);
    while c < |s|
      invariant 0 <= c <= |s| && 0 <= o && o + (if high != 0 then 6 else 0) <= c
      invariant buf[..o] == written && Pending(s, written, c, high)
    {
      if s[c] != BACKSLASH {
        PendingPlain(s, written, c, high);
        buf[o] := s[c];
        written := written + [s[c]];
        c, o := c + 1, o + 1;
      } else if |s| - c < 2 || !IsAllowedEscape(s[c + 1]) {
        PendingBad(s, written, c, high);
        return 0, EscapeInvalid;
      } else if s[c + 1] != 0x75 {
        PendingTwoChar(s, written, c, high);
        buf[o] := Unescaped(s[c + 1]);
        written := written + [Unescaped(s[c + 1])];
        c, o := c + 2, o + 1;
      } else {
        var next, nextHigh, ok, bad := UnescapeU(s, c, buf, o, high, written);
        if !ok {
          return 0, bad;
        }
        written := written + buf[o..next];
        c, o, high := c + 6, next, nextHigh;
      }
    }
    PendingEnd(s, written, high);
    if high != 0 {
      return 0, InvalidCodepoint;
    }
    return o, Success;
  }

  lemma PendingPlain(s: bytes, written: bytes, c: nat, high: int)
    requires c < |s| && s[c] != BACKSLASH && Pending(s, written, c, high)
    ensures Pending(s, written + [s[c]], c + 1, high)
  {
    assert s[c..][0] == s[c] && s[c..][1..] == s[c + 1..];
    PrependConcat(written, [s[c]], Unescape(s[c + 1..], high));
  }

  lemma PendingTwoChar(s: bytes, written: bytes, c: nat, high: int)
    requires c + 2 <= |s| && s[c] == BACKSLASH && IsAllowedEscape(s[c + 1]) && s[c + 1] != 0x75
    requires Pending(s, written, c, high)
    ensures Pending(s, written + [Unescaped(s[c + 1])], c + 2, high)
  {
    assert s[c..][0] == s[c] && s[c..][1] == s[c + 1] && s[c..][2..] == s[c + 2..];
    PrependConcat(written, [Unescaped(s[c + 1])], Unescape(s[c + 2..], high));
  }

  /** One `\u` escape at offset c. */
  method UnescapeU(s: bytes, c: nat, buf: array<byte>, o: nat, high: int, ghost written: bytes)
    returns (next: nat, nextHigh: int, ok: bool, err: JsonError)
    requires buf.Length >= |s| && |s| - c >= 2 && s[c] == BACKSLASH && s[c + 1] == 0x75
    requires Pending(s, written, c, high) && o + (if high != 0 then 6 else 0) <= c
    modifies buf
    ensures ok ==> |s| - c >= 6 && next + (if nextHigh != 0 then 6 else 0) <= c + 6
    ensures ok ==> o <= next && buf[..o] == old(buf[..o])
    ensures ok ==> Pending(s, written + buf[o..next], c + 6, nextHigh)
    ensures !ok ==> Unescape(s, 0) == Err(err)
  {
    next, nextHigh, ok, err := o, 0, false, InvalidCodepoint;
    ghost var rest := s[c..];
    assert rest[0] == BACKSLASH && rest[1] == 0x75 && |rest| == |s| - c;
    if |s| - c < 6 {
      err := UEscapeTooShort;
      return;
    }
    assert rest[2..6] == s[c + 2..c + 6] && rest[6..] == s[c + 6..];
    var hex := Hex4(s[c + 2..c + 6]);
    if hex.None? {
      err := PercentBadHex;
      return;
    }
    var w := hex.value;
    if high != 0 {
      ok := IsLowSurrogate(w);
      if ok {
        next := WriteUtf8(buf, o, JoinSurrogates(high, w));
      }
    } else if !IsSurrogate(w) {
      ok := true;
      next := WriteUtf8(buf, o, w);
    } else if IsHighSurrogate(w) {
      ok, nextHigh := true, w;
      PrependNothing(Unescape(s[c + 6..], w));
      assert buf[o..next] == [];
    }
    PrependConcat(written, buf[o..next], Unescape(s[c + 6..], nextHigh));
  }

  lemma PrependNothing(r: Result<bytes, JsonError>)
    ensures Prepend([], r) == r
  {
    if r.Ok? {
      assert [] + r.value == r.value;
    }
  }

  lemma PrependConcat(a: bytes, b: bytes, r: Result<bytes, JsonError>)
    ensures Prepend(a, Prepend(b, r)) == Prepend(a + b, r)
  {
    if r.Ok? {
      assert a + (b + r.value) == (a + b) + r.value;
    }
  }

  /** `jsonsl__writeutf8`. */
  method WriteUtf8(buf: array<byte>, o: nat, cp: codepoint) returns (next: nat)
    requires o + |Encode(cp)| <= buf.Length
    modifies buf
    ensures next == o + |Encode(cp)|
    ensures buf[..o] == old(buf[..o]) && buf[o..next] == Encode(cp)
  {
    hide Or, And, Shr;
    OctetValues(cp);
    next := o;
    if cp < 0x80 {
      next := AddOutput(buf, next, cp);
    } else if cp < 0x800 {
      next := AddOutput(buf, next, Or(Shr(cp, 6), 0xC0));
      next := AddOutput(buf, next, Or(And(cp, 0x3F), 0x80));
    } else if cp < 0x10000 {
      next := AddOutput(buf, next, Or(Shr(cp, 12), 0xE0));
      next := AddOutput(buf, next, Or(And(Shr(cp, 6), 0x3F), 0x80));
      next := AddOutput(buf, next, Or(And(cp, 0x3F), 0x80));
    } else {
      next := AddOutput(buf, next, Or(Shr(cp, 18), 0xF0));
      next := AddOutput(buf, next, Or(And(Shr(cp, 12), 0x3F), 0x80));
      next := AddOutput(buf, next, Or(And(Shr(cp, 6), 0x3F), 0x80));
      next := AddOutput(buf, next, Or(And(cp, 0x3F), 0x80));
    }
    assert buf[o..next] == Encode(cp);
  }

  /** ADD_OUTPUT. */
  method AddOutput(buf: array<byte>, o: nat, c: nat) returns (next: nat)
    requires o < buf.Length && c < 256
    modifies buf
    ensures next == o + 1 && buf[o] == c as byte
    ensures forall k :: 0 <= k < buf.Length && k != o ==> buf[k] == old(buf[k])
  {
    buf[o] := c as byte;
    next := o + 1;
  }

  /** What the shifts, masks and ors of the writer come to. */
  lemma OctetValues(cp: codepoint)
    ensures cp < 0x800 ==> Or(Shr(cp, 6), 0xC0) == 0xC0 + cp / 64
    ensures cp < 0x10000 ==> Or(Shr(cp, 12), 0xE0) == 0xE0 + cp / 0x1000
    ensures Or(Shr(cp, 18), 0xF0) == 0xF0 + cp / 0x4_0000
    ensures Or(And(cp, 0x3F), 0x80) == 0x80 + cp % 64
    ensures Or(And(Shr(cp, 6), 0x3F), 0x80) == 0x80 + cp / 64 % 64
    ensures Or(And(Shr(cp, 12), 0x3F), 0x80) == 0x80 + cp / 0x1000 % 64
  {
    hide Or, And, Shr, Pow2;
    SmallPowers();
    ShrDivides(cp, 6);
    ShrDivides(cp, 12);
    ShrDivides(cp, 18);
    AndMask(cp, 6);
    AndMask(cp / 64, 6);
    AndMask(cp / 0x1000, 6);
    if cp < 0x800 { OrDisjoint(cp / 64, 6, 5); }
    if cp < 0x10000 { OrDisjoint(cp / 0x1000, 14, 4); }
    OrDisjoint(cp / 0x4_0000, 30, 3);
    OrDisjoint(cp % 64, 2, 6);
    OrDisjoint(cp / 64 % 64, 2, 6);
    OrDisjoint(cp / 0x1000 % 64, 2, 6);
  }

  lemma SmallPowers()
    ensures Pow2(3) == 8 && Pow2(4) == 16 && Pow2(5) == 32 && Pow2(6) == 64 && Pow2(12) == 0x1000
    ensures Pow2(18) == 0x4_0000
  {
    assert Pow2(8) == 0x100 && Pow2(10) == 0x400;
    assert Pow2(14) == 0x4000 && Pow2(16) == 0x1_0000;
  }

  // ---- what the two do to each other ------------------------------------------------------

  lemma HexOfByte(c: byte)
    ensures Hex4(UEscape(c)[2..6]) == Some(c as int)
  {
    var s := UEscape(c)[2..6];
    assert HexValue(HexDigit(c as int / 16)) == Some(c as int / 16);
    assert HexValue(HexDigit(c as int % 16)) == Some(c as int % 16);
    assert s[0] == 0x30 && s[1] == 0x30 && s[2] == HexDigit(c as int / 16) && s[3] == HexDigit(c as int % 16);
  }

  /** The bytes that come back from printing s and reading it. */
  function Recoded(s: bytes, noescape: bool): (r: bytes) {
    if noescape then s else Latin1(s)
  }

  /**
   Unescaping the body of a printed string succeeds on every byte string. With escapes on,
   every byte comes back as the UTF-8 form of the code point of that number; with
   `noescape` the bytes themselves come back.
   */
  lemma {:induction false} UnescapeEscape(s: bytes, noescape: bool)
    ensures Unescape(EscapeBody(s, noescape), 0) == Ok(Recoded(s, noescape))
  {
    if s != [] {
      UnescapeEscape(s[1..], noescape);
      UnescapeFirst(s[0], EscapeBody(s[1..], noescape), noescape);
      assert s == [s[0]] + s[1..];
    }
  }

  lemma UnescapeFirst(c: byte, rest: bytes, noescape: bool)
    ensures Unescape(EscapeByte(c, noescape) + rest, 0)
         == Prepend(if noescape then [c] else Encode(c as int), Unescape(rest, 0))
  {
    var e := EscapeByte(c, noescape);
    var body := e + rest;
    assert body[|e|..] == rest;
    if TwoCharEscape(c) != NUL {
      assert body[0] == BACKSLASH && body[1] == e[1] && Unescaped(e[1]) == c;
    } else if IsSimple(c, noescape) {
      assert body[0] == c;
    } else {
      HexOfByte(c);
      assert body[2..6] == e[2..6];
      assert body[0] == BACKSLASH && body[1] == 0x75;
    }
  }

  /** Print then unescape is the identity exactly on ASCII strings, unless escaping is off. */
  lemma UnescapeEscapeIdentity(s: bytes, noescape: bool)
    ensures Unescape(EscapeBody(s, noescape), 0) == Ok(s) <==> noescape || Ascii(s)
  {
    UnescapeEscape(s, noescape);
    Latin1Identity(s);
  }

  /** The four-digit escape of a scalar value of the Basic Multilingual Plane, spelled with any digits. */
  lemma UnescapeBmp(h: bytes, cp: int)
    requires |h| == 4 && Hex4(h) == Some(cp) && !IsSurrogate(cp)
    ensures Unescape([BACKSLASH, 0x75] + h, 0) == Ok(Encode(cp))
    ensures Decode(Encode(cp)) == Some((cp, |Encode(cp)|))
  {
    var s := [BACKSLASH, 0x75] + h;
    assert s[2..6] == h && s[6..] == [];
    assert Encode(cp) + [] == Encode(cp);
    DecodeEncode(cp, []);
  }

  /**
   A scalar value above U+FFFF, written as its surrogate pair (section 2.1 of RFC 2781),
   unescapes to its UTF-8 form; the pair is the one that value splits into.
   */
  lemma UnescapePair(h1: bytes, h2: bytes, cp: int)
    requires 0x10000 <= cp < 0x110000 && |h1| == 4 && |h2| == 4
    requires Hex4(h1) == Some(0xD800 + (cp - 0x10000) / 0x400)
    requires Hex4(h2) == Some(0xDC00 + (cp - 0x10000) % 0x400)
    ensures Unescape([BACKSLASH, 0x75] + h1 + [BACKSLASH, 0x75] + h2, 0) == Ok(Encode(cp))
    ensures Decode(Encode(cp)) == Some((cp, 4))
  {
    var w1, w2 := 0xD800 + (cp - 0x10000) / 0x400, 0xDC00 + (cp - 0x10000) % 0x400;
    PairValue(cp);
    UnescapeHigh(h1, w1, [BACKSLASH, 0x75] + h2);
    UnescapeLow(h2, w2, w1);
    assert [BACKSLASH, 0x75] + h1 + [BACKSLASH, 0x75] + h2 == [BACKSLASH, 0x75] + h1 + ([BACKSLASH, 0x75] + h2);
    DecodeEncode(cp, []);
    assert Encode(cp) + [] == Encode(cp);
  }

  lemma PairValue(cp: int)
    requires 0x10000 <= cp < 0x110000
    ensures var w1, w2 := 0xD800 + (cp - 0x10000) / 0x400, 0xDC00 + (cp - 0x10000) % 0x400;
      IsHighSurrogate(w1) && IsLowSurrogate(w2) && JoinSurrogates(w1, w2) == cp
  {
  }

  lemma UnescapeHigh(h: bytes, w: int, rest: bytes)
    requires |h| == 4 && Hex4(h) == Some(w) && IsHighSurrogate(w)
    ensures Unescape([BACKSLASH, 0x75] + h + rest, 0) == Unescape(rest, w)
  {
    var s := [BACKSLASH, 0x75] + h + rest;
    assert s[2..6] == h && s[6..] == rest;
  }

  lemma UnescapeLow(h: bytes, w: int, high: int)
    requires |h| == 4 && Hex4(h) == Some(w) && IsLowSurrogate(w) && IsHighSurrogate(high)
    ensures Unescape([BACKSLASH, 0x75] + h, high) == Ok(Encode(JoinSurrogates(high, w)))
  {
    var s := [BACKSLASH, 0x75] + h;
    assert s[2..6] == h && s[6..] == [];
    var e := Encode(JoinSurrogates(high, w));
    assert e + [] == e;
    assert Unescape([], 0) == Ok([]);
  }

  /** A surrogate that does not stand first in a pair, or is never completed, is an error. */
  lemma LoneSurrogate(h: bytes, w: int)
    requires |h| == 4 && Hex4(h) == Some(w) && IsSurrogate(w)
    ensures Unescape([BACKSLASH, 0x75] + h, 0) == Err(InvalidCodepoint)
  {
    var s := [BACKSLASH, 0x75] + h;
    assert s[2..6] == h && s[6..] == [];
    if IsHighSurrogate(w) {
      assert Unescape(s, 0) == Unescape([], w);
    }
  }

  /**
   What the printer writes for a byte: two bytes for " \ / and five control characters; the byte itself
   if it is printable, or if escaping is off; and six bytes otherwise.
   */
  lemma EscapedForm(c: byte, noescape: bool)
    ensures EscapeByte(c, noescape) ==
      if c == 0x22 || c == 0x5c || c == 0x2f then [0x5c, c]
      else if c == 0x08 then [0x5c, 0x62]
      else if c == 0x0c then [0x5c, 0x66]
      else if c == 0x0a then [0x5c, 0x6e]
      else if c == 0x0d then [0x5c, 0x72]
      else if c == 0x09 then [0x5c, 0x74]
      else if noescape || (c > 0x1f && c < 0x7f) then [c]
      else [0x5c, 0x75, 0x30, 0x30, HEX_DIGITS[c / 16], HEX_DIGITS[c % 16]]
  {
    HexDigitIs(c as int / 16);
    HexDigitIs(c as int % 16);
  }
}
