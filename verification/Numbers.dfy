/** Numbers in JSON text, by their grammar: which of the two readers a token gets. */
module Numbers {
  // A numeral is an integer part, and perhaps a fraction and an exponent. With neither it is read as
  // a 64-bit integer, with either by `strtod`.

  import opened Bytes
  import opened Decimal
  import opened Errors
  import opened Nodes
  import opened Numerals
  import opened Lexer
  import opened Parser
  import opened RoundTrip

  // ---- the grammar --------------------------------------------------------------------------

  /** An exponent: e or E, perhaps a sign, and digits. */
  datatype Exponent = Exponent(mark: byte, sign: Option<byte>, digits: bytes)

  datatype Numeral = Numeral(negative: bool, whole: bytes, fraction: Option<bytes>, exponent: Option<Exponent>)

  predicate NumeralFits(n: Numeral) {
    && n.whole != [] && Decimals(n.whole) && (n.whole[0] == 0x30 ==> |n.whole| == 1)
    && (n.fraction.Some? ==> n.fraction.value != [] && Decimals(n.fraction.value))
    && (n.exponent.Some? ==> ExponentFits(n.exponent.value))
  }

  predicate ExponentFits(e: Exponent) {
    && (e.mark == 0x65 || e.mark == 0x45) && e.digits != [] && Decimals(e.digits)
    && (e.sign.Some? ==> e.sign.value == 0x2d || e.sign.value == 0x2b)
  }

  function WholeText(n: Numeral): bytes { (if n.negative then [0x2d] else []) + n.whole }

  function FractionText(n: Numeral): bytes { if n.fraction.None? then [] else [0x2e] + n.fraction.value }

  function SignText(e: Exponent): bytes { if e.sign.None? then [] else [e.sign.value] }

  function ExponentText(n: Numeral): bytes {
    if n.exponent.None? then [] else [n.exponent.value.mark] + (SignText(n.exponent.value) + n.exponent.value.digits)
  }

  function NumeralText(n: Numeral): bytes { WholeText(n) + (FractionText(n) + ExponentText(n)) }

  predicate IsWhole(n: Numeral) { n.fraction.None? && n.exponent.None? }

  /** What the numeral stands for; None if it is refused: an integer that 64 bits do not hold, or by `strtod`. */
  function NumeralMeans(n: Numeral, strtod: FloatReader): Option<Node>
    requires NumeralFits(n)
  {
    if IsWhole(n) then
      var v := if n.negative then -(Places(n.whole) as int) else Places(n.whole);
      if -0x8000_0000_0000_0000 <= v <= 0x7fff_ffff_ffff_ffff then Some(Integer(v)) else None
    else
      match strtod(NumeralText(n))
      case None => None
      case Some(d) => Some(Number(d))
  }

  // ---- the lexer on a numeral -----------------------------------------------------------------

  /** In a bareword that began in state s, with the given registers. */
  function Within(s: Lex, r: IntegerRead, n: nat): Lex
    requires s.frames != [] && |s.frames| < |s.nescapes|
  {
    InBareword(s, r.sp, n, 1, r.nelem, r.tokLast)
  }

  /** The parser gets through a text that leaves it in the bareword, with these registers. */
  ghost predicate Gets(inp: Input, s: Lex, nodes: seq<Node>, text: bytes, r: IntegerRead, rest: bytes)
    requires ValueReady(s) && |s.frames| < |s.nescapes|
  {
    && Valid(Within(s, r, |text|))
    && ParseBytes(inp, Parsing(s, nodes), text + rest)
       == ParseBytes(inp, Parsing(Within(s, r, |text|), nodes), rest)
  }

  lemma WithinValid(s: Lex, r: IntegerRead, n: nat)
    requires ValueReady(s) && |s.frames| < |s.nescapes|
    ensures Valid(Within(s, r, n)) && Top(Within(s, r, n)) == Frame(SpecialFrame, r.nelem, s.pos, r.sp)
  {
    BarewordValid(s, r.sp, n, 1, r.nelem, r.tokLast);
  }

  /** A byte that changes the registers only. */
  lemma OneByte(inp: Input, s: Lex, nodes: seq<Node>, r: IntegerRead, r': IntegerRead, n: nat, c: byte, rest: bytes)
    requires ValueReady(s) && |s.frames| < |s.nescapes| && Valid(Within(s, r, n))
    requires Step(Within(s, r, n), c) == Next(Within(s, r', n + 1), [])
    ensures ParseBytes(inp, Parsing(Within(s, r, n), nodes), [c] + rest)
         == ParseBytes(inp, Parsing(Within(s, r', n + 1), nodes), rest)
  {
    hide ParseBytes, ParseByte, Step, InBareword;
    ParseCons(inp, Parsing(Within(s, r, n), nodes), c, rest);
    QuietByte(inp, Within(s, r, n), nodes, c, Within(s, r', n + 1));
  }

  /** Behind the integer part: the flags, and the digits summed up in a 64-bit register. */
  predicate WholeFlags(n: Numeral, r: IntegerRead) {
    && r.tokLast != 0x65 && (Decimals(n.whole) ==> r.nelem == Places(n.whole) % REGISTER)
    && r.sp == if n.whole == [0x30] then if n.negative then MINUS_ZERO else Zero
               else if n.negative then SIGNED else UNSIGNED
  }

  const REGISTER := 0x1_0000_0000_0000_0000

  lemma {:induction false} AppendedPlaces(n: nat, ds: bytes)
    requires Decimals(ds) && AllDigits(ds) && n < REGISTER
    ensures AppendDigits(n, ds) == (n * TenTo(|ds|) + Places(ds)) % REGISTER
    decreases |ds|
  {
    hide TenTo, Places, AppendDigit, AppendDigits;
    if ds == [] {
      NoDigits(n, ds);
    } else {
      var d, rest := ds[0] as nat - 0x30, ds[1..];
      var ten, p := TenTo(|rest|), Places(rest);
      OneDigit(n, ds);
      AppendedPlaces((n * 10 + d) % REGISTER, rest);
      WrapsOnce(n * 10 + d, ten, p);
      Distribute(n, d, ten, p);
    }
  }

  lemma NoDigits(n: nat, ds: bytes)
    requires ds == [] && n < REGISTER
    ensures AppendDigits(n, ds) == n == (n * TenTo(|ds|) + Places(ds)) % REGISTER
  {
    assert n * 1 == n;
  }

  lemma OneDigit(n: nat, ds: bytes)
    requires Decimals(ds) && ds != []
    ensures var d, rest := ds[0] as nat - 0x30, ds[1..];
      && AllDigits(rest) && AppendDigits(n, ds) == AppendDigits((n * 10 + d) % REGISTER, rest)
      && TenTo(|ds|) == 10 * TenTo(|rest|) && Places(ds) == d * TenTo(|rest|) + Places(rest)
  {
    hide AppendDigits;
    assert AppendDigit(n, ds[0]) == (n * 10 + (ds[0] as nat - 0x30)) % REGISTER;
    AppendUnfold(n, ds);
  }

  lemma AppendUnfold(n: nat, ds: bytes)
    requires AllDigits(ds) && ds != []
    ensures AppendDigits(n, ds) == AppendDigits(AppendDigit(n, ds[0]), ds[1..])
  {
  }

  lemma Distribute(n: nat, d: nat, ten: nat, p: nat)
    ensures (n * 10 + d) * ten + p == n * (10 * ten) + (d * ten + p)
  {
    SumTimes(n * 10, d, ten);
    Associate(n, 10, ten);
  }

  lemma SumTimes(a: nat, b: nat, c: nat)
    ensures (a + b) * c == a * c + b * c
  {
  }

  lemma Associate(a: nat, b: nat, c: nat)
    ensures (a * b) * c == a * (b * c)
  {
  }

  lemma WrapsOnce(x: nat, t: nat, p: nat)
    ensures ((x % REGISTER) * t + p) % REGISTER == (x * t + p) % REGISTER
  {
    var q, r := x / REGISTER, x % REGISTER;
    assert x == REGISTER * q + r;
    SumTimes(REGISTER * q, r, t);
    Associate(REGISTER, q, t);
    WrapsOut(q * t, r * t + p);
  }

  lemma WrapsOut(k: nat, y: nat)
    ensures (REGISTER * k + y) % REGISTER == y % REGISTER
  {
  }

  lemma ReadWhole(inp: Input, s: Lex, nodes: seq<Node>, n: Numeral, rest: bytes) returns (r: IntegerRead)
    requires ValueReady(s) && |s.frames| < |s.nescapes| && NumeralFits(n)
    ensures WholeFlags(n, r)
    ensures ParseBytes(inp, Parsing(s, nodes), WholeText(n) + rest)
         == ParseBytes(inp, Parsing(Within(s, r, |WholeText(n)|), nodes), rest)
  {
    hide ParseBytes, ParseByte, Step, InBareword, ValueReady;
    var ds := n.whole;
    DecimalsAreDigits(ds);
    assert Decimals(ds) && 0x30 <= ds[0] <= 0x39;
    DecimalsAreDigits(ds[1..]);
    var first := ds[0] as nat - 0x30;
    AppendedPlaces(first, ds[1..]);
    assert first * TenTo(|ds[1..]|) + Places(ds[1..]) == Places(ds);
    if n.negative {
      assert WholeText(n) + rest == [MINUS] + ([ds[0]] + (ds[1..] + rest));
      if ds[0] == 0x30 {
        assert ds[1..] + rest == rest;
        MinusZero(inp, s, nodes, rest);
        r := IntegerRead(MINUS_ZERO, 0, MINUS);
      } else {
        NegativeStarts(inp, s, nodes, ds[0], ds[1..] + rest);
        ParseDigits(inp, s, nodes, SIGNED, 2, first, MINUS, ds[1..], rest);
        r := IntegerRead(SIGNED, AppendDigits(first, ds[1..]), MINUS);
      }
    } else {
      assert WholeText(n) + rest == [ds[0]] + (ds[1..] + rest);
      assert SpecialStart(ds[0]) == if ds[0] == 0x30 then Zero else UNSIGNED;
      BarewordStarts(inp, s, nodes, ds[0], ds[1..] + rest);
      if ds[0] == 0x30 {
        assert ds[1..] + rest == rest;
        r := IntegerRead(Zero, 0, MINUS);
      } else {
        ParseDigits(inp, s, nodes, UNSIGNED, 1, first, 0x31, ds[1..], rest);
        r := IntegerRead(UNSIGNED, AppendDigits(first, ds[1..]), 0x31);
      }
    }
  }

  lemma MinusZero(inp: Input, s: Lex, nodes: seq<Node>, rest: bytes)
    requires ValueReady(s) && |s.frames| < |s.nescapes|
    ensures ParseBytes(inp, Parsing(s, nodes), [MINUS] + ([0x30] + rest))
         == ParseBytes(inp, Parsing(Within(s, IntegerRead(MINUS_ZERO, 0, MINUS), 2), nodes), rest)
  {
    hide ParseBytes, ParseByte, Step, InBareword, ValueReady;
    var r, r' := IntegerRead(Dash, 0, MINUS), IntegerRead(MINUS_ZERO, 0, MINUS);
    BarewordStarts(inp, s, nodes, MINUS, [0x30] + rest);
    WithinValid(s, r, 1);
    DashZero(s);
    OneByte(inp, s, nodes, r, r', 1, 0x30, rest);
  }

  lemma DashZero(s: Lex)
    requires ValueReady(s) && |s.frames| < |s.nescapes|
    ensures var r, r' := IntegerRead(Dash, 0, MINUS), IntegerRead(MINUS_ZERO, 0, MINUS);
      Valid(Within(s, r, 1)) && Step(Within(s, r, 1), 0x30) == Next(Within(s, r', 2), [])
  {
    WithinValid(s, IntegerRead(Dash, 0, MINUS), 1);
  }

  /** The flags of a number that is not over, less a lone zero's. */
  function Numbered(sp: Special): Special { if sp == Zero then UNSIGNED else sp }

  /** Behind the point, the mark of an exponent, its sign. */
  lemma PointStep(s: Lex, r: IntegerRead, n: nat)
    requires ValueReady(s) && |s.frames| < |s.nescapes| && Numbered(r.sp).Numeric? && !Numbered(r.sp).float
    ensures Valid(Within(s, r, n))
    ensures Step(Within(s, r, n), 0x2e)
         == Next(Within(s, IntegerRead(Numbered(r.sp).(float := true), r.nelem, 0x2e), n + 1), [])
  {
    WithinValid(s, r, n);
  }

  lemma MarkStep(s: Lex, r: IntegerRead, n: nat, c: byte)
    requires ValueReady(s) && |s.frames| < |s.nescapes| && Numbered(r.sp).Numeric? && !Numbered(r.sp).exponent
    requires c == 0x65 || c == 0x45
    ensures Valid(Within(s, r, n))
    ensures Step(Within(s, r, n), c)
         == Next(Within(s, IntegerRead(Numbered(r.sp).(exponent := true), r.nelem, 0x65), n + 1), [])
  {
    WithinValid(s, r, n);
  }

  lemma SignStep(s: Lex, r: IntegerRead, n: nat, c: byte)
    requires ValueReady(s) && |s.frames| < |s.nescapes| && r.sp.Numeric? && (r.sp.float || r.sp.exponent)
    requires (c == 0x2d || c == 0x2b) && r.tokLast == 0x65
    ensures Valid(Within(s, r, n)) && Step(Within(s, r, n), c) == Next(Within(s, r.(tokLast := 0x2d), n + 1), [])
  {
    WithinValid(s, r, n);
  }

  lemma MoreStep(s: Lex, r: IntegerRead, n: nat, c: byte)
    requires ValueReady(s) && |s.frames| < |s.nescapes| && r.sp.Numeric? && (r.sp.float || r.sp.exponent)
    requires 0x30 <= c <= 0x39
    ensures Valid(Within(s, r, n)) && Step(Within(s, r, n), c) == Next(Within(s, r.(tokLast := 0x31), n + 1), [])
  {
    WithinValid(s, r, n);
  }

  /** Digits of a fraction or an exponent. */
  lemma {:induction false} ReadDigits(inp: Input, s: Lex, nodes: seq<Node>, r: IntegerRead, n: nat, ds: bytes,
                                      rest: bytes)
    requires ValueReady(s) && |s.frames| < |s.nescapes| && r.sp.Numeric? && (r.sp.float || r.sp.exponent)
    requires Decimals(ds)
    ensures ParseBytes(inp, Parsing(Within(s, r, n), nodes), ds + rest)
         == ParseBytes(inp, Parsing(Within(s, if ds == [] then r else r.(tokLast := 0x31), n + |ds|), nodes), rest)
    decreases |ds|
  {
    hide ParseBytes, ParseByte, Step, Within, ValueReady;
    if ds == [] {
      assert ds + rest == rest;
    } else {
      assert ds + rest == [ds[0]] + (ds[1..] + rest);
      MoreStep(s, r, n, ds[0]);
      OneByte(inp, s, nodes, r, r.(tokLast := 0x31), n, ds[0], ds[1..] + rest);
      ReadDigits(inp, s, nodes, r.(tokLast := 0x31), n + 1, ds[1..], rest);
    }
  }

  lemma WholeNumeric(n: Numeral, r: IntegerRead)
    requires WholeFlags(n, r)
    ensures Numbered(r.sp).Numeric? && !Numbered(r.sp).float && !Numbered(r.sp).exponent
  {
  }

  lemma ReadFraction(inp: Input, s: Lex, nodes: seq<Node>, n: Numeral, r: IntegerRead, k: nat, rest: bytes)
    returns (r': IntegerRead)
    requires ValueReady(s) && |s.frames| < |s.nescapes| && NumeralFits(n) && WholeFlags(n, r)
    ensures ParseBytes(inp, Parsing(Within(s, r, k), nodes), FractionText(n) + rest)
         == ParseBytes(inp, Parsing(Within(s, r', k + |FractionText(n)|), nodes), rest)
    ensures if n.fraction.None? then r' == r
            else r'.sp.Numeric? && r'.sp.float && !r'.sp.exponent && r'.tokLast == 0x31
  {
    hide ParseBytes, ParseByte, Step, Within, ValueReady;
    WholeNumeric(n, r);
    match n.fraction
    case None =>
      assert [] + rest == rest;
      r' := r;
    case Some(ds) =>
      r' := IntegerRead(Numbered(r.sp).(float := true), r.nelem, 0x2e);
      assert FractionText(n) + rest == [0x2e] + (ds + rest);
      PointStep(s, r, k);
      OneByte(inp, s, nodes, r, r', k, 0x2e, ds + rest);
      ReadDigits(inp, s, nodes, r', k + 1, ds, rest);
      r' := r'.(tokLast := 0x31);
  }

  lemma ReadExponent(inp: Input, s: Lex, nodes: seq<Node>, n: Numeral, r: IntegerRead, k: nat, rest: bytes)
    returns (r': IntegerRead)
    requires ValueReady(s) && |s.frames| < |s.nescapes| && NumeralFits(n)
    requires Numbered(r.sp).Numeric? && !Numbered(r.sp).exponent
    ensures ParseBytes(inp, Parsing(Within(s, r, k), nodes), ExponentText(n) + rest)
         == ParseBytes(inp, Parsing(Within(s, r', k + |ExponentText(n)|), nodes), rest)
    ensures if n.exponent.None? then r' == r
            else r'.sp.Numeric? && r'.sp.exponent && r'.sp.float == Numbered(r.sp).float && r'.tokLast == 0x31
  {
    hide ParseBytes, ParseByte, Step, Within, ValueReady;
    match n.exponent
    case None =>
      assert [] + rest == rest;
      r' := r;
    case Some(e) =>
      var sign := SignText(e);
      r' := IntegerRead(Numbered(r.sp).(exponent := true), r.nelem, 0x65);
      assert ExponentText(n) + rest == [e.mark] + (sign + (e.digits + rest));
      MarkStep(s, r, k, e.mark);
      OneByte(inp, s, nodes, r, r', k, e.mark, sign + (e.digits + rest));
      if e.sign.Some? {
        SignStep(s, r', k + 1, e.sign.value);
        OneByte(inp, s, nodes, r', r'.(tokLast := 0x2d), k + 1, e.sign.value, e.digits + rest);
        r' := r'.(tokLast := 0x2d);
      } else {
        assert sign + (e.digits + rest) == e.digits + rest;
      }
      ReadDigits(inp, s, nodes, r', k + 1 + |sign|, e.digits, rest);
      r' := r'.(tokLast := 0x31);
  }

  /** The registers behind a numeral. */
  predicate NumeralFlags(n: Numeral, r: IntegerRead) {
    if IsWhole(n) then WholeFlags(n, r)
    else
      && r.sp.Numeric? && r.sp.float == n.fraction.Some? && r.sp.exponent == n.exponent.Some?
      && r.tokLast == 0x31
  }

  lemma ReadNumeral(inp: Input, s: Lex, nodes: seq<Node>, n: Numeral, rest: bytes) returns (r: IntegerRead)
    requires ValueReady(s) && |s.frames| < |s.nescapes| && NumeralFits(n)
    ensures NumeralFlags(n, r)
    ensures ParseBytes(inp, Parsing(s, nodes), NumeralText(n) + rest)
         == ParseBytes(inp, Parsing(Within(s, r, |NumeralText(n)|), nodes), rest)
  {
    hide ParseBytes, ParseByte, Step, Within, ValueReady;
    var w, fr, ex := WholeText(n), FractionText(n), ExponentText(n);
    assert NumeralText(n) + rest == w + (fr + (ex + rest));
    r := ReadWhole(inp, s, nodes, n, fr + (ex + rest));
    WholeNumeric(n, r);
    r := ReadFraction(inp, s, nodes, n, r, |w|, ex + rest);
    r := ReadExponent(inp, s, nodes, n, r, |w| + |fr|, rest);
  }

  /** At the byte behind a numeral: what the POP callback sees, and what it makes of it. */
  lemma NumeralEvent(inp: Input, s: Lex, n: Numeral, r: IntegerRead, rest: bytes) returns (s2: Lex, sp: Special)
    requires ValueReady(s) && |s.frames| < |s.nescapes| && NumeralFits(n) && NumeralFlags(n, r)
    requires rest != [] && Terminator(rest[0]) && At(inp.text, s.pos, NumeralText(n) + rest)
    ensures var s1 := Within(s, r, |NumeralText(n)|);
      && Valid(s1) && Valid(s2) && Top(s2).kind == SpecialFrame && Finished(s2) == Ok(sp)
      && Step(s1, rest[0]) == EndSpecial(s2, rest[0])
      && SpecialPopped(s2) == Done(s, |NumeralText(n)|)
      && PopEvent(s2, sp) == Pop(SpecialFrame, sp, 1, s.pos, s.pos + |NumeralText(n)|)
      && SpecialNode(inp, PopEvent(s2, sp))
         == match NumeralMeans(n, inp.strtod) case Some(v) => Ok(v) case None => Err(InvalidNumber)
  {
    hide Step, At, EndSpecial, NumeralText, Finished, SpecialNode, NumeralFits, InBareword, Done;
    var k := |NumeralText(n)|;
    NumericFlags(n, r);
    var r' := r.(sp := Numbered(r.sp));
    s2 := Within(s, r', k);
    sp := if r'.sp == MINUS_ZERO then UNSIGNED else r'.sp;
    WithinValid(s, r, k);
    WithinValid(s, r', k);
    BarewordValid(s, r'.sp, k, 1, r.nelem, r.tokLast);
    NumeralFinished(s, n, r, k);
    WithinTop(s, r, k);
    NumeralStops(Within(s, r, k), s2, rest[0]);
    AtConcat(inp.text, s.pos, NumeralText(n), rest);
    NumeralPopped(inp, s, n, r, sp);
  }

  lemma NumericFlags(n: Numeral, r: IntegerRead)
    requires NumeralFlags(n, r)
    ensures Numbered(r.sp).Numeric? && (IsWhole(n) <==> !Numbered(r.sp).float && !Numbered(r.sp).exponent)
  {
  }

  lemma WithinTop(s: Lex, r: IntegerRead, k: nat)
    requires ValueReady(s) && |s.frames| < |s.nescapes|
    ensures Valid(Within(s, r, k))
    ensures r.sp == Zero ==>
      Within(s, r.(sp := UNSIGNED), k)
      == WithTop(Within(s, r, k), Top(Within(s, r, k)).(special := UNSIGNED))
  {
    WithinValid(s, r, k);
  }

  lemma NumeralFinished(s: Lex, n: Numeral, r: IntegerRead, k: nat)
    requires ValueReady(s) && |s.frames| < |s.nescapes| && NumeralFlags(n, r)
    ensures var sp := Numbered(r.sp);
      var s2 := Within(s, r.(sp := sp), k);
      && Valid(s2) && Finished(s2) == Ok(if sp == MINUS_ZERO then UNSIGNED else sp)
      && PopEvent(s2, if sp == MINUS_ZERO then UNSIGNED else sp)
         == Pop(SpecialFrame, if sp == MINUS_ZERO then UNSIGNED else sp, 1, s.pos, s.pos + k)
  {
    BarewordValid(s, Numbered(r.sp), k, 1, r.nelem, r.tokLast);
    NumericFlags(n, r);
  }

  lemma NumeralPopped(inp: Input, s: Lex, n: Numeral, r: IntegerRead, sp: Special)
    requires NumeralFits(n) && NumeralFlags(n, r) && At(inp.text, s.pos, NumeralText(n))
    requires sp == if Numbered(r.sp) == MINUS_ZERO then UNSIGNED else Numbered(r.sp)
    ensures SpecialNode(inp, Pop(SpecialFrame, sp, 1, s.pos, s.pos + |NumeralText(n)|))
         == match NumeralMeans(n, inp.strtod) case Some(v) => Ok(v) case None => Err(InvalidNumber)
  {
    hide NumeralText, Places, Decimals, ReadInt;
    NumericFlags(n, r);
    if IsWhole(n) { WholeRead(n); }
  }

  lemma NumeralStops(s: Lex, s': Lex, t: byte)
    requires Valid(s) && Top(s).kind == SpecialFrame && Terminator(t)
    requires var sp := Top(s).special;
      if sp == Zero then s' == WithTop(s, Top(s).(special := UNSIGNED)) else sp.Numeric? && s' == s
    ensures Valid(s') && Step(s, t) == EndSpecial(s', t)
  {
    hide EndSpecial;
  }

  /** `strtoll` on a numeral without fraction and exponent. */
  lemma WholeRead(n: Numeral)
    requires NumeralFits(n) && IsWhole(n)
    ensures var v := if n.negative then -(Places(n.whole) as int) else Places(n.whole);
      ReadInt(NumeralText(n))
      == if -0x8000_0000_0000_0000 <= v <= 0x7fff_ffff_ffff_ffff then Some(v) else None
  {
    hide Places, ReadInt, ExponentFits;
    WholeIsText(n);
    SignedRead(n.negative, n.whole);
  }

  lemma WholeIsText(n: Numeral)
    requires IsWhole(n)
    ensures NumeralText(n) == (if n.negative then [MINUS] else []) + n.whole
  {
    assert FractionText(n) + ExponentText(n) == [];
  }

  // ---- the parser on a numeral ----------------------------------------------------------------

  /** The parser arrives behind the text with v in place; without a value it stops at an invalid number. */
  ghost predicate Arrives(inp: Input, s: Lex, nodes: seq<Node>, text: bytes, v: Option<Node>, rest: bytes)
    requires Valid(s) && HasPlace(s, nodes)
  {
    var p := ParseBytes(inp, Parsing(s, nodes), text + rest);
    match v
    case Some(v) => Valid(Done(s, |text|)) && p == ParseBytes(inp, Parsing(Done(s, |text|), Placed(s, nodes, v)), rest)
    case None => StoppedBy(p, CallbackError(InvalidNumber))
  }

  /** A numeral where a value may start. */
  lemma ParseNumeral(inp: Input, s: Lex, nodes: seq<Node>, n: Numeral, rest: bytes)
    requires ValueReady(s) && HasPlace(s, nodes) && |s.frames| < |s.nescapes| && |nodes| < inp.capacity
    requires NumeralFits(n) && rest != [] && Terminator(rest[0]) && At(inp.text, s.pos, NumeralText(n) + rest)
    ensures Arrives(inp, s, nodes, NumeralText(n), NumeralMeans(n, inp.strtod), rest)
  {
    hide ParseBytes, ParseByte, Step, Within, NumeralText, NumeralFits, NumeralFlags, NumeralMeans, At, Placed,
        HasPlace, SpecialNode, EndSpecial, Finished, StoppedBy;
    var k := |NumeralText(n)|;
    var r := ReadNumeral(inp, s, nodes, n, rest);
    var s2, sp := NumeralEvent(inp, s, n, r, rest);
    DoneValid(s, k);
    match NumeralMeans(n, inp.strtod)
    case Some(v) =>
      AttachPlaced(s, nodes, v);
      BareEndRest(inp, Within(s, r, k), s2, nodes, sp, Placed(s, nodes, v), rest);
    case None =>
      BareRefused(inp, Within(s, r, k), s2, nodes, sp, InvalidNumber, rest);
  }

  lemma DoneValid(s: Lex, len: nat)
    requires ValueReady(s)
    ensures Valid(Done(s, len))
  {
  }

  /** A bareword of which the callback makes nothing. */
  lemma BareRefused(inp: Input, s: Lex, s1: Lex, nodes: seq<Node>, sp: Special, e: JsonError, rest: bytes)
    requires Valid(s) && Valid(s1) && Top(s1).kind == SpecialFrame && rest != []
    requires Step(s, rest[0]) == EndSpecial(s1, rest[0]) && Finished(s1) == Ok(sp)
    requires SpecialNode(inp, PopEvent(s1, sp)) == Err(e)
    ensures StoppedBy(ParseBytes(inp, Parsing(s, nodes), rest), CallbackError(e))
  {
    hide ParseBytes, Finished, Structural, Step, SpecialNode;
    var ev, c := PopEvent(s1, sp), rest[0];
    var next := Step(s, c);
    assert next.events[0] == ev;
    assert OnEvent(inp, nodes, ev) == Stopped(CallbackError(e));
    assert rest == [c] + rest[1..];
    ParseCons(inp, Parsing(s, nodes), c, rest[1..]);
    ParseStopped(inp, ParseByte(inp, Parsing(s, nodes), c), rest[1..]);
  }
}
