/**
 The pushdown lexer of jsonsl.c, one byte at a time, as a function on its registers. The
 order of the tests is that of `jsonsl_feed`.
 */
module Lexer {
  import opened Bytes
  import opened Errors
  import opened Escape

  datatype Kind = RootFrame | ObjectFrame | ListFrame | StringFrame | KeyFrame | SpecialFrame

  /**
   `special_flags` of a bareword. Numeric stands for the SIGNED/UNSIGNED bits with the FLOAT
   and EXPONENT bits or-ed in; minusZero is ZERO|SIGNED, the flags of a token that began "-0".
   */
  datatype Special =
    | NoSpecial
    | Dash
    | Zero
    | Numeric(signed: bool, minusZero: bool, float: bool, exponent: bool)
    | TrueWord
    | FalseWord
    | NullWord

  const UNSIGNED := Numeric(false, false, false, false)
  const SIGNED := Numeric(true, false, false, false)
  const MINUS_ZERO := Numeric(true, true, false, false)

  /** A `jsonsl_state_st` that is on the stack. Fields the source leaves stale when a frame is reused are cleared. */
  datatype Frame = Frame(kind: Kind, nelem: nat, begin: nat, special: Special)

  /**
   The registers. nescapes is that column of the whole state array, by level, because it is
   the one field that a frame inherits from the previous use of its slot.
   */
  datatype Lex = Lex(frames: seq<Frame>, nescapes: seq<nat>, pos: nat,
                     expecting: byte, tokLast: byte, canInsert: bool, inEscape: bool)

  /** What a PUSH or POP callback is given: the frame as it then is, and for a POP its end. */
  datatype Event =
    | Push(kind: Kind, special: Special, begin: nat)
    | Pop(kind: Kind, special: Special, nescapes: nat, begin: nat, end: nat)

  /** A step that fails leaves its registers to the next reset; only the column of escape counts outlives that. */
  datatype StepResult =
    | Next(lex: Lex, events: seq<Event>)
    | Fail(error: JsonError, events: seq<Event>, nescapes: seq<nat>)

  function Column(r: StepResult): seq<nat> { if r.Next? then r.lex.nescapes else r.nescapes }

  predicate IsContainer(k: Kind) { k == ObjectFrame || k == ListFrame }

  predicate IsStringy(k: Kind) { k == StringFrame || k == KeyFrame }

  /** The root at the bottom, containers above it, and at most one scalar, on top. */
  predicate ValidStack(frames: seq<Frame>, levels: nat) {
    && 1 <= |frames| <= levels
    && frames[0].kind == RootFrame
    && (forall i :: 1 <= i < |frames| ==> frames[i].kind != RootFrame)
    && (forall i :: 1 <= i < |frames| - 1 ==> IsContainer(frames[i].kind))
  }

  predicate Valid(s: Lex) {
    && ValidStack(s.frames, |s.nescapes|)
    && (s.inEscape ==> IsStringy(s.frames[|s.frames| - 1].kind))
  }

  /** The registers after `jsonsl_new` or `jsonsl_reset`; column is what earlier parses left behind. */
  function Start(column: seq<nat>): (s: Lex)
    requires |column| >= 2
    ensures Valid(s)
  {
    Lex([Frame(RootFrame, 0, 0, NoSpecial)], column, 0, 0, 0, true, false)
  }

  function Top(s: Lex): Frame
    requires |s.frames| >= 1
  {
    s.frames[|s.frames| - 1]
  }

  function Level(s: Lex): nat
    requires |s.frames| >= 1
  {
    |s.frames| - 1
  }

  function WithTop(s: Lex, f: Frame): Lex
    requires |s.frames| >= 1
  {
    s.(frames := s.frames[|s.frames| - 1 := f])
  }

  /** The loop's step to the next byte. */
  function Advance(s: Lex): Lex { s.(pos := s.pos + 1) }

  // ---- character tables ------------------------------------------------------------------

  predicate IsWhitespace(c: byte) { c == SPACE || c == TAB || c == LF || c == CR }

  predicate IsSpecialEnd(c: byte) {
    || IsWhitespace(c) || c == QUOTE || c == COMMA || c == COLON
    || c == LBRACKET || c == BACKSLASH || c == RBRACKET || c == LBRACE || c == RBRACE
  }

  /** A byte of a string that needs no look; note that 0x14 to 0x1f pass. */
  predicate IsSimpleChar(c: byte) { c > 0x13 && c != QUOTE && c != BACKSLASH }

  function SpecialStart(c: byte): Special {
    if c == MINUS then Dash
    else if c == 0x30 then Zero
    else if IsDigit(c) then UNSIGNED
    else if c == 0x66 then FalseWord
    else if c == 0x6e then NullWord
    else if c == 0x74 then TrueWord
    else NoSpecial
  }

  predicate IsNormalNumber(sp: Special) { sp == UNSIGNED || sp == SIGNED }

  function Word(sp: Special): bytes {
    match sp
    case TrueWord => TRUE_TEXT
    case FalseWord => FALSE_TEXT
    case _ => NULL_TEXT
  }

  // ---- the step --------------------------------------------------------------------------

  function Step(s: Lex, c: byte): (r: StepResult)
    requires Valid(s)
    ensures |Column(r)| == |s.nescapes|
    ensures r.Next? ==> Valid(r.lex) && r.lex.pos == s.pos + 1
    ensures r.Fail? ==> r.error != Success
  {
    var k := Top(s).kind;
    if IsStringy(k) then InString(s, c)
    else if k == SpecialFrame then InSpecial(s, c)
    else if IsWhitespace(c) then Next(Advance(s), [])
    else if SpecialStart(c) != NoSpecial then BeginSpecial(s, c)
    else if c == QUOTE then BeginString(s)
    else if c == BACKSLASH then Fail(EscapeOutsideString, [], s.nescapes)
    else Structural(s, c)
  }

  function Escapes(s: Lex): nat
    requires Valid(s)
  {
    s.nescapes[Level(s)]
  }

  function WithEscapes(s: Lex, n: nat): Lex
    requires Valid(s)
  {
    s.(nescapes := s.nescapes[Level(s) := n])
  }

  /** STACK_PUSH and the callback. */
  function PushFrame(s: Lex, kind: Kind, special: Special, nelem: nat): (r: StepResult)
    requires Valid(s) && kind != RootFrame && !s.inEscape
    requires |s.frames| == 1 || IsContainer(Top(s).kind)
    ensures |Column(r)| == |s.nescapes|
    ensures r.Next? ==> Valid(r.lex) && r.lex.pos == s.pos + 1
    ensures r.Fail? ==> r.error != Success
  {
    if |s.frames| >= |s.nescapes| then Fail(LevelsExceeded, [], s.nescapes)
    else Next(Advance(s.(frames := s.frames + [Frame(kind, nelem, s.pos, special)])), [Push(kind, special, s.pos)])
  }

  function PopEvent(s: Lex, special: Special): Event
    requires Valid(s)
  {
    Pop(Top(s).kind, special, Escapes(s), Top(s).begin, s.pos)
  }

  /** A container's POP. Its `pos_cur` is whatever its last child left there and nobody reads it; begin stands in. */
  function PopContainerEvent(s: Lex): Event
    requires Valid(s)
  {
    Pop(Top(s).kind, NoSpecial, Escapes(s), Top(s).begin, Top(s).begin)
  }

  /** CALLBACK_AND_POP without the callback. */
  function PopScalar(s: Lex): (r: Lex)
    requires Valid(s) && |s.frames| >= 2 && !s.inEscape
    ensures Valid(r)
  {
    WithEscapes(s, 0).(frames := s.frames[..|s.frames| - 1])
  }

  function InString(s: Lex, c: byte): (r: StepResult)
    requires Valid(s) && IsStringy(Top(s).kind)
    ensures |Column(r)| == |s.nescapes|
    ensures r.Next? ==> Valid(r.lex) && r.lex.pos == s.pos + 1
    ensures r.Fail? ==> r.error != Success
  {
    if s.inEscape then
      if IsAllowedEscape(c) then Next(Advance(s.(inEscape := false)), []) else Fail(EscapeInvalid, [], s.nescapes)
    else if IsSimpleChar(c) then
      Next(Advance(s), [])
    else if c == QUOTE then
      Next(Advance(PopScalar(s).(canInsert := false)), [PopEvent(s, NoSpecial)])
    else if c == BACKSLASH then
      Next(Advance(WithEscapes(s, Escapes(s) + 1).(inEscape := true)), [])
    else
      Fail(WeirdWhitespace, [], s.nescapes)
  }

  function BeginString(s: Lex): (r: StepResult)
    requires Valid(s) && !s.inEscape && (|s.frames| == 1 || IsContainer(Top(s).kind))
    ensures |Column(r)| == |s.nescapes|
    ensures r.Next? ==> Valid(r.lex) && r.lex.pos == s.pos + 1
    ensures r.Fail? ==> r.error != Success
  {
    var f := Top(s);
    var s1 := WithTop(s, f.(nelem := f.nelem + 1)).(canInsert := false, tokLast := 0);
    match f.kind
    case ObjectFrame =>
      if f.nelem % 2 == 1 then
        if s.tokLast != COLON then Fail(MissingToken, [], s.nescapes)
        else PushFrame(s1.(expecting := COMMA), StringFrame, NoSpecial, 0)
      else
        if s.expecting != QUOTE then Fail(StrayToken, [], s.nescapes)
        else PushFrame(s1.(expecting := COLON), KeyFrame, NoSpecial, 0)
    case ListFrame => PushFrame(s1.(expecting := COMMA), StringFrame, NoSpecial, 0)
    case _ => Fail(StringOutsideContainer, [], s.nescapes)
  }

  /** ENSURE_HVAL: an object may not take a bare value where it wants a key. */
  predicate WantsKey(f: Frame) { f.kind == ObjectFrame && f.nelem % 2 == 0 }

  /** GT_STRUCTURAL_TOKEN. */
  function Structural(s: Lex, c: byte): (r: StepResult)
    requires Valid(s) && !s.inEscape && (|s.frames| == 1 || IsContainer(Top(s).kind))
    ensures |Column(r)| == |s.nescapes|
    ensures r.Next? ==> Valid(r.lex) && r.lex.pos == s.pos + 1
    ensures r.Fail? ==> r.error != Success
  {
    var f := Top(s);
    if c == COLON then
      if s.expecting != COLON then Fail(StrayToken, [], s.nescapes)
      else Next(Advance(s.(tokLast := COLON, canInsert := true, expecting := QUOTE)), [])
    else if c == COMMA then
      if s.expecting != COMMA then Fail(StrayToken, [], s.nescapes)
      else Next(Advance(s.(canInsert := s.canInsert || f.kind != ObjectFrame, tokLast := COMMA, expecting := QUOTE)),
                [])
    else if c == LBRACE || c == LBRACKET then OpenContainer(s, c)
    else if c == RBRACE || c == RBRACKET then CloseContainer(s, c)
    else BeginSpecial(s, c)
  }

  function OpenContainer(s: Lex, c: byte): (r: StepResult)
    requires Valid(s) && !s.inEscape && (|s.frames| == 1 || IsContainer(Top(s).kind))
    ensures |Column(r)| == |s.nescapes|
    ensures r.Next? ==> Valid(r.lex) && r.lex.pos == s.pos + 1
    ensures r.Fail? ==> r.error != Success
  {
    var f := Top(s);
    if !s.canInsert then Fail(CantInsert, [], s.nescapes)
    else if WantsKey(f) then Fail(HKeyExpected, [], s.nescapes)
    else
      var s1 := WithTop(s, f.(nelem := f.nelem + 1)).(canInsert := true, tokLast := 0);
      if c == LBRACE then PushFrame(s1.(expecting := QUOTE), ObjectFrame, NoSpecial, 0)
      else PushFrame(s1, ListFrame, NoSpecial, 0)
  }

  function CloseContainer(s: Lex, c: byte): (r: StepResult)
    requires Valid(s) && !s.inEscape && (|s.frames| == 1 || IsContainer(Top(s).kind))
    ensures |Column(r)| == |s.nescapes|
    ensures r.Next? ==> Valid(r.lex) && r.lex.pos == s.pos + 1
    ensures r.Fail? ==> r.error != Success
  {
    var f := Top(s);
    if s.tokLast == COMMA then Fail(TrailingComma, [], s.nescapes)
    else if f.kind != (if c == RBRACE then ObjectFrame else ListFrame) then Fail(BracketMismatch, [], s.nescapes)
    else if f.kind == ObjectFrame && f.nelem % 2 == 1 then Fail(ValueExpected, [], s.nescapes)
    else
      Next(Advance(s.(frames := s.frames[..|s.frames| - 1], canInsert := false, expecting := COMMA, tokLast := 0)),
           [PopContainerEvent(s)])
  }

  /** GT_SPECIAL_BEGIN. */
  function BeginSpecial(s: Lex, c: byte): (r: StepResult)
    requires Valid(s) && !s.inEscape && (|s.frames| == 1 || IsContainer(Top(s).kind))
    ensures |Column(r)| == |s.nescapes|
    ensures r.Next? ==> Valid(r.lex) && r.lex.pos == s.pos + 1
    ensures r.Fail? ==> r.error != Success
  {
    var f, sp := Top(s), SpecialStart(c);
    if sp == NoSpecial then
      Fail(if c == NUL then FoundNullByte else if c < 0x20 then WeirdWhitespace else SpecialExpected, [], s.nescapes)
    else if WantsKey(f) then Fail(HKeyExpected, [], s.nescapes)
    else if !s.canInsert then Fail(CantInsert, [], s.nescapes)
    else
      var s1 := WithTop(s, f.(nelem := f.nelem + 1));
      var digit := sp == UNSIGNED;
      var r := PushFrame(s1.(tokLast := if digit then 0x31 else MINUS), SpecialFrame, sp,
                         if digit then c as nat - 0x30 else 0);
      WithLength(r)
  }

  /** STATE_SPECIAL_LENGTH shares the column of escape counts and starts at 1. */
  function WithLength(r: StepResult): StepResult
    requires r.Next? ==> Valid(r.lex)
  {
    if r.Next? then r.(lex := WithEscapes(r.lex, 1)) else r
  }

  function InSpecial(s: Lex, c: byte): (r: StepResult)
    requires Valid(s) && Top(s).kind == SpecialFrame
    ensures |Column(r)| == |s.nescapes|
    ensures r.Next? ==> Valid(r.lex) && r.lex.pos == s.pos + 1
    ensures r.Fail? ==> r.error != Success
  {
    var f := Top(s);
    if IsNormalNumber(f.special) then
      if IsDigit(c) then Next(Advance(WithTop(s, f.(nelem := AppendDigit(f.nelem, c)))), [])
      else InNumber(s, c)
    else match f.special
      case Dash =>
        if !IsDigit(c) then Fail(InvalidNumber, [], s.nescapes)
        else if c == 0x30 then Next(Advance(WithTop(s, f.(special := MINUS_ZERO))), [])
        else Next(Advance(WithTop(s, f.(special := SIGNED, nelem := c as nat - 0x30))), [])
      case Zero =>
        if IsDigit(c) then Fail(InvalidNumber, [], s.nescapes)
        else InNumber(WithTop(s, f.(special := UNSIGNED)), c)
      case Numeric(_, _, _, _) => InNumber(s, c)
      case _ =>
        if IsSpecialEnd(c) then EndSpecial(s, c)
        else if !WordMatches(Word(f.special), s.pos - f.begin, c) then
          Fail(SpecialExpected, [], WithEscapes(s, Escapes(s) + 1).nescapes)
        else Next(Advance(WithEscapes(s, Escapes(s) + 1)), [])
  }

  /** The digit sum of a plain number, in its 64-bit register. */
  function AppendDigit(n: nat, c: byte): nat
    requires IsDigit(c)
  {
    (n * 10 + (c as nat - 0x30)) % 0x1_0000_0000_0000_0000
  }

  /** VERIFY_SPECIAL, whose literal ends in NUL. Past that the source reads beyond the literal; here nothing matches. */
  predicate WordMatches(word: bytes, at: int, c: byte) {
    0 <= at <= |word| && c == if at < |word| then word[at] else NUL
  }

  /** GT_SPECIAL_NUMERIC. */
  function InNumber(s: Lex, c: byte): (r: StepResult)
    requires Valid(s) && Top(s).kind == SpecialFrame && Top(s).special.Numeric?
    ensures |Column(r)| == |s.nescapes|
    ensures r.Next? ==> Valid(r.lex) && r.lex.pos == s.pos + 1
    ensures r.Fail? ==> r.error != Success
  {
    var f := Top(s);
    if IsDigit(c) then Next(Advance(s.(tokLast := 0x31)), [])
    else if c == DOT then
      if f.special.float then Fail(InvalidNumber, [], s.nescapes)
      else Next(Advance(WithTop(s, f.(special := f.special.(float := true))).(tokLast := DOT)), [])
    else if c == 0x65 || c == 0x45 then
      if f.special.exponent then Fail(InvalidNumber, [], s.nescapes)
      else Next(Advance(WithTop(s, f.(special := f.special.(exponent := true))).(tokLast := 0x65)), [])
    else if c == MINUS || c == PLUS then
      if s.tokLast != 0x65 then Fail(InvalidNumber, [], s.nescapes)
      else Next(Advance(s.(tokLast := MINUS)), [])
    else if IsSpecialEnd(c) then EndSpecial(s, c)
    else Fail(InvalidNumber, [], s.nescapes)
  }

  /** The error, or the flags the POP callback sees, when a bareword ends. */
  function Finished(s: Lex): (r: Result<Special, JsonError>)
    requires Valid(s) && Top(s).kind == SpecialFrame
    ensures r.Err? ==> r.error != Success
  {
    var sp := Top(s).special;
    if IsNormalNumber(sp) then Ok(sp)
    else match sp
      case Zero => Ok(UNSIGNED)
      case Dash => Err(InvalidNumber)
      case Numeric(_, _, _, _) =>
        if sp == MINUS_ZERO then Ok(UNSIGNED)
        else if s.tokLast != 0x31 then Err(InvalidNumber)
        else Ok(sp)
      case _ => if Escapes(s) != |Word(sp)| then Err(SpecialIncomplete) else Ok(sp)
  }

  function SpecialPopped(s: Lex): (r: Lex)
    requires Valid(s) && Top(s).kind == SpecialFrame
    ensures Valid(r)
  {
    PopScalar(s).(canInsert := false, tokLast := 0, expecting := COMMA)
  }

  /** GT_SPECIAL_POP: the byte that ends a bareword is then looked at as a token of the container. */
  function EndSpecial(s: Lex, c: byte): (r: StepResult)
    requires Valid(s) && Top(s).kind == SpecialFrame
    ensures |Column(r)| == |s.nescapes|
    ensures r.Next? ==> Valid(r.lex) && r.lex.pos == s.pos + 1
    ensures r.Fail? ==> r.error != Success
  {
    match Finished(s)
    case Err(e) => Fail(e, [], s.nescapes)
    case Ok(sp) =>
      var ev := PopEvent(s, sp);
      var s1 := SpecialPopped(s);
      if IsWhitespace(c) then Next(Advance(s1), [ev])
      else
        After(ev, Structural(s1, c))
  }

  /** A step whose first callback is ev. */
  function After(ev: Event, r: StepResult): StepResult {
    match r
    case Next(s, events) => Next(s, [ev] + events)
    case Fail(e, events, column) => Fail(e, [ev] + events, column)
  }

  /** A container that closes leaves the escape counts alone. */
  lemma PopsKeepColumn(s: Lex, c: byte)
    requires Valid(s) && !s.inEscape && (|s.frames| == 1 || IsContainer(Top(s).kind))
    ensures var r := Structural(s, c);
      r.events != [] && r.events[0].Pop? ==> Column(r) == s.nescapes
  {
  }

  // ---- runs ------------------------------------------------------------------------------

  /**
   A run with a callback that may stop it: `halts` decides after each callback, from all
   callbacks so far. Once halted or failed, only the escape counts outlive the next reset.
   */
  datatype Run =
    | Live(lex: Lex, trace: seq<Event>)
    | Failed(error: JsonError, trace: seq<Event>, nescapes: seq<nat>)
    | Halted(trace: seq<Event>, nescapes: seq<nat>)

  type Callback = seq<Event> -> bool

  /** The trace up to and including the first event that halts. */
  function Deliver(halts: Callback, trace: seq<Event>, events: seq<Event>): (r: (seq<Event>, bool))
    ensures r.1 ==> events != []
    decreases |events|
  {
    if events == [] then (trace, false)
    else
      var t := trace + [events[0]];
      if halts(t) then (t, true) else Deliver(halts, t, events[1..])
  }

  /**
   A step with its callbacks made; before is the column at its start. A POP clears its slot
   when the callback has returned, so the first POP of a byte halts with the slot as it was.
   */
  function Finish(halts: Callback, before: seq<nat>, trace: seq<Event>, next: StepResult): (r: Run)
    ensures r.Live? ==> next.Next? && r.lex == next.lex
  {
    var (t, halted) := Deliver(halts, trace, next.events);
    if halted then Halted(t, if next.events[0].Pop? && halts(trace + [next.events[0]]) then before else Column(next))
    else match next
      case Next(s, _) => Live(s, t)
      case Fail(e, _, column) => Failed(e, t, column)
  }

  function StepRun(halts: Callback, r: Run, c: byte): (r': Run)
    requires r.Live? ==> Valid(r.lex)
    ensures r'.Live? ==> Valid(r'.lex)
  {
    if r.Live? then Finish(halts, r.lex.nescapes, r.trace, Step(r.lex, c)) else r
  }

  /** Feeding a buffer, byte by byte. */
  function RunBytes(halts: Callback, r: Run, buf: bytes): (r': Run)
    requires r.Live? ==> Valid(r.lex)
    ensures r'.Live? ==> Valid(r'.lex)
    decreases |buf|
  {
    if buf == [] then r else RunBytes(halts, StepRun(halts, r, buf[0]), buf[1..])
  }

  lemma {:induction false} RunStopped(halts: Callback, r: Run, buf: bytes)
    requires !r.Live?
    ensures RunBytes(halts, r, buf) == r
    decreases |buf|
  {
    if buf != [] {
      RunStopped(halts, r, buf[1..]);
    }
  }

  /** Where a text is cut into buffers makes no difference to the callbacks, the registers, or the first error. */
  lemma {:induction false} RunConcat(halts: Callback, r: Run, a: bytes, b: bytes)
    requires r.Live? ==> Valid(r.lex)
    ensures RunBytes(halts, r, a + b) == RunBytes(halts, RunBytes(halts, r, a), b)
    decreases |a|
  {
    if a == [] {
      assert a + b == b;
    } else {
      assert (a + b)[0] == a[0] && (a + b)[1..] == a[1..] + b;
      RunConcat(halts, StepRun(halts, r, a[0]), a[1..], b);
    }
  }

  function Flatten(chunks: seq<bytes>): bytes {
    if chunks == [] then [] else chunks[0] + Flatten(chunks[1..])
  }
}
