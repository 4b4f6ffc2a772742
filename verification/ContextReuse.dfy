/** Reusing a parsing context. */
module ContextReuse {
  // `jsonsl_reset` clears the registers but not the state array, and a new string does not clear
  // the escape count of its slot; only the end of a string or bareword does. What earlier parses
  // left there changes a document's fate in one case, and what a parse leaves is at most one slot.

  import opened Bytes
  import opened Errors
  import opened Escape
  import opened Nodes
  import opened Lexer
  import opened Parser
  import opened RoundTrip
  import opened Stops
  import opened TwoStacks

  // ---- two parses of one text -------------------------------------------------------------

  /** The same registers over a used and a fresh column: what is left over can only raise the count of a string. */
  predicate Twins(s: Lex, t: Lex) {
    && Valid(s) && Valid(t) && t == s.(nescapes := t.nescapes) && |t.nescapes| == |s.nescapes|
    && (forall i :: 0 <= i < |t.nescapes| && i != Level(t) ==> t.nescapes[i] == 0)
    && (if IsStringy(Top(t).kind) then Escapes(t) > 0 ==> Escapes(s) > 0
        else if Top(t).kind == SpecialFrame then Escapes(s) == Escapes(t)
        else Escapes(t) == 0)
  }

  /** Equal callbacks, but for the escape count that a POP is given. */
  predicate SameCall(a: Event, b: Event) {
    if a.Push? then a == b
    else b.Pop? && b == a.(nescapes := b.nescapes) && (IsStringy(a.kind) ==> b.nescapes > 0 ==> a.nescapes > 0)
  }

  predicate SameCalls(a: seq<Event>, b: seq<Event>) {
    |a| == |b| && forall i :: 0 <= i < |a| ==> SameCall(a[i], b[i])
  }

  predicate SameStep(a: StepResult, b: StepResult) {
    && SameCalls(a.events, b.events)
    && (if a.Next? then b.Next? && Twins(a.lex, b.lex) else b.Fail? && a.error == b.error)
  }

  lemma StepTwins(s: Lex, t: Lex, c: byte)
    requires Twins(s, t)
    ensures SameStep(Step(s, c), Step(t, c))
  {
    hide InString, InSpecial, BeginString, BeginSpecial, Structural, SameStep, Twins;
    SameKind(s, t);
    if IsStringy(Top(s).kind) {
      StringTwins(s, t, c);
    } else if Top(s).kind == SpecialFrame {
      SpecialTwins(s, t, c);
    } else {
      TokenTwins(s, t, c);
      BeginTwins(s, t, c);
      QuietTwins(s, t);
    }
  }

  lemma SameKind(s: Lex, t: Lex)
    requires Twins(s, t)
    ensures Valid(s) && Valid(t) && |s.frames| >= 1 && Top(s) == Top(t) && s.frames == t.frames
    ensures s.inEscape == t.inEscape
  {
  }

  lemma QuietTwins(s: Lex, t: Lex)
    requires Twins(s, t)
    ensures SameStep(Next(Advance(s), []), Next(Advance(t), []))
    ensures SameStep(Fail(EscapeOutsideString, [], s.nescapes), Fail(EscapeOutsideString, [], t.nescapes))
  {
  }

  lemma StringTwins(s: Lex, t: Lex, c: byte)
    requires Twins(s, t) && IsStringy(Top(s).kind)
    ensures SameStep(InString(s, c), InString(t, c))
  {
    hide SameStep, Twins, ValidStack, PopScalar;
    SameKind(s, t);
    TwinIs(s, t);
    FailTwins(s, t, EscapeInvalid);
    FailTwins(s, t, WeirdWhitespace);
    QuietTwins(s, t);
    EscapeTwins(s, t);
    if !s.inEscape { ClosedTwins(s, t); }
  }

  /** Into an escape, and out of it. */
  lemma EscapeTwins(s: Lex, t: Lex)
    requires Twins(s, t) && IsStringy(Top(s).kind)
    ensures SameStep(Next(Advance(s.(inEscape := false)), []), Next(Advance(t.(inEscape := false)), []))
    ensures SameStep(Next(Advance(WithEscapes(s, Escapes(s) + 1).(inEscape := true)), []),
                     Next(Advance(WithEscapes(t, Escapes(t) + 1).(inEscape := true)), []))
  {
  }

  lemma ClosedTwins(s: Lex, t: Lex)
    requires Twins(s, t) && IsStringy(Top(s).kind) && !s.inEscape
    ensures |s.frames| >= 2 && |t.frames| >= 2
    ensures SameStep(Next(Advance(PopScalar(s).(canInsert := false)), [PopEvent(s, NoSpecial)]),
                     Next(Advance(PopScalar(t).(canInsert := false)), [PopEvent(t, NoSpecial)]))
  {
  }

  lemma PushTwins(s: Lex, t: Lex, kind: Kind, special: Special, nelem: nat)
    requires Twins(s, t) && kind != RootFrame && !s.inEscape && (|s.frames| == 1 || IsContainer(Top(s).kind))
    ensures var a, b := PushFrame(s, kind, special, nelem), PushFrame(t, kind, special, nelem);
      if kind == SpecialFrame then SameStep(WithLength(a), WithLength(b)) else SameStep(a, b)
  {
  }

  lemma BeginTwins(s: Lex, t: Lex, c: byte)
    requires Twins(s, t) && !s.inEscape && (|s.frames| == 1 || IsContainer(Top(s).kind))
    ensures SameStep(BeginString(s), BeginString(t))
    ensures SameStep(BeginSpecial(s, c), BeginSpecial(t, c))
  {
    BeginStringTwins(s, t);
    BeginSpecialTwins(s, t, c);
  }

  lemma Counted(s: Lex, t: Lex, s': Lex)
    requires Twins(s, t) && (|s.frames| == 1 || IsContainer(Top(s).kind)) && Valid(s') && s'.nescapes == s.nescapes
    requires |s'.frames| == |s.frames| && Top(s').kind == Top(s).kind
    ensures Twins(s', s'.(nescapes := t.nescapes))
  {
  }

  lemma BeginStringTwins(s: Lex, t: Lex)
    requires Twins(s, t) && !s.inEscape && (|s.frames| == 1 || IsContainer(Top(s).kind))
    ensures SameStep(BeginString(s), BeginString(t))
  {
    hide PushFrame, SameStep, Twins, ValidStack;
    SameKind(s, t);
    TwinIs(s, t);
    var f := Top(s);
    var s1 := WithTop(s, f.(nelem := f.nelem + 1)).(canInsert := false, tokLast := 0);
    BumpedValid(s, f.(nelem := f.nelem + 1));
    FailTwins(s, t, MissingToken);
    FailTwins(s, t, StrayToken);
    FailTwins(s, t, StringOutsideContainer);
    PushCounted(s, t, s1.(expecting := COMMA), StringFrame);
    PushCounted(s, t, s1.(expecting := COLON), KeyFrame);
  }

  lemma TwinIs(s: Lex, t: Lex)
    requires Twins(s, t)
    ensures t == s.(nescapes := t.nescapes)
  {
  }

  lemma BumpedValid(s: Lex, f: Frame)
    requires Valid(s) && f.kind == Top(s).kind
    ensures Valid(WithTop(s, f))
  {
  }

  lemma FailTwins(s: Lex, t: Lex, e: JsonError)
    ensures SameStep(Fail(e, [], s.nescapes), Fail(e, [], t.nescapes))
  {
  }

  lemma PushCounted(s: Lex, t: Lex, s1: Lex, kind: Kind)
    requires Twins(s, t) && (|s.frames| == 1 || IsContainer(Top(s).kind)) && Valid(s1) && s1.nescapes == s.nescapes
    requires |s1.frames| == |s.frames| && Top(s1).kind == Top(s).kind && !s1.inEscape && kind != RootFrame
    ensures Valid(s1.(nescapes := t.nescapes))
    ensures kind != SpecialFrame ==>
      SameStep(PushFrame(s1, kind, NoSpecial, 0), PushFrame(s1.(nescapes := t.nescapes), kind, NoSpecial, 0))
  {
    hide PushFrame, SameStep;
    Counted(s, t, s1);
    PushTwins(s1, s1.(nescapes := t.nescapes), kind, NoSpecial, 0);
  }

  lemma BeginSpecialTwins(s: Lex, t: Lex, c: byte)
    requires Twins(s, t) && !s.inEscape && (|s.frames| == 1 || IsContainer(Top(s).kind))
    ensures SameStep(BeginSpecial(s, c), BeginSpecial(t, c))
  {
    hide PushFrame, SameStep, Twins, ValidStack, WithLength;
    SameKind(s, t);
    TwinIs(s, t);
    var f, sp := Top(s), SpecialStart(c);
    if sp == NoSpecial {
      FailTwins(s, t, if c == NUL then FoundNullByte else if c < 0x20 then WeirdWhitespace else SpecialExpected);
    } else {
      FailTwins(s, t, HKeyExpected);
      FailTwins(s, t, CantInsert);
      var digit := sp == UNSIGNED;
      var s1 := WithTop(s, f.(nelem := f.nelem + 1)).(tokLast := if digit then 0x31 else MINUS);
      BumpedValid(s, f.(nelem := f.nelem + 1));
      PushCounted(s, t, s1, StringFrame);
      Counted(s, t, s1);
      PushTwins(s1, s1.(nescapes := t.nescapes), SpecialFrame, sp, if digit then c as nat - 0x30 else 0);
    }
  }

  lemma TokenTwins(s: Lex, t: Lex, c: byte)
    requires Twins(s, t) && !s.inEscape && (|s.frames| == 1 || IsContainer(Top(s).kind))
    ensures SameStep(Structural(s, c), Structural(t, c))
  {
    hide BeginSpecial, OpenContainer, CloseContainer, SameStep, Twins, ValidStack;
    SameKind(s, t);
    TwinIs(s, t);
    BeginTwins(s, t, c);
    OpenTwins(s, t, c);
    CloseTwins(s, t, c);
    FailTwins(s, t, StrayToken);
    SeparatorTwins(s, t, COLON, true);
    SeparatorTwins(s, t, COMMA, s.canInsert || Top(s).kind != ObjectFrame);
  }

  lemma SeparatorTwins(s: Lex, t: Lex, tok: byte, canInsert: bool)
    requires Twins(s, t) && !s.inEscape && (|s.frames| == 1 || IsContainer(Top(s).kind))
    ensures SameStep(Next(Advance(s.(tokLast := tok, canInsert := canInsert, expecting := QUOTE)), []),
                     Next(Advance(t.(tokLast := tok, canInsert := canInsert, expecting := QUOTE)), []))
  {
  }

  lemma OpenTwins(s: Lex, t: Lex, c: byte)
    requires Twins(s, t) && !s.inEscape && (|s.frames| == 1 || IsContainer(Top(s).kind))
    ensures SameStep(OpenContainer(s, c), OpenContainer(t, c))
  {
    hide PushFrame, SameStep, Twins, ValidStack;
    SameKind(s, t);
    TwinIs(s, t);
    var f := Top(s);
    var s1 := WithTop(s, f.(nelem := f.nelem + 1)).(canInsert := true, tokLast := 0);
    BumpedValid(s, f.(nelem := f.nelem + 1));
    FailTwins(s, t, CantInsert);
    FailTwins(s, t, HKeyExpected);
    PushCounted(s, t, s1.(expecting := QUOTE), ObjectFrame);
    PushCounted(s, t, s1, ListFrame);
  }

  lemma CloseTwins(s: Lex, t: Lex, c: byte)
    requires Twins(s, t) && !s.inEscape && (|s.frames| == 1 || IsContainer(Top(s).kind))
    ensures SameStep(CloseContainer(s, c), CloseContainer(t, c))
  {
  }

  lemma SpecialTwins(s: Lex, t: Lex, c: byte)
    requires Twins(s, t) && Top(s).kind == SpecialFrame
    ensures SameStep(InSpecial(s, c), InSpecial(t, c))
  {
    hide EndSpecial, InNumber, SameStep, Twins, WordMatches, ValidStack;
    SameKind(s, t);
    TwinIs(s, t);
    var f := Top(s);
    if f.special.Numeric? { NumberTwins(s, t, c); }
    FailTwins(s, t, InvalidNumber);
    if f.special == Zero {
      TopTwins(s, t, f.(special := UNSIGNED));
      NumberTwins(WithTop(s, f.(special := UNSIGNED)), WithTop(t, f.(special := UNSIGNED)), c);
    } else if f.special == Dash {
      TopTwins(s, t, f.(special := MINUS_ZERO));
      TopTwins(s, t, f.(special := SIGNED, nelem := if IsDigit(c) then c as nat - 0x30 else 0));
      QuietTwins(WithTop(s, f.(special := MINUS_ZERO)), WithTop(t, f.(special := MINUS_ZERO)));
      QuietTwins(WithTop(s, f.(special := SIGNED, nelem := if IsDigit(c) then c as nat - 0x30 else 0)),
                 WithTop(t, f.(special := SIGNED, nelem := if IsDigit(c) then c as nat - 0x30 else 0)));
    } else if IsNormalNumber(f.special) {
      var g := f.(nelem := if IsDigit(c) then AppendDigit(f.nelem, c) else 0);
      TopTwins(s, t, g);
      QuietTwins(WithTop(s, g), WithTop(t, g));
    } else if !f.special.Numeric? {
      EndTwins(s, t, c);
      CountTwins(s, t);
    }
  }

  /** A letter more of a literal. */
  lemma CountTwins(s: Lex, t: Lex)
    requires Twins(s, t) && Top(s).kind == SpecialFrame
    ensures SameStep(Next(Advance(WithEscapes(s, Escapes(s) + 1)), []),
        Next(Advance(WithEscapes(t, Escapes(t) + 1)), []))
    ensures SameStep(Fail(SpecialExpected, [], WithEscapes(s, Escapes(s) + 1).nescapes),
                     Fail(SpecialExpected, [], WithEscapes(t, Escapes(t) + 1).nescapes))
  {
  }

  lemma TopTwins(s: Lex, t: Lex, f: Frame)
    requires Twins(s, t) && Top(s).kind == SpecialFrame && f.kind == SpecialFrame
    ensures Twins(WithTop(s, f), WithTop(t, f)) && Top(WithTop(s, f)) == f
  {
  }

  lemma NumberTwins(s: Lex, t: Lex, c: byte)
    requires Twins(s, t) && Top(s).kind == SpecialFrame && Top(s).special.Numeric?
    ensures SameStep(InNumber(s, c), InNumber(t, c))
  {
    hide EndSpecial, SameStep, Twins, ValidStack;
    SameKind(s, t);
    TwinIs(s, t);
    var f := Top(s);
    FailTwins(s, t, InvalidNumber);
    EndTwins(s, t, c);
    RegisterTwins(s, t, 0x31);
    RegisterTwins(s, t, MINUS);
    TopTwins(s, t, f.(special := f.special.(float := true)));
    TopTwins(s, t, f.(special := f.special.(exponent := true)));
    RegisterTwins(WithTop(s, f.(special := f.special.(float := true))),
        WithTop(t, f.(special := f.special.(float := true))), DOT);
    RegisterTwins(WithTop(s, f.(special := f.special.(exponent := true))),
        WithTop(t, f.(special := f.special.(exponent := true))), 0x65);
  }

  lemma RegisterTwins(s: Lex, t: Lex, tok: byte)
    requires Twins(s, t)
    ensures SameStep(Next(Advance(s.(tokLast := tok)), []), Next(Advance(t.(tokLast := tok)), []))
  {
  }

  lemma EndTwins(s: Lex, t: Lex, c: byte)
    requires Twins(s, t) && Top(s).kind == SpecialFrame
    ensures SameStep(EndSpecial(s, c), EndSpecial(t, c))
  {
    hide Structural;
    assert Finished(s) == Finished(t);
    if Finished(s).Ok? {
      var sp := Finished(s).value;
      PoppedTwins(s, t);
      TokenTwins(SpecialPopped(s), SpecialPopped(t), c);
    }
  }

  lemma PoppedTwins(s: Lex, t: Lex)
    requires Twins(s, t) && Top(s).kind == SpecialFrame
    ensures Twins(SpecialPopped(s), SpecialPopped(t))
  {
  }

  // ---- their callbacks --------------------------------------------------------------------

  /** No backslash in the string on top so far, unless one is counted. */
  predicate Clear(inp: Input, t: Lex)
    requires Valid(t)
  {
    && (t.inEscape ==> Escapes(t) > 0)
    && (IsStringy(Top(t).kind) && Escapes(t) == 0 ==>
          Top(t).begin < t.pos <= |inp.text| && BACKSLASH !in inp.text[Top(t).begin + 1..t.pos])
  }

  lemma StepClear(inp: Input, t: Lex, c: byte)
    requires Valid(t) && Clear(inp, t) && t.pos < |inp.text| && inp.text[t.pos] == c
    ensures var r := Step(t, c);
      r.Next? ==> Clear(inp, r.lex)
  {
    hide InString, InSpecial, BeginString, BeginSpecial, Structural, Clear, NoStrings;
    if IsStringy(Top(t).kind) {
      StringClear(inp, t, c);
    } else if Top(t).kind == SpecialFrame {
      SpecialUnescaped(t, c);
      if InSpecial(t, c).Next? { NoStringClear(inp, InSpecial(t, c).lex); }
    } else {
      TokenUnescaped(t, c);
      if Structural(t, c).Next? { NoStringClear(inp, Structural(t, c).lex); }
      if BeginSpecial(t, c).Next? { NoStringClear(inp, BeginSpecial(t, c).lex); }
      NoStringClear(inp, t);
      NoStringClear(inp, Advance(t));
      BeginsClear(inp, t);
    }
  }

  lemma NoStringClear(inp: Input, t: Lex)
    requires Valid(t) && !IsStringy(Top(t).kind)
    ensures Clear(inp, t)
  {
  }

  lemma StringClear(inp: Input, t: Lex, c: byte)
    requires Valid(t) && Clear(inp, t) && t.pos < |inp.text| && inp.text[t.pos] == c && IsStringy(Top(t).kind)
    ensures var r := InString(t, c);
      r.Next? ==> Clear(inp, r.lex)
  {
    var begin := Top(t).begin;
    if Escapes(t) == 0 {
      assert inp.text[begin + 1..t.pos + 1] == inp.text[begin + 1..t.pos] + [c];
    }
  }

  /** What begins has nothing in it yet. */
  lemma BeginsClear(inp: Input, t: Lex)
    requires Valid(t) && !IsStringy(Top(t).kind) && !t.inEscape && (|t.frames| == 1 || IsContainer(Top(t).kind))
    requires t.pos < |inp.text|
    ensures var r := BeginString(t);
      r.Next? ==> Clear(inp, r.lex)
  {
    hide ValidStack;
    BeginStringShape(t);
  }

  /** After a token no string is on top. */
  lemma TokenUnescaped(t: Lex, c: byte)
    requires Valid(t) && !t.inEscape && (|t.frames| == 1 || IsContainer(Top(t).kind))
    ensures var r := Structural(t, c);
      NoStrings(r.events) && (r.Next? ==> !IsStringy(Top(r.lex).kind))
    ensures var r := BeginSpecial(t, c);
      NoStrings(r.events) && (r.Next? ==> !IsStringy(Top(r.lex).kind))
  {
    hide BeginSpecial, OpenContainer, CloseContainer;
    BeginSpecialShape(t, c);
    OpenContainerShape(t, c);
    CloseUnescaped(t, c);
  }

  lemma CloseUnescaped(t: Lex, c: byte)
    requires Valid(t) && !t.inEscape && (|t.frames| == 1 || IsContainer(Top(t).kind))
    ensures var r := CloseContainer(t, c);
      NoStrings(r.events) && (r.Next? ==> !IsStringy(Top(r.lex).kind))
  {
  }

  /** No string or key ends. */
  predicate NoStrings(events: seq<Event>) {
    forall i :: 0 <= i < |events| ==> events[i].Pop? ==> !IsStringy(events[i].kind)
  }

  lemma SpecialUnescaped(t: Lex, c: byte)
    requires Valid(t) && Top(t).kind == SpecialFrame
    ensures var r := InSpecial(t, c);
      NoStrings(r.events) && (r.Next? ==> !IsStringy(Top(r.lex).kind))
  {
    hide EndSpecial, WordMatches, InNumber;
    EndUnescaped(t, c);
    if Top(t).special.Numeric? { NumberUnescaped(t, c); }
    if Top(t).special == Zero {
      var t' := WithTop(t, Top(t).(special := UNSIGNED));
      BumpedValid(t, Top(t).(special := UNSIGNED));
      NumberUnescaped(t', c);
    }
  }

  lemma NumberUnescaped(t: Lex, c: byte)
    requires Valid(t) && Top(t).kind == SpecialFrame && Top(t).special.Numeric?
    ensures var r := InNumber(t, c);
      NoStrings(r.events) && (r.Next? ==> !IsStringy(Top(r.lex).kind))
  {
    hide EndSpecial;
    EndUnescaped(t, c);
  }

  lemma EndUnescaped(t: Lex, c: byte)
    requires Valid(t) && Top(t).kind == SpecialFrame
    ensures var r := EndSpecial(t, c);
      NoStrings(r.events) && (r.Next? ==> !IsStringy(Top(r.lex).kind))
  {
    hide Finished, Structural;
    if Finished(t).Ok? { TokenUnescaped(SpecialPopped(t), c); }
  }

  /** A text without backslashes unescapes to itself. */
  lemma {:induction false} UnescapePlain(s: bytes)
    requires BACKSLASH !in s
    ensures Unescape(s, 0) == Ok(s)
    decreases |s|
  {
    if s != [] {
      assert BACKSLASH !in s[1..];
      UnescapePlain(s[1..]);
      assert [s[0]] + s[1..] == s;
    }
  }

  /** An empty string closes over leftover escapes. */
  predicate EmptyDirty(s: Lex, c: byte)
    requires Valid(s)
  {
    IsStringy(Top(s).kind) && !s.inEscape && c == QUOTE && s.pos == Top(s).begin + 1 && Escapes(s) > 0
  }

  lemma CallTwins(inp: Input, nodes: seq<Node>, a: Event, b: Event)
    requires SameCall(a, b)
    requires a.Pop? && IsStringy(a.kind) && a.nescapes > 0 && b.nescapes == 0 ==>
      var raw := Slice(inp.text, a.begin + 1, a.end);
      raw != [] && BACKSLASH !in raw
    ensures OnEvent(inp, nodes, a) == OnEvent(inp, nodes, b)
  {
    hide Attach, Unescape, SpecialNode;
    if a.Pop? {
      if IsStringy(a.kind) && a.nescapes > 0 && b.nescapes == 0 { UnescapePlain(Slice(inp.text, a.begin + 1, a.end)); }
      if a.kind == SpecialFrame { SpecialCall(inp, a, b); }
    }
  }

  lemma SpecialCall(inp: Input, a: Event, b: Event)
    requires a.Pop? && b.Pop? && b == a.(nescapes := b.nescapes)
    ensures SpecialNode(inp, a) == SpecialNode(inp, b)
  {
  }

  lemma {:induction false} CallsTwins(inp: Input, nodes: seq<Node>, a: seq<Event>, b: seq<Event>)
    requires SameCalls(a, b) && NoStrings(a)
    ensures OnEvents(inp, nodes, a) == OnEvents(inp, nodes, b)
    decreases |a|
  {
    hide OnEvent, SameCall;
    if a != [] {
      assert SameCall(a[0], b[0]);
      CallTwins(inp, nodes, a[0], b[0]);
      match OnEvent(inp, nodes, a[0])
      case Stopped(_) =>
      case Nodes(ns) =>
        assert forall i :: 0 <= i < |a| - 1 ==> SameCall(a[1..][i], b[1..][i]) && a[1..][i] == a[i + 1];
        CallsTwins(inp, ns, a[1..], b[1..]);
    }
  }

  /** The callbacks of one byte come to the same, unless an empty string closes over leftover escapes. */
  lemma BuiltTwins(inp: Input, s: Lex, t: Lex, nodes: seq<Node>, c: byte)
    requires Twins(s, t) && Clear(inp, t) && t.pos < |inp.text| && inp.text[t.pos] == c && !EmptyDirty(s, c)
    ensures OnEvents(inp, nodes, Step(s, c).events) == OnEvents(inp, nodes, Step(t, c).events)
  {
    hide OnEvent, InSpecial, BeginString, BeginSpecial, Structural, SameCall, OnEvents;
    StepTwins(s, t, c);
    if IsStringy(Top(s).kind) {
      if !s.inEscape && c == QUOTE {
        var a, b := PopEvent(s, NoSpecial), PopEvent(t, NoSpecial);
        assert Step(s, c).events == [a] && Step(t, c).events == [b];
        assert SameCall([a][0], [b][0]);
        CallTwins(inp, nodes, a, b);
        EventsOne(inp, nodes, a);
        EventsOne(inp, nodes, b);
      }
    } else {
      NotStrings(s, c);
      CallsTwins(inp, nodes, Step(s, c).events, Step(t, c).events);
    }
  }

  lemma NotStrings(s: Lex, c: byte)
    requires Valid(s) && !IsStringy(Top(s).kind)
    ensures NoStrings(Step(s, c).events)
  {
    hide InSpecial, BeginString, BeginSpecial, Structural;
    if Top(s).kind == SpecialFrame {
      SpecialUnescaped(s, c);
    } else {
      TokenUnescaped(s, c);
      BeginStringShape(s);
      BeginSpecialShape(s, c);
    }
  }

  // ---- whole texts ------------------------------------------------------------------------

  predicate TwinParses(inp: Input, p: Parse, q: Parse) {
    match p
    case Parsing(s, nodes) => q.Parsing? && Twins(s, q.lex) && Clear(inp, q.lex) && nodes == q.nodes
    case LexError(e, _) => q.LexError? && q.error == e
    case CallbackStop(stop, _) => q.CallbackStop? && q.stop == stop
  }

  lemma ByteTwins(inp: Input, p: Parse, q: Parse, c: byte)
    requires TwinParses(inp, p, q)
    requires p.Parsing? ==> p.lex.pos < |inp.text| && inp.text[p.lex.pos] == c && !EmptyDirty(p.lex, c)
    ensures TwinParses(inp, ParseByte(inp, p, c), ParseByte(inp, q, c))
  {
    hide Step, OnEvents, StopColumn, Clear, SameCalls;
    if p.Parsing? {
      TwinIs(p.lex, q.lex);
      StepTwins(p.lex, q.lex, c);
      StepClear(inp, q.lex, c);
      BuiltTwins(inp, p.lex, q.lex, p.nodes, c);
    }
  }

  lemma DirtyStops(inp: Input, s: Lex, nodes: seq<Node>, c: byte)
    requires Valid(s) && EmptyDirty(s, c)
    ensures StoppedBy(ParseByte(inp, Parsing(s, nodes), c), CallbackError(Success))
  {
    hide OnEvent;
    var ev := PopEvent(s, NoSpecial);
    assert Slice(inp.text, ev.begin + 1, ev.end) == [];
    assert StringBody(inp, ev) == Err(Success);
    assert OnEvent(inp, nodes, ev) == Stopped(CallbackError(Success)) by { EmptyBody(inp, nodes, ev); }
    EventsOne(inp, nodes, ev);
  }

  lemma EmptyBody(inp: Input, nodes: seq<Node>, ev: Event)
    requires ev.Pop? && IsStringy(ev.kind) && StringBody(inp, ev) == Err(Success)
    ensures OnEvent(inp, nodes, ev) == Stopped(CallbackError(Success))
  {
    hide StringBody;
  }

  /** The parse of the first k bytes. */
  function Prefix(text: bytes, column: seq<nat>, strtod: FloatReader, k: nat): (p: Parse)
    requires |column| >= 2 && k <= |Buffer(text)|
    ensures p.Parsing? ==> Valid(p.lex)
  {
    ParseBytes(Input(Buffer(text), |column|, strtod), Parsing(Start(column), []), Buffer(text)[..k])
  }

  /** At byte k of the document an empty string closes, and its slot holds leftover escapes. */
  predicate DirtyAt(text: bytes, column: seq<nat>, strtod: FloatReader, k: nat)
    requires |column| >= 2
  {
    && k < |Buffer(text)|
    && var p := Prefix(text, column, strtod, k);
       p.Parsing? && EmptyDirty(p.lex, Buffer(text)[k])
  }

  lemma PrefixSnoc(text: bytes, column: seq<nat>, strtod: FloatReader, k: nat)
    requires |column| >= 2 && k < |Buffer(text)|
    ensures Prefix(text, column, strtod, k + 1)
         == ParseByte(Input(Buffer(text), |column|, strtod), Prefix(text, column, strtod, k), Buffer(text)[k])
  {
    hide ParseByte, Start, Buffer;
    var buf := Buffer(text);
    var inp := Input(buf, |column|, strtod);
    assert buf[..k + 1] == buf[..k] + [buf[k]] && [buf[k]][1..] == [];
    ParseConcat(inp, Parsing(Start(column), []), buf[..k], [buf[k]]);
  }

  function Unused(levels: nat): seq<nat> { seq(levels, _ => 0) }

  lemma {:induction false} PrefixTwins(text: bytes, column: seq<nat>, strtod: FloatReader, k: nat)
    requires |column| >= 2 && k <= |Buffer(text)|
    requires forall j: nat :: j < k ==> !DirtyAt(text, column, strtod, j)
    ensures var inp, p := Input(Buffer(text), |column|, strtod), Prefix(text, column, strtod, k);
      && TwinParses(inp, p, Prefix(text, Unused(|column|), strtod, k))
      && (p.Parsing? ==> p.lex.pos == k)
    decreases k
  {
    hide ParseByte, ParseBytes, Buffer, Step, TwinParses, Unused, EmptyDirty;
    var inp := Input(Buffer(text), |column|, strtod);
    UnusedLength(|column|);
    if k == 0 {
      StartTwins(inp, column);
      assert Buffer(text)[..0] == [];
      ParseNothing(inp, Parsing(Start(column), []));
      ParseNothing(inp, Parsing(Start(Unused(|column|)), []));
    } else {
      var p, q := Prefix(text, column, strtod, k - 1), Prefix(text, Unused(|column|), strtod, k - 1);
      PrefixTwins(text, column, strtod, k - 1);
      PrefixSnoc(text, column, strtod, k - 1);
      PrefixSnoc(text, Unused(|column|), strtod, k - 1);
      assert !DirtyAt(text, column, strtod, k - 1);
      ByteTwins(inp, p, q, Buffer(text)[k - 1]);
      BytePosition(inp, p, Buffer(text)[k - 1]);
    }
  }

  lemma UnusedLength(levels: nat)
    ensures |Unused(levels)| == levels
  {
  }

  lemma BytePosition(inp: Input, p: Parse, c: byte)
    requires p.Parsing? ==> Valid(p.lex)
    ensures var r := ParseByte(inp, p, c);
      r.Parsing? ==> p.Parsing? && r.lex.pos == p.lex.pos + 1
  {
    hide Step, OnEvents;
  }

  lemma StartTwins(inp: Input, column: seq<nat>)
    requires |column| >= 2
    ensures TwinParses(inp, Parsing(Start(column), []), Parsing(Start(Unused(|column|)), [])) && Start(column).pos == 0
  {
  }

  lemma TwinsConclude(inp: Input, p: Parse, q: Parse, scalar: bool)
    requires TwinParses(inp, p, q) && (p.Parsing? ==> Valid(p.lex)) && (q.Parsing? ==> Valid(q.lex))
    ensures Conclude(p, scalar) == Conclude(q, scalar)
  {
  }

  /**
   Every text in every context: the result is that of a fresh context, unless an empty string
   closes over leftover escapes; then the document counts as incomplete.
   */
  lemma ReuseExactly(text: bytes, column: seq<nat>, strtod: FloatReader)
    requires |column| >= 2
    ensures CreateNode(text, column, strtod)
         == if exists k: nat :: DirtyAt(text, column, strtod, k) then Err(Incomplete)
            else CreateNode(text, Unused(|column|), strtod)
  {
    hide ParseByte, ParseBytes, Buffer, Step, TwinParses, Unused, EmptyDirty, Start, Conclude, IsScalarText;
    var buf, scalar := Buffer(text), IsScalarText(text);
    var inp := Input(buf, |column|, strtod);
    UnusedLength(|column|);
    assert buf[..|buf|] == buf;
    if k: nat :| DirtyAt(text, column, strtod, k) {
      var p := Prefix(text, column, strtod, k);
      DirtyStops(inp, p.lex, p.nodes, buf[k]);
      StopsThere(inp, Parsing(Start(column), []), buf, k, CallbackError(Success));
      StopConcludes(ParseText(text, column, strtod), scalar);
    } else {
      PrefixTwins(text, column, strtod, |buf|);
      TwinsConclude(inp, Prefix(text, column, strtod, |buf|), Prefix(text, Unused(|column|), strtod, |buf|), scalar);
    }
  }

  lemma StopConcludes(p: Parse, scalar: bool)
    requires StoppedBy(p, CallbackError(Success))
    ensures Conclude(p, scalar) == Err(Incomplete)
  {
  }

  // ---- what a parse leaves ----------------------------------------------------------------

  /** No slot but l has another count than before, save that it may have been cleared. */
  predicate OnlyAt(column: seq<nat>, left: seq<nat>, l: int) {
    |left| == |column| && forall i :: 0 <= i < |column| && i != l ==> left[i] == column[i] || left[i] == 0
  }

  /** The level of a string or bareword that is open, or none. */
  function Risk(s: Lex): int
    requires Valid(s)
  {
    if IsContainer(Top(s).kind) || Top(s).kind == RootFrame then -1 else Level(s)
  }

  /** A step changes only the count of what is open before it, or after it. */
  ghost predicate Leaves(s: Lex, r: StepResult)
    requires Valid(s) && (r.Next? ==> Valid(r.lex))
  {
    && OnlyAt(s.nescapes, Column(r), if r.Next? then Risk(r.lex) else Risk(s))
    && (r.Next? && Risk(s) != -1 && Risk(r.lex) != Risk(s) ==> r.lex.nescapes[Risk(s)] == 0)
  }

  lemma StepLeaves(s: Lex, c: byte)
    requires Valid(s)
    ensures Leaves(s, Step(s, c))
  {
    hide InString, InSpecial, BeginString, BeginSpecial, Structural, Leaves;
    if IsStringy(Top(s).kind) {
      StringLeaves(s, c);
    } else if Top(s).kind == SpecialFrame {
      SpecialLeaves(s, c);
    } else {
      TokenLeaves(s, c);
      BeginsLeave(s, c);
      QuietLeaves(s, Next(Advance(s), []));
      QuietLeaves(s, Fail(EscapeOutsideString, [], s.nescapes));
    }
  }

  lemma QuietLeaves(s: Lex, r: StepResult)
    requires Valid(s) && Column(r) == s.nescapes
    requires r.Next? ==> Valid(r.lex) && (Risk(s) == -1 || Risk(r.lex) == Risk(s))
    ensures Leaves(s, r)
  {
  }

  lemma StringLeaves(s: Lex, c: byte)
    requires Valid(s) && IsStringy(Top(s).kind)
    ensures Leaves(s, InString(s, c))
  {
  }

  lemma BeginsLeave(s: Lex, c: byte)
    requires Valid(s) && !s.inEscape && (|s.frames| == 1 || IsContainer(Top(s).kind))
    ensures Leaves(s, BeginString(s)) && Leaves(s, BeginSpecial(s, c)) && Leaves(s, OpenContainer(s, c))
  {
    hide BeginString, BeginSpecial, OpenContainer;
    BeginStringShape(s);
    BeginSpecialShape(s, c);
    OpenContainerShape(s, c);
    BeginsColumn(s, c);
  }

  /** A string or container that begins leaves the counts alone, a bareword sets its own. */
  lemma BeginsColumn(s: Lex, c: byte)
    requires Valid(s) && !s.inEscape && (|s.frames| == 1 || IsContainer(Top(s).kind))
    ensures Column(BeginString(s)) == s.nescapes && Column(OpenContainer(s, c)) == s.nescapes
    ensures var r := BeginSpecial(s, c);
      Column(r) == if r.Next? then s.nescapes[|s.frames| := 1] else s.nescapes
  {
  }

  lemma TokenLeaves(s: Lex, c: byte)
    requires Valid(s) && !s.inEscape && (|s.frames| == 1 || IsContainer(Top(s).kind))
    ensures Leaves(s, Structural(s, c))
  {
    hide BeginSpecial, OpenContainer, CloseContainer, Leaves;
    BeginsLeave(s, c);
    CloseLeaves(s, c);
    if c == COLON || c == COMMA { QuietLeaves(s, Structural(s, c)); }
  }

  lemma CloseLeaves(s: Lex, c: byte)
    requires Valid(s) && !s.inEscape && (|s.frames| == 1 || IsContainer(Top(s).kind))
    ensures Leaves(s, CloseContainer(s, c))
  {
  }

  lemma SpecialLeaves(s: Lex, c: byte)
    requires Valid(s) && Top(s).kind == SpecialFrame
    ensures Leaves(s, InSpecial(s, c))
  {
    hide EndSpecial, WordMatches, InNumber, ValidStack;
    EndLeaves(s, c);
    if Top(s).special.Numeric? { NumberLeaves(s, c); }
    if Top(s).special == Zero {
      BumpedValid(s, Top(s).(special := UNSIGNED));
      NumberLeaves(WithTop(s, Top(s).(special := UNSIGNED)), c);
    }
  }

  lemma NumberLeaves(s: Lex, c: byte)
    requires Valid(s) && Top(s).kind == SpecialFrame && Top(s).special.Numeric?
    ensures Leaves(s, InNumber(s, c))
  {
    hide EndSpecial, Leaves;
    EndLeaves(s, c);
    var r := InNumber(s, c);
    if IsDigit(c) || !IsSpecialEnd(c) { QuietLeaves(s, r); }
  }

  lemma EndLeaves(s: Lex, c: byte)
    requires Valid(s) && Top(s).kind == SpecialFrame
    ensures Leaves(s, EndSpecial(s, c))
  {
    hide Finished, Structural;
    if Finished(s).Ok? { TokenLeaves(SpecialPopped(s), c); }
  }

  /** The counts while a parse goes on, and when it is over. */
  ghost predicate LeftOver(column: seq<nat>, p: Parse)
    requires p.Parsing? ==> Valid(p.lex)
  {
    if p.Parsing? then OnlyAt(column, p.lex.nescapes, Risk(p.lex)) else exists l: int :: OnlyAt(column, p.nescapes, l)
  }

  lemma ByteLeaves(inp: Input, column: seq<nat>, p: Parse, c: byte)
    requires (p.Parsing? ==> Valid(p.lex)) && LeftOver(column, p)
    ensures LeftOver(column, ParseByte(inp, p, c))
  {
    hide Step, OnEvents, OnEvent, Risk;
    if p.Parsing? {
      StepLeaves(p.lex, c);
      var r := Step(p.lex, c);
      if r.Fail? {
        assert OnlyAt(column, r.nescapes, Risk(p.lex));
      } else {
        assert OnlyAt(column, r.lex.nescapes, Risk(r.lex));
      }
    }
  }

  lemma {:induction false} BytesLeave(inp: Input, column: seq<nat>, p: Parse, buf: bytes)
    requires (p.Parsing? ==> Valid(p.lex)) && LeftOver(column, p)
    ensures LeftOver(column, ParseBytes(inp, p, buf))
    decreases |buf|
  {
    hide ParseByte, LeftOver;
    if buf != [] {
      ByteLeaves(inp, column, p, buf[0]);
      BytesLeave(inp, column, ParseByte(inp, p, buf[0]), buf[1..]);
    }
  }

  /**
   Whatever the text, a parse adds leftover escapes in one slot at most, and an accepted
   document in none.
   */
  lemma LeavesOneSlot(text: bytes, column: seq<nat>, strtod: FloatReader)
    requires |column| >= 2
    ensures exists l: int :: OnlyAt(column, ColumnLeft(text, column, strtod), l)
    ensures CreateNode(text, column, strtod).Ok? ==> OnlyAt(column, ColumnLeft(text, column, strtod), -1)
  {
    hide ParseBytes, Buffer, IsScalarText;
    var buf := Buffer(text);
    assert LeftOver(column, Parsing(Start(column), []));
    BytesLeave(Input(buf, |column|, strtod), column, Parsing(Start(column), []), buf);
    var p := ParseText(text, column, strtod);
    assert ColumnLeft(text, column, strtod) == ColumnOf(p) && LeftOver(column, p);
    var l := if p.Parsing? then Risk(p.lex) else var l: int :| OnlyAt(column, p.nescapes, l); l;
    assert OnlyAt(column, ColumnLeft(text, column, strtod), l);
  }

  // ---- two texts that show it -------------------------------------------------------------

  /** The text [""]. */
  const EMPTY_STRING_LIST: bytes := [LBRACKET, QUOTE, QUOTE, RBRACKET]

  /** In a list that the document opens, n bytes read. */
  function InList(column: seq<nat>, nelem: nat, n: nat): Lex {
    Lex([Frame(RootFrame, 1, 0, NoSpecial), Frame(ListFrame, nelem, 0, NoSpecial)], column, n,
        if nelem == 0 then 0 else COMMA, 0, nelem == 0, false)
  }

  /** In the list's first string. */
  function InFirstString(column: seq<nat>, n: nat, inEscape: bool): Lex {
    var s := InList(column, 1, n);
    s.(frames := s.frames + [Frame(StringFrame, 0, 1, NoSpecial)], inEscape := inEscape)
  }

  lemma FirstTwoBytes(inp: Input, column: seq<nat>, rest: bytes)
    requires |column| >= 3 && inp.capacity >= 2
    ensures ParseBytes(inp, Parsing(Start(column), []), [LBRACKET] + ([QUOTE] + rest))
         == ParseBytes(inp, Parsing(InFirstString(column, 2, false), [Array([])]), rest)
  {
    hide ParseBytes, ParseByte, Step;
    var s0, s1, s2 := Start(column), InList(column, 0, 1), InFirstString(column, 2, false);
    FirstSteps(column);
    ParseCons(inp, Parsing(s0, []), LBRACKET, [QUOTE] + rest);
    CallbackByte(inp, s0, [], LBRACKET, s1, Push(ListFrame, NoSpecial, 0));
    assert [] + [Array([])] == [Array([])];
    ParseCons(inp, Parsing(s1, [Array([])]), QUOTE, rest);
    CallbackByte(inp, s1, [Array([])], QUOTE, s2, Push(StringFrame, NoSpecial, 1));
  }

  lemma FirstSteps(column: seq<nat>)
    requires |column| >= 3
    ensures var s1 := InList(column, 0, 1);
      && Valid(s1)
      && Step(Start(column), LBRACKET) == Next(s1, [Push(ListFrame, NoSpecial, 0)])
      && Step(s1, QUOTE) == Next(InFirstString(column, 2, false), [Push(StringFrame, NoSpecial, 1)])
      && Valid(InFirstString(column, 2, false))
  {
  }

  /** Such a parse, in a string: it leaves one more escape in the string's slot than it found. */
  lemma FailedParseLeavesEscape(column: seq<nat>, strtod: FloatReader)
    requires |column| >= 3
    ensures var bad: bytes := [LBRACKET, QUOTE, BACKSLASH, 0x71];
      && CreateNode(bad, column, strtod) == Err(LexerError(EscapeInvalid))
      && ColumnLeft(bad, column, strtod) == column[2 := column[2] + 1]
  {
    hide ParseBytes, Step;
    var bad: bytes := [LBRACKET, QUOTE, BACKSLASH, 0x71];
    var inp := Input(bad, |column|, strtod);
    var s2, s3 := InFirstString(column, 2, false), InFirstString(column[2 := column[2] + 1], 3, true);
    assert bad[..3] == [LBRACKET] + ([QUOTE] + [BACKSLASH]) && bad == bad[..3] + [0x71];
    FirstTwoBytes(inp, column, [BACKSLASH]);
    FirstSteps(column);
    EscapeStep(column);
    assert [BACKSLASH] + [] == [BACKSLASH];
    ParseCons(inp, Parsing(s2, [Array([])]), BACKSLASH, []);
    QuietByte(inp, s2, [Array([])], BACKSLASH, s3);
    ParseNothing(inp, Parsing(s3, [Array([])]));
    ParseConcat(inp, Parsing(Start(column), []), bad[..3], [0x71]);
    assert [0x71] + [] == [0x71];
    ParseCons(inp, Parsing(s3, [Array([])]), 0x71, []);
    ParseNothing(inp, LexError(EscapeInvalid, column[2 := column[2] + 1]));
    assert Buffer(bad) == bad;
  }

  lemma EscapeStep(column: seq<nat>)
    requires |column| >= 3
    ensures var s3 := InFirstString(column[2 := column[2] + 1], 3, true);
      Valid(s3) && Step(InFirstString(column, 2, false), BACKSLASH) == Next(s3, [])
      && Step(s3, 0x71) == Fail(EscapeInvalid, [], column[2 := column[2] + 1])
  {
  }

  /**
   The list of one empty string parses if and only if the slot its string uses holds no
   leftover escapes. Otherwise the empty body "unescapes" to length 0, the callback reports
   error code SUCCESS, and the document counts as incomplete.
   */
  lemma EmptyStringNeedsCleanSlot(column: seq<nat>, strtod: FloatReader)
    requires |column| >= 3
    ensures CreateNode(EMPTY_STRING_LIST, column, strtod)
         == if column[2] == 0 then Ok(Array([Text([])])) else Err(Incomplete)
  {
    hide ParseBytes, ParseByte, Step, Attach;
    var text, inp := EMPTY_STRING_LIST, Input(EMPTY_STRING_LIST, |column|, strtod);
    assert text == [LBRACKET] + ([QUOTE] + [QUOTE, RBRACKET]) && Buffer(text) == text;
    FirstTwoBytes(inp, column, [QUOTE, RBRACKET]);
    FirstSteps(column);
    var s2, s3 := InFirstString(column, 2, false), InList(column[2 := 0], 1, 3);
    var ev := Pop(StringFrame, NoSpecial, column[2], 1, 2);
    CloseSteps(column, ev);
    assert [QUOTE, RBRACKET] == [QUOTE] + [RBRACKET] && [RBRACKET] == [RBRACKET] + [];
    ParseCons(inp, Parsing(s2, [Array([])]), QUOTE, [RBRACKET]);
    CallbackByte(inp, s2, [Array([])], QUOTE, s3, ev);
    assert Slice(text, 2, 2) == [];
    if column[2] == 0 {
      var tree := [Array([Text([])])];
      AttachToEmptyList(s3);
      ParseCons(inp, Parsing(s3, tree), RBRACKET, []);
      CallbackByte(inp, s3, tree, RBRACKET,
          Lex([Frame(RootFrame, 1, 0, NoSpecial)], column[2 := 0], 4, COMMA, 0, false, false),
                   Pop(ListFrame, NoSpecial, column[1], 0, 0));
      ParseNothing(inp, ParseByte(inp, Parsing(s3, tree), RBRACKET));
    } else {
      ParseStopped(inp, CallbackStop(CallbackError(Success), column), [RBRACKET]);
    }
  }

  lemma AttachToEmptyList(s: Lex)
    requires |s.frames| == 2 && s.frames[1].kind == ListFrame
    ensures Attach([Array([])] + [Text([])]) == Nodes([Array([Text([])])])
  {
    AttachPlaced(s, [Array([])], Text([]));
    assert [] + [Text([])] == [Text([])];
  }

  lemma CloseSteps(column: seq<nat>, ev: Event)
    requires |column| >= 3 && ev == Pop(StringFrame, NoSpecial, column[2], 1, 2)
    ensures var s3 := InList(column[2 := 0], 1, 3);
      && Valid(s3)
      && Step(InFirstString(column, 2, false), QUOTE) == Next(s3, [ev])
      && Step(s3, RBRACKET) == Next(Lex([Frame(RootFrame, 1, 0, NoSpecial)], column[2 := 0], 4, COMMA, 0, false, false),
                                    [Pop(ListFrame, NoSpecial, column[1], 0, 0)])
  {
  }

  /** One after the other in a new context: the first is refused, and so then is the second. */
  lemma FailureSpoilsNext(levels: nat, strtod: FloatReader)
    requires levels >= 3
    ensures var bad: bytes := [LBRACKET, QUOTE, BACKSLASH, 0x71];
      && CreateNode(EMPTY_STRING_LIST, Unused(levels), strtod) == Ok(Array([Text([])]))
      && CreateNode(bad, Unused(levels), strtod) == Err(LexerError(EscapeInvalid))
      && |ColumnLeft(bad, Unused(levels), strtod)| == levels
      && CreateNode(EMPTY_STRING_LIST, ColumnLeft(bad, Unused(levels), strtod), strtod) == Err(Incomplete)
  {
    hide CreateNode, ColumnLeft;
    FailedParseLeavesEscape(Unused(levels), strtod);
    EmptyStringNeedsCleanSlot(Unused(levels), strtod);
    EmptyStringNeedsCleanSlot(Unused(levels)[2 := 1], strtod);
  }
}
