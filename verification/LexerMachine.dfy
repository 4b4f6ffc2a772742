/** `jsonsl_feed` as the source runs it. */
module LexerMachine {
  // Registers and the state array are updated in place, two fast scanners run over the buffer, and
  // callbacks may stop the run in the middle of a byte. It refines the byte-at-a-time function of
  // module Lexer.

  import opened Bytes
  import opened Errors
  import opened Escape
  import opened Lexer

  /** A slot of the state array. */
  datatype State = State(kind: Kind, special: Special, begin: nat, nelem: nat, nescapes: nat)

  datatype Status = Running | Error(error: JsonError) | Stopped

  /** The fields that mean something for the kind of frame. */
  function View(st: State): Frame {
    Frame(st.kind,
          if IsStringy(st.kind) then 0 else st.nelem,
          st.begin,
          if st.kind == SpecialFrame then st.special else NoSpecial)
  }

  /** The column of escape counts in a state array. */
  ghost function Slots(stack: array<State>): (c: seq<nat>)
    reads stack
    ensures |c| == stack.Length && forall i :: 0 <= i < |c| ==> c[i] == stack[i].nescapes
  {
    seq(stack.Length, i requires 0 <= i < stack.Length reads stack => stack[i].nescapes)
  }

  class Jsonsl {
    var level: nat
    var pos: nat
    var expecting: byte
    var tokLast: byte
    var canInsert: bool
    var inEscape: bool
    var status: Status
    const stack: array<State>
    const halts: Callback
    var trace: seq<Event>
    ghost var frames: seq<Frame>   // the stack up to the current level
    ghost var column: seq<nat>     // nescapes of every slot

    /** The ghost fields mirror the state array. */
    ghost predicate Mirrored()
      reads this, stack
    {
      && level < stack.Length && |frames| == level + 1 && |column| == stack.Length && stack[0].kind == RootFrame
        && stack[0].begin == 0
      && (forall i :: 0 <= i <= level ==> frames[i] == View(stack[i]))
      && (forall i :: 0 <= i < stack.Length ==> column[i] == stack[i].nescapes)
    }

    ghost function Abs(): (s: Lex)
      reads this
    {
      Lex(frames, column, pos, expecting, tokLast, canInsert, inEscape)
    }

    ghost predicate Ready()
      reads this, stack
    {
      Mirrored() && Valid(Abs()) && status == Running
    }

    /** The run so far; the byte at hand is done with, so the position moves on. */
    ghost function Outcome(): Run
      reads this
    {
      match status
      case Running => Live(Advance(Abs()), trace)
      case Error(e) => Failed(e, trace, column)
      case Stopped => Halted(trace, column)
    }

    /** `resetJSONObjectCtx`: new registers over the state array of the parses before. */
    constructor Reset(stack: array<State>, halts: Callback)
      requires stack.Length >= 2 && stack[0].kind == RootFrame && stack[0].begin == 0
      modifies stack
      ensures Ready() && this.stack == stack && this.halts == halts && trace == []
      ensures Abs() == Start(old(Slots(stack)))
    {
      level, pos, expecting, tokLast, canInsert, inEscape, status := 0, 0, 0, 0, true, false, Running;
      this.stack, this.halts, trace := stack, halts, [];
      frames, column := [Frame(RootFrame, 0, 0, NoSpecial)], Slots(stack);
      new;
      stack[0] := stack[0].(nelem := 0);
    }

    /** DO_CALLBACK. */
    method Call(ev: Event)
      requires status == Running
      modifies this`trace, this`status
      ensures trace == old(trace) + [ev]
      ensures status == if halts(trace) then Stopped else Running
    {
      trace := trace + [ev];
      if halts(trace) {
        status := Stopped;
      }
    }

    method SetTop(st: State)
      requires Mirrored() && st.kind == stack[level].kind && st.begin == stack[level].begin
      modifies stack, this`frames, this`column
      ensures Mirrored() && stack[level] == st
      ensures frames == old(frames)[level := View(st)] && column == old(column)[level := st.nescapes]
      ensures st.nescapes == old(stack[level].nescapes) ==> column == old(column)
    {
      stack[level] := st;
      frames, column := frames[level := View(st)], column[level := st.nescapes];
    }

    method CountElement()
      requires Ready() && !IsStringy(stack[level].kind)
      modifies stack, this`frames
      ensures Ready() && frames == old(WithTop(Abs(), Top(Abs()).(nelem := Top(Abs()).nelem + 1)).frames)
      ensures stack[level].kind == old(stack[level].kind)
    {
      stack[level] := stack[level].(nelem := stack[level].nelem + 1);
      frames := frames[level := View(stack[level])];
    }

    /** STACK_PUSH, the new frame's own fields, and its callback. */
    method Push(kind: Kind, special: Special, nelem: nat)
      requires Ready() && !inEscape && kind != RootFrame && (level == 0 || IsContainer(stack[level].kind))
      requires kind == SpecialFrame || special == NoSpecial
      requires IsStringy(kind) ==> nelem == 0
      modifies this`level, this`trace, this`status, this`frames, this`column, stack
      ensures Mirrored()
      ensures kind != SpecialFrame ==>
        Outcome() == old(Finish(halts, column, trace, PushFrame(Abs(), kind, special, nelem)))
      ensures kind == SpecialFrame ==>
        Outcome() == old(Finish(halts, column, trace, WithLength(PushFrame(Abs(), kind, special, nelem))))
    {
      hide Finish, ValidStack, PushFrame, WithLength;
      PushFails(Abs(), kind, special, nelem);
      FinishQuiet(halts, column, trace);
      if level >= stack.Length - 1 {
        status := Error(LevelsExceeded);
        return;
      }
      ghost var s := Abs();
      PushUnfold(s, kind, special, nelem);
      FinishOne(halts, column, trace, Lexer.Push(kind, special, pos), PushedLex(s, kind, special, nelem));
      PushSlot(kind, special, nelem);
      Call(Lexer.Push(kind, special, pos));
    }

    /** The registers behind a byte that pushes a frame. */
    static ghost function PushedLex(s: Lex, kind: Kind, special: Special, nelem: nat): Lex
      requires |s.frames| < |s.nescapes|
    {
      Advance(s.(frames := s.frames + [Frame(kind, nelem, s.pos, special)],
                 nescapes := if kind == SpecialFrame then s.nescapes[|s.frames| := 1] else s.nescapes))
    }

    static lemma PushUnfold(s: Lex, kind: Kind, special: Special, nelem: nat)
      requires Valid(s) && kind != RootFrame && !s.inEscape && (|s.frames| == 1 || IsContainer(Top(s).kind))
      requires |s.frames| < |s.nescapes|
      ensures var r, next := PushFrame(s, kind, special, nelem),
          Next(PushedLex(s, kind, special, nelem), [Lexer.Push(kind, special, s.pos)]);
        if kind == SpecialFrame then WithLength(r) == next else r == next
    {
    }

    static lemma PushFails(s: Lex, kind: Kind, special: Special, nelem: nat)
      requires Valid(s) && kind != RootFrame && !s.inEscape && (|s.frames| == 1 || IsContainer(Top(s).kind))
      ensures |s.frames| >= |s.nescapes| ==>
        PushFrame(s, kind, special, nelem) == WithLength(PushFrame(s, kind, special, nelem))
          == Fail(LevelsExceeded, [], s.nescapes)
    {
    }

    method PushSlot(kind: Kind, special: Special, nelem: nat)
      requires Mirrored() && level < stack.Length - 1 && kind != RootFrame
      requires kind == SpecialFrame || special == NoSpecial
      requires IsStringy(kind) ==> nelem == 0
      modifies this`level, this`frames, this`column, stack
      ensures Mirrored() && frames == old(frames) + [Frame(kind, nelem, pos, special)]
      ensures kind != SpecialFrame ==> column == old(column)
      ensures kind == SpecialFrame ==> column == old(column)[level := 1]
    {
      level := level + 1;
      var st := stack[level].(kind := kind, begin := pos);
      if kind == SpecialFrame {
        st := st.(special := special, nescapes := 1, nelem := nelem);
      } else if IsContainer(kind) {
        st := st.(nelem := nelem);
      }
      stack[level] := st;
      frames, column := frames + [Frame(kind, nelem, pos, special)], column[level := st.nescapes];
    }

    static lemma DeliverOne(halts: Callback, t: seq<Event>, ev: Event)
      ensures Deliver(halts, t, [ev]) == (t + [ev], halts(t + [ev]))
    {
      assert [ev][1..] == [];
    }

    static lemma FinishOne(halts: Callback, before: seq<nat>, t: seq<Event>, ev: Event, s: Lex)
      ensures Finish(halts, before, t, Next(s, [ev]))
           == if halts(t + [ev]) then Halted(t + [ev], if ev.Pop? then before else s.nescapes) else Live(s, t + [ev])
    {
      DeliverOne(halts, t, ev);
    }

    static lemma FinishQuiet(halts: Callback, before: seq<nat>, t: seq<Event>)
      ensures forall s :: Finish(halts, before, t, Next(s, [])) == Live(s, t)
      ensures forall e, column :: Finish(halts, before, t, Fail(e, [], column)) == Failed(e, t, column)
    {
    }

    /** The end of a string or key. */
    method PopString()
      requires Ready() && !inEscape && IsStringy(stack[level].kind)
      modifies this`level, this`trace, this`status, this`canInsert, this`frames, this`column, stack
      ensures Mirrored()
      ensures Outcome() == old(Finish(halts, column, trace, InString(Abs(), QUOTE)))
    {
      hide Finish, InString, ValidStack;
      ghost var s := Abs();
      StringEnds(s);
      FinishOne(halts, column, trace, PopEvent(s, NoSpecial), Advance(PopScalar(s).(canInsert := false)));
      canInsert := false;
      var st := stack[level];
      Call(Pop(st.kind, NoSpecial, st.nescapes, st.begin, pos));
      if status == Running {
        PopSlot();
      }
    }

    static lemma StringEnds(s: Lex)
      requires Valid(s) && IsStringy(Top(s).kind) && !s.inEscape
      ensures |s.frames| >= 2 && InString(s, QUOTE)
        == Next(Advance(PopScalar(s).(canInsert := false)), [PopEvent(s, NoSpecial)])
    {
    }

    /** The tail of CALLBACK_AND_POP. */
    method PopSlot()
      requires Mirrored() && level >= 1
      modifies this`level, this`frames, this`column, stack
      ensures Mirrored()
      ensures frames == old(frames)[..old(level)] && column == old(column)[old(level) := 0]
    {
      stack[level] := stack[level].(nescapes := 0);
      column := column[level := 0];
      level := level - 1;
      frames := frames[..level + 1];
    }

    /** What a quote in an object begins, once the element is counted. */
    static lemma StringInObject(s: Lex)
      requires Valid(s) && !s.inEscape && |s.frames| >= 2 && Top(s).kind == ObjectFrame
      ensures var s1 := WithTop(s, Top(s).(nelem := Top(s).nelem + 1)).(canInsert := false);
        && Valid(s1)
        && BeginString(s) ==
             if Top(s).nelem % 2 == 1 then
               if s.tokLast != COLON then Fail(MissingToken, [], s.nescapes)
               else PushFrame(s1.(expecting := COMMA, tokLast := 0), StringFrame, NoSpecial, 0)
             else
               if s.expecting != QUOTE then Fail(StrayToken, [], s.nescapes)
               else PushFrame(s1.(expecting := COLON, tokLast := 0), KeyFrame, NoSpecial, 0)
    {
    }

    static lemma NotRoot(s: Lex)
      requires Valid(s) && Top(s).kind == ObjectFrame
      ensures |s.frames| >= 2
    {
    }

    /** A quote in an object: a key, or the value of the last key. */
    method OpenInObject()
      requires Ready() && !inEscape && !canInsert && stack[level].kind == ObjectFrame
      modifies this, stack
      ensures Mirrored()
      ensures Outcome() == old(Finish(halts, column, trace, BeginString(Abs())))
    {
      hide PushFrame, Finish, ValidStack, BeginString;
      FinishQuiet(halts, column, trace);
      NotRoot(Abs());
      StringInObject(Abs());
      CountElement();
      if stack[level].nelem % 2 == 0 {
        if tokLast != COLON {
          status := Error(MissingToken);
          return;
        }
        PushStringy(StringFrame, COMMA);
      } else {
        if expecting != QUOTE {
          status := Error(StrayToken);
          return;
        }
        PushStringy(KeyFrame, COLON);
      }
    }

    method PushStringy(kind: Kind, next: byte)
      requires Ready() && !inEscape && (level == 0 || IsContainer(stack[level].kind)) && IsStringy(kind)
      modifies this, stack
      ensures Mirrored()
      ensures Outcome() == old(Finish(halts, column, trace,
          PushFrame(Abs().(expecting := next, tokLast := 0), kind, NoSpecial, 0)))
    {
      hide PushFrame, Finish;
      expecting, tokLast := next, 0;
      Push(kind, NoSpecial, 0);
    }

    /** GT_QUOTE in a container. */
    method OpenString()
      requires Ready() && !inEscape && (level == 0 || IsContainer(stack[level].kind))
      modifies this, stack
      ensures Mirrored()
      ensures Outcome() == old(Finish(halts, column, trace, BeginString(Abs())))
    {
      hide PushFrame, Finish;
      FinishQuiet(halts, column, trace);
      var st := stack[level];
      ghost var s := Abs();
      canInsert := false;
      assert BeginString(s) == BeginString(Abs());
      if st.kind == ObjectFrame {
        OpenInObject();
      } else if st.kind == ListFrame {
        CountElement();
        PushStringy(StringFrame, COMMA);
      } else {
        status := Error(StringOutsideContainer);
      }
    }

    /** What a bareword begins, once the element is counted. */
    static lemma SpecialBegins(s: Lex, c: byte)
      requires Valid(s) && !s.inEscape && (|s.frames| == 1 || IsContainer(Top(s).kind))
      ensures var f, sp, digit := Top(s), SpecialStart(c), SpecialStart(c) == UNSIGNED;
        var s1 := WithTop(s, f.(nelem := f.nelem + 1));
        && Valid(s1) && !IsStringy(f.kind)
        && BeginSpecial(s, c) ==
             if sp == NoSpecial then
               Fail(if c == NUL then FoundNullByte else if c < 0x20 then WeirdWhitespace else SpecialExpected,
                    [], s.nescapes)
             else if f.kind == ObjectFrame && f.nelem % 2 == 0 then Fail(HKeyExpected, [], s.nescapes)
             else if !s.canInsert then Fail(CantInsert, [], s.nescapes)
             else WithLength(PushFrame(s1.(tokLast := if digit then 0x31 else MINUS), SpecialFrame, sp,
                                       if digit then c as nat - 0x30 else 0))
    {
    }

    /** GT_SPECIAL_BEGIN. */
    method OpenSpecial(c: byte)
      requires Ready() && !inEscape && (level == 0 || IsContainer(stack[level].kind))
      modifies this, stack
      ensures Mirrored()
      ensures Outcome() == old(Finish(halts, column, trace, BeginSpecial(Abs(), c)))
    {
      hide PushFrame, Finish, WithLength, ValidStack, BeginSpecial, SpecialStart;
      FinishQuiet(halts, column, trace);
      SpecialBegins(Abs(), c);
      var sp, st := SpecialStart(c), stack[level];
      if sp == NoSpecial {
        status := Error(if c == NUL then FoundNullByte else if c < 0x20 then WeirdWhitespace else SpecialExpected);
        return;
      }
      if st.kind == ObjectFrame && st.nelem % 2 == 0 {
        status := Error(HKeyExpected);
        return;
      }
      CountElement();
      if !canInsert {
        status := Error(CantInsert);
        return;
      }
      PushSpecial(sp, c);
    }

    method PushSpecial(sp: Special, c: byte)
      requires Ready() && !inEscape && (level == 0 || IsContainer(stack[level].kind))
      requires sp == SpecialStart(c) != NoSpecial
      modifies this, stack
      ensures Mirrored()
      ensures var digit := sp == UNSIGNED;
        Outcome() == old(Finish(halts, column, trace, WithLength(
          PushFrame(Abs().(tokLast := if digit then 0x31 else MINUS), SpecialFrame, sp,
                    if digit then c as nat - 0x30 else 0))))
    {
      hide PushFrame, Finish, WithLength;
      if sp == UNSIGNED {
        tokLast := 0x31;
        Push(SpecialFrame, sp, c as nat - 0x30);
      } else {
        tokLast := MINUS;
        Push(SpecialFrame, sp, 0);
      }
    }

    /** GT_STRUCTURAL_TOKEN. */
    method Token(c: byte)
      requires Ready() && !inEscape && (level == 0 || IsContainer(stack[level].kind))
      modifies this, stack
      ensures Mirrored()
      ensures Outcome() == old(Finish(halts, column, trace, Structural(Abs(), c)))
    {
      hide PushFrame, BeginSpecial, Lexer.OpenContainer, Lexer.CloseContainer, Finish;
      FinishQuiet(halts, column, trace);
      var st := stack[level];
      if c == COLON {
        if expecting != c {
          status := Error(StrayToken);
          return;
        }
        tokLast, canInsert, expecting := COLON, true, QUOTE;
      } else if c == COMMA {
        if expecting != c {
          status := Error(StrayToken);
          return;
        }
        if st.kind != ObjectFrame {
          canInsert := true;
        }
        tokLast, expecting := COMMA, QUOTE;
      } else if c == LBRACE || c == LBRACKET {
        OpenContainer(c);
      } else if c == RBRACE || c == RBRACKET {
        CloseContainer(c);
      } else {
        OpenSpecial(c);
      }
    }

    /** What an opening bracket begins, once the element is counted. */
    static lemma ContainerBegins(s: Lex, c: byte)
      requires Valid(s) && !s.inEscape && (|s.frames| == 1 || IsContainer(Top(s).kind))
      ensures var f := Top(s);
        var s1 := WithTop(s, f.(nelem := f.nelem + 1)).(canInsert := true, tokLast := 0);
        && Valid(s1) && !IsStringy(f.kind)
        && Lexer.OpenContainer(s, c) ==
             if !s.canInsert then Fail(CantInsert, [], s.nescapes)
             else if f.kind == ObjectFrame && f.nelem % 2 == 0 then Fail(HKeyExpected, [], s.nescapes)
             else if c == LBRACE then PushFrame(s1.(expecting := QUOTE), ObjectFrame, NoSpecial, 0)
             else PushFrame(s1, ListFrame, NoSpecial, 0)
    {
    }

    method OpenContainer(c: byte)
      requires Ready() && !inEscape && (level == 0 || IsContainer(stack[level].kind))
      requires c == LBRACE || c == LBRACKET
      modifies this, stack
      ensures Mirrored()
      ensures Outcome() == old(Finish(halts, column, trace, Lexer.OpenContainer(Abs(), c)))
    {
      hide PushFrame, Finish, ValidStack, Lexer.OpenContainer;
      FinishQuiet(halts, column, trace);
      ContainerBegins(Abs(), c);
      var st := stack[level];
      if !canInsert {
        status := Error(CantInsert);
        return;
      }
      if st.kind == ObjectFrame && st.nelem % 2 == 0 {
        status := Error(HKeyExpected);
        return;
      }
      CountElement();
      PushContainer(c);
    }

    method PushContainer(c: byte)
      requires Ready() && !inEscape && (level == 0 || IsContainer(stack[level].kind)) && (c == LBRACE || c == LBRACKET)
      modifies this, stack
      ensures Mirrored()
      ensures var s1 := old(Abs().(canInsert := true, tokLast := 0));
        Outcome() == old(Finish(halts, column, trace,
          if c == LBRACE then PushFrame(s1.(expecting := QUOTE), ObjectFrame, NoSpecial, 0)
          else PushFrame(s1, ListFrame, NoSpecial, 0)))
    {
      hide PushFrame, Finish;
      canInsert, tokLast := true, 0;
      if c == LBRACE {
        expecting := QUOTE;
        Push(ObjectFrame, NoSpecial, 0);
      } else {
        Push(ListFrame, NoSpecial, 0);
      }
    }

    method CloseContainer(c: byte)
      requires Ready() && !inEscape && (level == 0 || IsContainer(stack[level].kind))
      requires c == RBRACE || c == RBRACKET
      modifies this, stack
      ensures Mirrored()
      ensures Outcome() == old(Finish(halts, column, trace, Lexer.CloseContainer(Abs(), c)))
    {
      hide Finish;
      FinishQuiet(halts, column, trace);
      var st := stack[level];
      if tokLast == COMMA {
        status := Error(TrailingComma);
        return;
      }
      if st.kind != (if c == RBRACE then ObjectFrame else ListFrame) {
        status := Error(BracketMismatch);
        return;
      }
      if st.kind == ObjectFrame && st.nelem % 2 != 0 {
        status := Error(ValueExpected);
        return;
      }
      PopContainer();
      FinishOne(halts, old(column), old(trace), old(PopContainerEvent(Abs())), Advance(Abs()));
    }

    method PopContainer()
      requires Ready() && !inEscape && IsContainer(stack[level].kind)
      modifies this`level, this`frames, this`canInsert, this`expecting, this`tokLast, this`trace, this`status
      ensures Mirrored() && trace == old(trace) + [old(PopContainerEvent(Abs()))]
      ensures status == if halts(trace) then Stopped else Running
      ensures frames == old(frames)[..old(level)] && column == old(column)
      ensures !canInsert && expecting == COMMA && tokLast == 0
    {
      var st := stack[level];
      canInsert, expecting, tokLast := false, COMMA, 0;
      level := level - 1;
      frames := frames[..level + 1];
      Call(Pop(st.kind, NoSpecial, st.nescapes, st.begin, st.begin));
    }

    /** Whether a bareword may end here, and the flags it ends with. */
    method CheckSpecial() returns (ok: bool, sp: Special)
      requires Ready() && stack[level].kind == SpecialFrame
      modifies this`status
      ensures ok ==> Finished(Abs()) == Ok(sp) && status == Running
      ensures !ok ==> status.Error? && Finished(Abs()) == Err(status.error)
    {
      var st := stack[level];
      ok, sp := true, st.special;
      if IsNormalNumber(sp) {
      } else if sp == Zero || sp == MINUS_ZERO {
        sp := UNSIGNED;
      } else if sp == Dash || (sp.Numeric? && tokLast != 0x31) {
        ok, status := false, Error(InvalidNumber);
      } else if !sp.Numeric? && st.nescapes != |Word(sp)| {
        ok, status := false, Error(SpecialIncomplete);
      }
    }

    /** GT_SPECIAL_POP. */
    method CloseSpecial(c: byte)
      requires Ready() && stack[level].kind == SpecialFrame
      modifies this, stack
      ensures Mirrored()
      ensures Outcome() == old(Finish(halts, column, trace, EndSpecial(Abs(), c)))
    {
      hide Structural, Finish, Finished;
      FinishQuiet(halts, column, trace);
      ghost var s, t, before := Abs(), trace, column;
      var ok, sp := CheckSpecial();
      if !ok {
        return;
      }
      ghost var ev := PopEvent(s, sp);
      FinishOne(halts, before, t, ev, Advance(SpecialPopped(s)));
      DeliverFirst(halts, before, t, ev);
      PopSpecial(sp);
      if status == Running && !IsWhitespace(c) {
        PopsKeepColumn(SpecialPopped(s), c);
        DeliverAfter(halts, before, SpecialPopped(s).nescapes, t, ev, Structural(SpecialPopped(s), c));
        Token(c);
      }
    }

    /** SPECIAL_POP. */
    method PopSpecial(sp: Special)
      requires Ready() && stack[level].kind == SpecialFrame
      modifies this, stack
      ensures Mirrored() && trace == old(trace) + [old(PopEvent(Abs(), sp))]
      ensures status == if halts(trace) then Stopped else Running
      ensures status == Running ==> Abs() == old(SpecialPopped(Abs()))
      ensures status == Stopped ==> column == old(column)
    {
      var st := stack[level];
      canInsert := false;
      Call(Pop(SpecialFrame, sp, st.nescapes, st.begin, pos));
      if status == Running {
        PopSlot();
        expecting, tokLast := COMMA, 0;
      }
    }

    static lemma DeliverFirst(halts: Callback, before: seq<nat>, t: seq<Event>, ev: Event)
      requires ev.Pop?
      ensures halts(t + [ev]) ==> forall r :: Finish(halts, before, t, After(ev, r)) == Halted(t + [ev], before)
    {
    }

    static lemma DeliverAfter(halts: Callback, before: seq<nat>, between: seq<nat>, t: seq<Event>, ev: Event,
                              r: StepResult)
      requires !halts(t + [ev]) && (r.events != [] && r.events[0].Pop? ==> Column(r) == between)
      ensures Finish(halts, before, t, After(ev, r)) == Finish(halts, between, t + [ev], r)
    {
      assert ([ev] + r.events)[1..] == r.events;
    }

    /** GT_SPECIAL_NUMERIC. */
    method NumberByte(c: byte)
      requires Ready() && stack[level].kind == SpecialFrame && stack[level].special.Numeric?
      modifies this, stack
      ensures Mirrored()
      ensures Outcome() == old(Finish(halts, column, trace, InNumber(Abs(), c)))
    {
      hide EndSpecial, Finish, ValidStack;
      FinishQuiet(halts, column, trace);
      var st := stack[level];
      if IsDigit(c) {
        tokLast := 0x31;
      } else if c == DOT {
        if st.special.float {
          status := Error(InvalidNumber);
          return;
        }
        SetTop(st.(special := st.special.(float := true)));
        tokLast := DOT;
      } else if c == 0x65 || c == 0x45 {
        if st.special.exponent {
          status := Error(InvalidNumber);
          return;
        }
        SetTop(st.(special := st.special.(exponent := true)));
        tokLast := 0x65;
      } else if c == MINUS || c == PLUS {
        if tokLast != 0x65 {
          status := Error(InvalidNumber);
          return;
        }
        tokLast := MINUS;
      } else if IsSpecialEnd(c) {
        CloseSpecial(c);
      } else {
        status := Error(InvalidNumber);
      }
    }

    /** A byte of a bareword that the number scanner did not take. */
    method SpecialByte(c: byte)
      requires Ready() && stack[level].kind == SpecialFrame
      requires IsNormalNumber(stack[level].special) ==> !IsDigit(c)
      modifies this, stack
      ensures Mirrored()
      ensures Outcome() == old(Finish(halts, column, trace, InSpecial(Abs(), c)))
    {
      hide InNumber, EndSpecial, Finish;
      FinishQuiet(halts, column, trace);
      var st := stack[level];
      if IsNormalNumber(st.special) {
        NumberByte(c);
      } else if st.special == Dash {
        if !IsDigit(c) {
          status := Error(InvalidNumber);
        } else if c == 0x30 {
          SetTop(st.(special := MINUS_ZERO));
        } else {
          SetTop(st.(special := SIGNED, nelem := c as nat - 0x30));
        }
      } else if st.special == Zero {
        if IsDigit(c) {
          status := Error(InvalidNumber);
          return;
        }
        SetTop(st.(special := UNSIGNED));
        NumberByte(c);
      } else if st.special.Numeric? {
        NumberByte(c);
      } else {
        WordByte(c);
      }
    }

    method WordByte(c: byte)
      requires Ready() && stack[level].kind == SpecialFrame
      requires var sp := stack[level].special; !sp.Numeric? && !sp.Dash? && !sp.Zero?
      modifies this, stack
      ensures Mirrored()
      ensures Outcome() == old(Finish(halts, column, trace, InSpecial(Abs(), c)))
    {
      hide EndSpecial, InNumber, Finish;
      FinishQuiet(halts, column, trace);
      var st := stack[level];
      if IsSpecialEnd(c) {
        CloseSpecial(c);
      } else {
        SetTop(st.(nescapes := st.nescapes + 1));
        if !WordMatches(Word(st.special), pos - st.begin, c) {
          status := Error(SpecialExpected);
        }
      }
    }

    /** A byte in a string that the string scanner did not take, or that an escape governs. */
    method StringByte(c: byte)
      requires Ready() && IsStringy(stack[level].kind) && (inEscape || !IsSimpleChar(c))
      modifies this, stack
      ensures Mirrored()
      ensures Outcome() == old(Finish(halts, column, trace, InString(Abs(), c)))
    {
      hide Finish;
      FinishQuiet(halts, column, trace);
      if inEscape {
        inEscape := false;
        if !IsAllowedEscape(c) {
          status := Error(EscapeInvalid);
        }
      } else if c == QUOTE {
        PopString();
      } else if c == BACKSLASH {
        var st := stack[level];
        SetTop(st.(nescapes := st.nescapes + 1));
        inEscape := true;
      } else {
        status := Error(WeirdWhitespace);
      }
    }

    /** One byte, where no scanner applies. */
    method Byte(c: byte)
      requires Ready()
      requires IsStringy(stack[level].kind) ==> inEscape || !IsSimpleChar(c)
      requires stack[level].kind == SpecialFrame && IsNormalNumber(stack[level].special) ==> !IsDigit(c)
      modifies this, stack
      ensures Mirrored()
      ensures Outcome() == old(Finish(halts, column, trace, Step(Abs(), c)))
    {
      hide InString, InSpecial, BeginSpecial, BeginString, Structural, Finish;
      FinishQuiet(halts, column, trace);
      var k := stack[level].kind;
      if IsStringy(k) {
        StringByte(c);
      } else if k == SpecialFrame {
        SpecialByte(c);
      } else if IsWhitespace(c) {
      } else if SpecialStart(c) != NoSpecial {
        OpenSpecial(c);
      } else if c == QUOTE {
        OpenString();
      } else if c == BACKSLASH {
        status := Error(EscapeOutsideString);
      } else {
        Token(c);
      }
    }

    /** `jsonsl__str_fastparse`: runs over plain bytes of a string, moving only the position. */
    method StrFastParse(buf: bytes, i: nat) returns (j: nat)
      requires Ready() && IsStringy(stack[level].kind) && !inEscape && i <= |buf|
      modifies this`pos
      ensures Ready() && i <= j <= |buf| && (j < |buf| ==> !IsSimpleChar(buf[j]))
      ensures pos == old(pos) + (j - i)
      ensures RunBytes(halts, Live(Abs(), trace), buf[j..]) == old(RunBytes(halts, Live(Abs(), trace), buf[i..]))
    {
      hide RunBytes, Step;
      j := i;
      while j != |buf| && IsSimpleChar(buf[j])
        invariant i <= j <= |buf| && pos == old(pos)
        invariant RunBytes(halts, Live(Abs().(pos := pos + (j - i)), trace), buf[j..])
               == RunBytes(halts, Live(Abs(), trace), buf[i..])
      {
        SkipByte(halts, Abs().(pos := pos + (j - i)), trace, buf, j);
        j := j + 1;
      }
      pos := pos + (j - i);
      assert Abs() == old(Abs()).(pos := pos);
    }

    static lemma SkipByte(halts: Callback, s: Lex, t: seq<Event>, buf: bytes, j: nat)
      requires Valid(s) && IsStringy(Top(s).kind) && !s.inEscape && j < |buf| && IsSimpleChar(buf[j])
      ensures RunBytes(halts, Live(s, t), buf[j..]) == RunBytes(halts, Live(Advance(s), t), buf[j + 1..])
    {
      assert buf[j..][0] == buf[j] && buf[j..][1..] == buf[j + 1..];
    }

    /** `jsonsl__num_fastparse`: runs over the digits of a plain number, adding them up in the frame. */
    method NumFastParse(buf: bytes, i: nat) returns (j: nat)
      requires Ready() && stack[level].kind == SpecialFrame && IsNormalNumber(stack[level].special) && i <= |buf|
      modifies this`pos, this`frames, this`column, stack
      ensures Ready() && i <= j <= |buf| && (j < |buf| ==> !IsDigit(buf[j]))
      ensures stack[level].kind == SpecialFrame && IsNormalNumber(stack[level].special)
      ensures RunBytes(halts, Live(Abs(), trace), buf[j..]) == old(RunBytes(halts, Live(Abs(), trace), buf[i..]))
    {
      hide RunBytes, Step;
      j := i;
      while j < |buf|
        invariant i <= j <= |buf| && pos == old(pos) && Ready()
        invariant stack[level].kind == SpecialFrame && IsNormalNumber(stack[level].special)
        invariant RunBytes(halts, Live(Abs().(pos := pos + (j - i)), trace), buf[j..])
               == old(RunBytes(halts, Live(Abs(), trace), buf[i..]))
      {
        var c := buf[j];
        if !IsDigit(c) {
          break;
        }
        AddDigit(halts, Abs().(pos := pos + (j - i)), trace, buf, j);
        SetTop(stack[level].(nelem := AppendDigit(stack[level].nelem, c)));
        j := j + 1;
      }
      ghost var s := Abs();
      pos := pos + (j - i);
      assert Abs() == s.(pos := pos);
    }

    static lemma AddDigit(halts: Callback, s: Lex, t: seq<Event>, buf: bytes, j: nat)
      requires Valid(s) && Top(s).kind == SpecialFrame && IsNormalNumber(Top(s).special)
      requires j < |buf| && IsDigit(buf[j])
      ensures RunBytes(halts, Live(s, t), buf[j..])
           == RunBytes(halts, Live(Advance(WithTop(s, Top(s).(nelem := AppendDigit(Top(s).nelem, buf[j])))), t),
               buf[j + 1..])
    {
      assert buf[j..][0] == buf[j] && buf[j..][1..] == buf[j + 1..];
    }

    /** The run after feeding, read off the object. */
    ghost function Result(): Run
      reads this
    {
      match status
      case Running => Live(Abs(), trace)
      case Error(e) => Failed(e, trace, column)
      case Stopped => Halted(trace, column)
    }

    /** `jsonsl_feed`. */
    method Feed(buf: bytes)
      requires Ready()
      modifies this, stack
      ensures Mirrored()
      ensures Result() == old(RunBytes(halts, Live(Abs(), trace), buf))
      ensures status == Running ==> Ready()
    {
      hide Step, Finish, RunBytes, ValidStack;
      var i := 0;
      assert buf[i..] == buf;
      while i < |buf|
        invariant 0 <= i <= |buf| && Ready()
        invariant RunBytes(halts, Live(Abs(), trace), buf[i..]) == old(RunBytes(halts, Live(Abs(), trace), buf))
      {
        var st := stack[level];
        if IsStringy(st.kind) && !inEscape {
          i := StrFastParse(buf, i);
        } else if st.kind == SpecialFrame && IsNormalNumber(st.special) {
          i := NumFastParse(buf, i);
        }
        if i == |buf| {
          RunNothing(halts, Live(Abs(), trace), buf[i..]);
          return;
        }
        ghost var r := Live(Abs(), trace);
        Byte(buf[i]);
        OneByte(halts, r, buf, i);
        if status != Running {
          RunStopped(halts, Outcome(), buf[i + 1..]);
          return;
        }
        ghost var s := Abs();
        pos := pos + 1;
        assert Abs() == Advance(s);
        i := i + 1;
      }
      RunNothing(halts, Live(Abs(), trace), buf[i..]);
    }

    /** Consecutive calls of `jsonsl_feed`, until one of them ends the run. */
    method FeedAll(chunks: seq<bytes>)
      requires Ready()
      modifies this, stack
      ensures Mirrored()
      ensures Result() == old(RunBytes(halts, Live(Abs(), trace), Flatten(chunks)))
      ensures status == Running ==> Ready()
    {
      hide RunBytes;
      ghost var start := Live(Abs(), trace);
      var i := 0;
      assert chunks[0..] == chunks;
      while i < |chunks|
        invariant 0 <= i <= |chunks| && Ready()
        invariant RunBytes(halts, Live(Abs(), trace), Flatten(chunks[i..])) == RunBytes(halts, start, Flatten(chunks))
        decreases |chunks| - i
      {
        assert chunks[i..][1..] == chunks[i + 1..];
        RunConcat(halts, Live(Abs(), trace), chunks[i], Flatten(chunks[i + 1..]));
        Feed(chunks[i]);
        i := i + 1;
        if status != Running {
          RunStopped(halts, Result(), Flatten(chunks[i..]));
          return;
        }
      }
      RunNothing(halts, Live(Abs(), trace), Flatten(chunks[i..]));
    }

    static lemma RunNothing(halts: Callback, r: Run, buf: bytes)
      requires buf == [] && (r.Live? ==> Valid(r.lex))
      ensures RunBytes(halts, r, buf) == r
    {
    }

    static lemma OneByte(halts: Callback, r: Run, buf: bytes, i: nat)
      requires i < |buf| && r.Live? && Valid(r.lex)
      ensures RunBytes(halts, r, buf[i..])
        == RunBytes(halts, Finish(halts, r.lex.nescapes, r.trace, Step(r.lex, buf[i])), buf[i + 1..])
    {
      assert buf[i..][0] == buf[i] && buf[i..][1..] == buf[i + 1..];
    }
  }

  /**
   Two lexers in the same state, fed the same text cut in two ways, end alike: callbacks, registers,
   counts and error.
   */
  method ChunkIndependence(one: Jsonsl, other: Jsonsl, cut: seq<bytes>, otherCut: seq<bytes>)
    requires one != other && one.stack != other.stack && one.Ready() && other.Ready()
    requires one.Abs() == other.Abs() && one.trace == other.trace && one.halts == other.halts
    requires Flatten(cut) == Flatten(otherCut)
    modifies one, one.stack, other, other.stack
    ensures one.Mirrored() && other.Mirrored() && one.Result() == other.Result()
    ensures one.Result() == old(RunBytes(one.halts, Live(one.Abs(), one.trace), Flatten(cut)))
  {
    hide RunBytes;
    one.FeedAll(cut);
    other.FeedAll(otherCut);
  }
}
