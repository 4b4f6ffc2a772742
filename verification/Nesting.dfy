/** The callbacks of every text are well nested. */
module Nesting {
  // A POP closes what the last open PUSH opened: a frame of the same kind, which began at the same
  // byte. That holds up to wherever a run ends, and what is open is what the lexer has on its stack.

  import opened Bytes
  import opened Errors
  import opened Lexer
  import opened TwoStacks

  datatype Opening = Opening(kind: Kind, begin: nat)

  /** What is open after a callback; None if it closes something else than what is open last. */
  function AfterCall(open: seq<Opening>, ev: Event): Option<seq<Opening>> {
    match ev
    case Push(kind, _, begin) => Some(open + [Opening(kind, begin)])
    case Pop(kind, _, _, begin, _) =>
      if open != [] && open[|open| - 1] == Opening(kind, begin) then Some(open[..|open| - 1]) else None
  }

  function AfterCalls(open: seq<Opening>, events: seq<Event>): Option<seq<Opening>>
    decreases |events|
  {
    if events == [] then Some(open)
    else
      match AfterCall(open, events[0])
      case None => None
      case Some(o) => AfterCalls(o, events[1..])
  }

  predicate WellNested(trace: seq<Event>) { AfterCalls([], trace).Some? }

  /** The frames above the root. */
  function Opened(frames: seq<Frame>): (r: seq<Opening>)
    requires frames != []
    ensures |r| == |frames| - 1 && forall i :: 0 <= i < |r| ==> r[i] == Opening(frames[i + 1].kind, frames[i + 1].begin)
  {
    seq(|frames| - 1, i requires 0 <= i < |frames| - 1 => Opening(frames[i + 1].kind, frames[i + 1].begin))
  }

  lemma {:induction false} CallsConcat(open: seq<Opening>, a: seq<Event>, b: seq<Event>)
    ensures AfterCalls(open, a + b) ==
      if AfterCalls(open, a).None? then None else AfterCalls(AfterCalls(open, a).value, b)
    decreases |a|
  {
    hide AfterCall;
    if a == [] {
      assert a + b == b;
    } else {
      assert (a + b)[0] == a[0] && (a + b)[1..] == a[1..] + b;
      if AfterCall(open, a[0]).Some? { CallsConcat(AfterCall(open, a[0]).value, a[1..], b); }
    }
  }

  lemma OneCall(open: seq<Opening>, ev: Event)
    ensures AfterCalls(open, [ev]) == AfterCall(open, ev)
  {
    assert [ev][1..] == [];
  }

  // ---- a step -----------------------------------------------------------------------------

  /** The callbacks of a step close what they find open, and leave open what is on the stack after it. */
  ghost predicate Closes(s: Lex, r: StepResult)
    requires s.frames != []
  {
    var after := AfterCalls(Opened(s.frames), r.events);
    after.Some? && (r.Next? ==> r.lex.frames != [] && after == Some(Opened(r.lex.frames)))
  }

  lemma QuietCloses(s: Lex, r: StepResult)
    requires s.frames != [] && r.events == []
    requires r.Next? ==> r.lex.frames != [] && Opened(r.lex.frames) == Opened(s.frames)
    ensures Closes(s, r)
  {
  }

  lemma StartCloses(s: Lex, r: StepResult)
    requires s.frames != [] && Starts(s, r)
    ensures Closes(s, r)
  {
    if r.Next? {
      var f := r.lex.frames[|r.lex.frames| - 1];
      OneCall(Opened(s.frames), r.events[0]);
      assert Opened(r.lex.frames) == Opened(s.frames) + [Opening(f.kind, f.begin)];
    } else {
      QuietCloses(s, r);
    }
  }

  lemma PopCloses(s: Lex, r: StepResult)
    requires |s.frames| >= 2 && r.Next? && r.lex.frames == s.frames[..|s.frames| - 1]
    requires |r.events| == 1 && r.events[0].Pop?
    requires var f := s.frames[|s.frames| - 1];
      r.events[0].kind == f.kind && r.events[0].begin == f.begin
    ensures Closes(s, r)
  {
    OneCall(Opened(s.frames), r.events[0]);
    assert r.events == [r.events[0]];
    assert Opened(r.lex.frames) == Opened(s.frames)[..|s.frames| - 2];
  }

  lemma StepCloses(s: Lex, c: byte)
    requires Valid(s)
    ensures Closes(s, Step(s, c))
  {
    hide InString, InSpecial, BeginString, BeginSpecial, Structural, Closes;
    if IsStringy(Top(s).kind) {
      StringCloses(s, c);
    } else if Top(s).kind == SpecialFrame {
      SpecialCloses(s, c);
    } else {
      QuietCloses(s, Next(Advance(s), []));
      QuietCloses(s, Fail(EscapeOutsideString, [], s.nescapes));
      TokenCloses(s, c);
      BeginsClose(s, c);
    }
  }

  lemma StringCloses(s: Lex, c: byte)
    requires Valid(s) && IsStringy(Top(s).kind)
    ensures Closes(s, InString(s, c))
  {
    hide Closes;
    if !s.inEscape && c == QUOTE {
      PopCloses(s, InString(s, c));
    } else {
      QuietCloses(s, InString(s, c));
    }
  }

  lemma BeginsClose(s: Lex, c: byte)
    requires Valid(s) && !s.inEscape && (|s.frames| == 1 || IsContainer(Top(s).kind))
    ensures Closes(s, BeginString(s)) && Closes(s, BeginSpecial(s, c)) && Closes(s, OpenContainer(s, c))
  {
    hide Closes, Starts, BeginString, BeginSpecial, OpenContainer;
    BeginStringShape(s);
    BeginSpecialShape(s, c);
    OpenContainerShape(s, c);
    StartCloses(s, BeginString(s));
    StartCloses(s, BeginSpecial(s, c));
    StartCloses(s, OpenContainer(s, c));
  }

  lemma TokenCloses(s: Lex, c: byte)
    requires Valid(s) && !s.inEscape && (|s.frames| == 1 || IsContainer(Top(s).kind))
    ensures Closes(s, Structural(s, c))
  {
    hide Closes, OpenContainer, BeginSpecial;
    BeginsClose(s, c);
    if c == COLON || c == COMMA {
      QuietCloses(s, Structural(s, c));
    } else if c == RBRACE || c == RBRACKET {
      if CloseContainer(s, c).Next? {
        PopCloses(s, CloseContainer(s, c));
      } else {
        QuietCloses(s, CloseContainer(s, c));
      }
    }
  }

  /** In a bareword: nothing, or its end. */
  lemma SpecialCloses(s: Lex, c: byte)
    requires Valid(s) && Top(s).kind == SpecialFrame
    ensures Closes(s, InSpecial(s, c))
  {
    hide Closes, EndSpecial, WordMatches;
    EndCloses(s, c);
    var r := InSpecial(s, c);
    if Top(s).special == Zero {
      var s' := WithTop(s, Top(s).(special := UNSIGNED));
      EndCloses(s', c);
      SameOpened(s, s', EndSpecial(s', c));
    }
    if r.events == [] {
      SpecialQuiet(s, c);
      QuietCloses(s, r);
    }
  }

  /** A byte within a bareword changes nothing of its frame but flags and digits. */
  lemma SpecialQuiet(s: Lex, c: byte)
    requires Valid(s) && Top(s).kind == SpecialFrame
    ensures var r := InSpecial(s, c);
      r.Next? && r.events == [] ==> r.lex.frames != [] && Opened(r.lex.frames) == Opened(s.frames)
  {
    hide EndSpecial, WordMatches, Opened, InNumber;
    EndCalls(s, c);
    if Top(s).special.Numeric? { NumberQuiet(s, c); }
    if Top(s).special == Zero {
      NumberQuiet(WithTop(s, Top(s).(special := UNSIGNED)), c);
      OpenedTop(s, Top(s).(special := UNSIGNED));
    }
    forall f: Frame | f.kind == Top(s).kind && f.begin == Top(s).begin
      ensures Opened(WithTop(s, f).frames) == Opened(s.frames)
    {
      OpenedTop(s, f);
    }
  }

  lemma NumberQuiet(s: Lex, c: byte)
    requires Valid(s) && Top(s).kind == SpecialFrame && Top(s).special.Numeric?
    ensures var r := InNumber(s, c);
      r.Next? && r.events == [] ==> r.lex.frames != [] && Opened(r.lex.frames) == Opened(s.frames)
  {
    hide EndSpecial, Opened;
    EndCalls(s, c);
    OpenedTop(s, Top(s).(special := Top(s).special.(float := true)));
    OpenedTop(s, Top(s).(special := Top(s).special.(exponent := true)));
  }

  lemma OpenedTop(s: Lex, f: Frame)
    requires s.frames != [] && f.kind == Top(s).kind && f.begin == Top(s).begin
    ensures Opened(WithTop(s, f).frames) == Opened(s.frames)
  {
  }

  lemma EndCalls(s: Lex, c: byte)
    requires Valid(s) && Top(s).kind == SpecialFrame
    ensures EndSpecial(s, c).Next? ==> EndSpecial(s, c).events != []
  {
    hide Structural, Finished;
  }

  lemma SameOpened(s: Lex, s': Lex, r: StepResult)
    requires s.frames != [] && s'.frames != [] && Opened(s.frames) == Opened(s'.frames) && Closes(s', r)
    ensures Closes(s, r)
  {
  }

  lemma EndCloses(s: Lex, c: byte)
    requires Valid(s) && Top(s).kind == SpecialFrame
    ensures Closes(s, EndSpecial(s, c))
  {
    hide Finished, Structural;
    match Finished(s)
    case Err(e) => QuietCloses(s, EndSpecial(s, c));
    case Ok(sp) =>
      var s1, ev := SpecialPopped(s), PopEvent(s, sp);
      PopCloses(s, Next(Advance(s1), [ev]));
      if !IsWhitespace(c) {
        var next := Structural(s1, c);
        TokenCloses(s1, c);
        OneCall(Opened(s.frames), ev);
        CallsConcat(Opened(s.frames), [ev], next.events);
      }
  }

  // ---- a run ------------------------------------------------------------------------------

  lemma {:induction false} DeliverNested(halts: Callback, trace: seq<Event>, events: seq<Event>, open: seq<Opening>)
    requires AfterCalls([], trace) == Some(open) && AfterCalls(open, events).Some?
    ensures var (t, halted) := Deliver(halts, trace, events);
      WellNested(t) && (!halted ==> AfterCalls([], t) == AfterCalls(open, events))
    decreases |events|
  {
    hide AfterCall;
    if events != [] {
      var t := trace + [events[0]];
      CallsConcat([], trace, [events[0]]);
      OneCall(open, events[0]);
      if !halts(t) { DeliverNested(halts, t, events[1..], AfterCall(open, events[0]).value); }
    }
  }

  /** What a run has called back so far is well nested, and while it lives its frames are what is open. */
  ghost predicate Nested(r: Run) {
    && WellNested(r.trace)
    && (r.Live? ==> Valid(r.lex) && AfterCalls([], r.trace) == Some(Opened(r.lex.frames)))
  }

  lemma StepNested(halts: Callback, r: Run, c: byte)
    requires Nested(r)
    ensures Nested(StepRun(halts, r, c))
  {
    hide Step, Deliver;
    if r.Live? {
      StepCloses(r.lex, c);
      DeliverNested(halts, r.trace, Step(r.lex, c).events, Opened(r.lex.frames));
    }
  }

  /** Through every buffer, whatever the callbacks answer and wherever the run ends. */
  lemma {:induction false} RunNested(halts: Callback, r: Run, buf: bytes)
    requires Nested(r)
    ensures Nested(RunBytes(halts, r, buf))
    decreases |buf|
  {
    hide StepRun, Nested;
    if buf != [] {
      StepNested(halts, r, buf[0]);
      NestedValid(r);
      RunNested(halts, StepRun(halts, r, buf[0]), buf[1..]);
    }
  }

  lemma NestedValid(r: Run)
    requires Nested(r)
    ensures r.Live? ==> Valid(r.lex)
  {
  }

  /** Every text, from the start. */
  lemma TextNested(halts: Callback, column: seq<nat>, buf: bytes)
    requires |column| >= 2
    ensures var r := RunBytes(halts, Live(Start(column), []), buf);
      && WellNested(r.trace)
      && (r.Live? ==> AfterCalls([], r.trace) == Some(Opened(r.lex.frames)))
      && (r.Live? && Level(r.lex) == 0 ==> AfterCalls([], r.trace) == Some([]))
  {
    hide RunBytes, AfterCall;
    assert Opened(Start(column).frames) == [];
    RunNested(halts, Live(Start(column), []), buf);
    var r := RunBytes(halts, Live(Start(column), []), buf);
    if r.Live? && Level(r.lex) == 0 { assert Opened(r.lex.frames) == []; }
  }
}
