/** What the animated replacement guarantees, and where it departs from a
    plain "replace, or put back on cancel": the per-step effect of typing,
    what an uninterrupted run leaves in the document, what the finish
    command leaves, and what happens on cancel and on a rejected edit. */
module PlayerProperties {
  import opened Text
  import opened Player

  /** No wait brings a rejected edit. */
  predicate NoFailure(env: seq<Tick>)
  {
    forall t :: 0 <= t < |env| ==> !env[t].fail
  }

  /** No wait brings a cancel. */
  predicate NoCancel(env: seq<Tick>)
  {
    forall j :: 0 <= j < |env| ==> !env[j].cancel
  }

  /** No wait brings a finish request. */
  predicate NoFinish(env: seq<Tick>)
  {
    forall j :: 0 <= j < |env| ==> !env[j].finish
  }

  /** The text that the steps `prog` type when nothing interrupts them. */
  function Output(prog: seq<Instr>): string
    decreases |prog|
  {
    if prog == [] then ""
    else
      (match prog[0]
         case StartLine => ""
         case TypeChar(ch) => [ch]
         case BreakLine => "\n")
      + Output(prog[1..])
  }

  /** No `TypeChar` step types a line separator. */
  predicate TypesNoBreak(prog: seq<Instr>)
  {
    forall j :: 0 <= j < |prog| && prog[j].TypeChar? ==> prog[j].ch != '\n'
  }

  /** The text typed for lines `i` onwards: each line, followed by '\n'
      unless it reads like the last line. */
  function TypedFrom(lines: seq<string>, i: nat): string
    requires i <= |lines|
    decreases |lines| - i
  {
    if i == |lines| then ""
    else lines[i] + (if BreaksAfter(lines, i) then "\n" else "") + TypedFrom(lines, i + 1)
  }

  /** No line before the last one reads like the last one. */
  predicate NoEarlyRepeat(lines: seq<string>)
  {
    forall j :: 0 <= j < |lines| - 1 ==> lines[j] != lines[|lines| - 1]
  }

  lemma {:induction false} OutputAppend(a: seq<Instr>, b: seq<Instr>)
    ensures Output(a + b) == Output(a) + Output(b)
    decreases |a|
  {
    if a == [] {
      assert a + b == b;
    } else {
      assert (a + b)[0] == a[0];
      assert (a + b)[1..] == a[1..] + b;
      OutputAppend(a[1..], b);
    }
  }

  lemma {:induction false} OutputChars(s: string)
    ensures Output(Chars(s)) == s
    decreases |s|
  {
    if s != [] {
      var p := Chars(s);
      assert p == [TypeChar(s[0])] + Chars(s[1..]);
      assert p[1..] == Chars(s[1..]);
      OutputChars(s[1..]);
      assert s == [s[0]] + s[1..];
    }
  }

  /** The steps for lines `i` onwards type exactly `TypedFrom(lines, i)`. */
  lemma {:induction false} ProgramOutput(lines: seq<string>, i: nat)
    requires i <= |lines|
    ensures Output(Program(lines, i)) == TypedFrom(lines, i)
    decreases |lines| - i
  {
    if i < |lines| {
      var head := [StartLine] + LineTail(lines, i, 0);
      var line := lines[i] + (if BreaksAfter(lines, i) then "\n" else "");
      assert Program(lines, i) == head + Program(lines, i + 1);
      LineOutput(lines, i);
      ProgramOutput(lines, i + 1);
      OutputSplit(Program(lines, i), head, Program(lines, i + 1), line, TypedFrom(lines, i + 1));
      assert TypedFrom(lines, i) == line + TypedFrom(lines, i + 1);
    }
  }

  lemma OutputSplit(p: seq<Instr>, head: seq<Instr>, tail: seq<Instr>, a: string, b: string)
    requires p == head + tail && Output(head) == a && Output(tail) == b
    ensures Output(p) == a + b
  {
    OutputAppend(head, tail);
  }

  /** The steps for line `i` alone type the line and its line break, if any. */
  lemma LineOutput(lines: seq<string>, i: nat)
    requires i < |lines|
    ensures Output([StartLine] + LineTail(lines, i, 0)) == lines[i] + (if BreaksAfter(lines, i) then "\n" else "")
  {
    var tail := LineTail(lines, i, 0);
    var brk: seq<Instr> := if BreaksAfter(lines, i) then [BreakLine] else [];
    assert lines[i][0..] == lines[i];
    assert tail == Chars(lines[i]) + brk;
    OutputAppend([StartLine], tail);
    OutputAppend(Chars(lines[i]), brk);
    OutputChars(lines[i]);
    assert Output(brk) == (if BreaksAfter(lines, i) then "\n" else "");
  }

  /** Split lines hold no separator, so no character step types one. */
  lemma {:induction false} ProgramTypesNoBreak(lines: seq<string>, i: nat)
    requires i <= |lines|
    requires forall j :: 0 <= j < |lines| ==> '\n' !in lines[j]
    ensures TypesNoBreak(Program(lines, i))
    decreases |lines| - i
  {
    if i < |lines| {
      var head := [StartLine] + LineTail(lines, i, 0);
      assert Program(lines, i) == head + Program(lines, i + 1);
      LineTypesNoBreak(lines, i);
      ProgramTypesNoBreak(lines, i + 1);
      TypesNoBreakAppend(head, Program(lines, i + 1));
    }
  }

  /** The steps for one line without separators type no separator. */
  lemma LineTypesNoBreak(lines: seq<string>, i: nat)
    requires i < |lines| && '\n' !in lines[i]
    ensures TypesNoBreak([StartLine] + LineTail(lines, i, 0))
  {
    var chars := Chars(lines[i][0..]);
    var brk: seq<Instr> := if BreaksAfter(lines, i) then [BreakLine] else [];
    var p := [StartLine] + chars + brk;
    assert [StartLine] + LineTail(lines, i, 0) == p;
    forall j | 0 <= j < |p| && p[j].TypeChar?
      ensures p[j].ch != '\n'
    {
      if 1 <= j < 1 + |chars| {
        assert p[j] == chars[j - 1] == TypeChar(lines[i][0..][j - 1]);
        assert lines[i][0..][j - 1] in lines[i];
      }
    }
  }

  lemma TypesNoBreakAppend(a: seq<Instr>, b: seq<Instr>)
    requires TypesNoBreak(a) && TypesNoBreak(b)
    ensures TypesNoBreak(a + b)
  {
    forall j | 0 <= j < |a + b| && (a + b)[j].TypeChar?
      ensures (a + b)[j].ch != '\n'
    {
      if j < |a| {
        assert (a + b)[j] == a[j];
      } else {
        assert (a + b)[j] == b[j - |a|];
      }
    }
  }

  lemma {:induction false} TypedFromLength(lines: seq<string>, i: nat)
    requires i < |lines|
    ensures |TypedFrom(lines, i)| <= |Join(lines[i..])|
    decreases |lines| - i
  {
    if i == |lines| - 1 {
      assert lines[i..] == [lines[i]];
    } else {
      assert lines[i..][1..] == lines[i + 1..];
      TypedFromLength(lines, i + 1);
    }
  }

  /** The lines from `i` on are typed as they were joined exactly when none
      of them before the last reads like the last. */
  lemma {:induction false} TypedFromJoin(lines: seq<string>, i: nat)
    requires i < |lines|
    ensures TypedFrom(lines, i) == Join(lines[i..])
            <==> forall j :: i <= j < |lines| - 1 ==> lines[j] != lines[|lines| - 1]
    decreases |lines| - i
  {
    var last := lines[|lines| - 1];
    if i == |lines| - 1 {
      assert lines[i..] == [lines[i]];
    } else {
      assert lines[i..][1..] == lines[i + 1..];
      var rest := TypedFrom(lines, i + 1);
      var joined := Join(lines[i + 1..]);
      assert Join(lines[i..]) == lines[i] + "\n" + joined;
      TypedFromJoin(lines, i + 1);
      if lines[i] != last {
        assert TypedFrom(lines, i) == lines[i] + "\n" + rest;
        if rest != joined {
          var n := |lines[i]| + 1;
          assert (lines[i] + "\n" + rest)[n..] == rest;
          assert (lines[i] + "\n" + joined)[n..] == joined;
        }
      } else {
        TypedFromLength(lines, i + 1);
        assert |TypedFrom(lines, i)| < |Join(lines[i..])|;
      }
    }
  }

  /** An uninterrupted run types the new code exactly when no line before
      the last reads like the last. */
  lemma TypedIsCode(s: string)
    ensures TypedFrom(Split(s), 0) == s <==> NoEarlyRepeat(Split(s))
  {
    var lines := Split(s);
    assert lines[0..] == lines;
    TypedFromJoin(lines, 0);
  }

  lemma InsertAtTwice(t: string, o: nat, a: string, b: string)
    requires o <= |t|
    ensures InsertAt(InsertAt(t, o, a), o + |a|, b) == InsertAt(t, o, a + b)
  {
    var d := InsertAt(t, o, a);
    assert d[..o + |a|] == t[..o] + a;
    assert d[o + |a|..] == t[o..];
  }

  /** From `c` to `c2` the steps typed a prefix of `out` at `c`'s cursor,
      and the cursor sits just after it; they typed all of `out` unless
      finish was requested. */
  predicate TypedPrefix(c: Cfg, c2: Cfg, out: string)
  {
    var o := OffsetAt(c.text, c.cursor);
    var o2 := OffsetAt(c2.text, c2.cursor);
    ValidPosition(c2.text, c2.cursor) && o <= o2 <= o + |out|
    && c2.text == InsertAt(c.text, o, out[..o2 - o])
    && !c2.cancel && c2.selection == c.selection
    && (!c2.finish ==> o2 == o + |out|)
  }

  lemma TypesNoBreakTail(prog: seq<Instr>)
    requires prog != [] && TypesNoBreak(prog)
    ensures TypesNoBreak(prog[1..])
    ensures prog[0].TypeChar? ==> prog[0].ch != '\n'
  {
    assert forall j :: 0 <= j < |prog[1..]| ==> prog[1..][j] == prog[j + 1];
  }

  /** Nothing typed: the configuration is where the steps started. */
  lemma TypedNothing(c: Cfg, out: string)
    requires ValidPosition(c.text, c.cursor) && !c.cancel && (c.finish || out == [])
    ensures TypedPrefix(c, c, out)
  {
    var o := OffsetAt(c.text, c.cursor);
    assert out[..0] == "";
    assert InsertAt(c.text, o, "") == c.text;
  }

  /** One character `a` typed at the cursor, then a prefix of `rest`. */
  lemma TypedPrefixExtend(c: Cfg, c1: Cfg, c2: Cfg, a: string, rest: string)
    requires |a| == 1
    requires c1.text == InsertAt(c.text, OffsetAt(c.text, c.cursor), a)
    requires OffsetAt(c1.text, c1.cursor) == OffsetAt(c.text, c.cursor) + 1
    requires c1.selection == c.selection
    requires TypedPrefix(c1, c2, rest)
    ensures TypedPrefix(c, c2, a + rest)
  {
    var o := OffsetAt(c.text, c.cursor);
    var m := TypedCount(c1, c2, rest);
    var typed := rest[..m];
    assert c2.text == InsertAt(c.text, o, a + typed) by {
      InsertAtTwice(c.text, o, a, typed);
    }
    assert (a + rest)[..m + 1] == a + typed;
    TypedPrefixIntro(c, c2, a + rest, m + 1);
  }

  /** `TypedPrefix` from its parts, with `m` the number of characters
      typed. */
  lemma TypedPrefixIntro(c: Cfg, c2: Cfg, out: string, m: nat)
    requires m <= |out| && ValidPosition(c2.text, c2.cursor)
    requires OffsetAt(c2.text, c2.cursor) == OffsetAt(c.text, c.cursor) + m
    requires c2.text == InsertAt(c.text, OffsetAt(c.text, c.cursor), out[..m])
    requires !c2.cancel && c2.selection == c.selection && (!c2.finish ==> m == |out|)
    ensures TypedPrefix(c, c2, out)
  {
  }

  /** A line break typed at the cursor. */
  lemma BreakStep(ctx: Ctx, prog: seq<Instr>, c: Cfg, d: string)
    requires prog != [] && prog[0].BreakLine?
    requires !c.finish && !TickAt(ctx.env, c.k).fail
    requires d == InsertAt(c.text, OffsetAt(c.text, c.cursor), "\n")
    ensures Run(ctx, prog, c)
            == Run(ctx, prog[1..], Yield(ctx, c).(text := d, cursor := Position(c.cursor.line + 1, 0)))
  {
  }

  /** The loops from `c` with steps `prog` end normally, having typed a
      prefix of the steps' text; and if nothing asks to finish, all of it. */
  predicate RunsTyping(ctx: Ctx, prog: seq<Instr>, c: Cfg)
  {
    var e := Run(ctx, prog, c);
    e.Normal? && TypedPrefix(c, e.at, Output(prog))
    && (!c.finish && NoFinish(ctx.env) ==> !e.at.finish)
  }

  /** Without cancels and rejected edits, the typing loops end normally,
      having typed the steps' text up to the point where finish was
      requested. */
  lemma {:induction false} RunWithoutCancel(ctx: Ctx, prog: seq<Instr>, c: Cfg)
    requires NoCancel(ctx.env) && NoFailure(ctx.env) && !c.cancel
    requires ValidPosition(c.text, c.cursor) && TypesNoBreak(prog)
    ensures RunsTyping(ctx, prog, c)
    decreases |prog|, 1
  {
    if c.finish {
      FinishAbsorbs(ctx, prog, c);
      TypedNothing(c, Output(prog));
    } else if prog == [] {
      TypedNothing(c, Output(prog));
    } else {
      TypesNoBreakTail(prog);
      match prog[0]
      case StartLine =>
        assert Run(ctx, prog, c) == Run(ctx, prog[1..], c);
        assert Output(prog) == Output(prog[1..]);
        RunWithoutCancel(ctx, prog[1..], c);
      case TypeChar(ch) =>
        RunTypeChar(ctx, prog, c, ch);
      case BreakLine =>
        RunBreakLine(ctx, prog, c);
    }
  }

  /** One step that typed `a` at the cursor, followed by loops that type a
      prefix of the rest. */
  lemma StepThenTyping(ctx: Ctx, prog: seq<Instr>, c: Cfg, c1: Cfg, a: string)
    requires prog != [] && |a| == 1 && !c.finish
    requires Run(ctx, prog, c) == Run(ctx, prog[1..], c1)
    requires Output(prog) == a + Output(prog[1..])
    requires c1.text == InsertAt(c.text, OffsetAt(c.text, c.cursor), a)
    requires OffsetAt(c1.text, c1.cursor) == OffsetAt(c.text, c.cursor) + 1
    requires c1.selection == c.selection
    requires NoFinish(ctx.env) ==> !c1.finish
    requires RunsTyping(ctx, prog[1..], c1)
    ensures RunsTyping(ctx, prog, c)
  {
    TypedPrefixExtend(c, c1, Run(ctx, prog[1..], c1).at, a, Output(prog[1..]));
  }

  lemma {:induction false} RunTypeChar(ctx: Ctx, prog: seq<Instr>, c: Cfg, ch: char)
    requires NoCancel(ctx.env) && NoFailure(ctx.env) && !c.cancel && !c.finish
    requires prog != [] && prog[0] == TypeChar(ch) && ch != '\n'
    requires ValidPosition(c.text, c.cursor) && TypesNoBreak(prog[1..])
    ensures RunsTyping(ctx, prog, c)
    decreases |prog|, 0
  {
    var t0 := TickAt(ctx.env, c.k);
    var t1 := TickAt(ctx.env, c.k + 1);
    assert !t0.cancel && !t0.fail && !t1.cancel && (NoFinish(ctx.env) ==> !t0.finish && !t1.finish);
    var c1 := CharStep(ctx, prog, c, ch);
    CursorAdvances(c, ch, c1);
    assert Output(prog) == [ch] + Output(prog[1..]);
    RunWithoutCancel(ctx, prog[1..], c1);
    StepThenTyping(ctx, prog, c, c1, [ch]);
  }

  /** Typing one character that is not a line break, with no cancel before
      or after it: the step the loops take, and where the cursor ends. */
  lemma CharStep(ctx: Ctx, prog: seq<Instr>, c: Cfg, ch: char) returns (c1: Cfg)
    requires prog != [] && prog[0] == TypeChar(ch) && !c.finish && !c.cancel
    requires !TickAt(ctx.env, c.k).cancel && !TickAt(ctx.env, c.k).fail && !TickAt(ctx.env, c.k + 1).cancel
    ensures Run(ctx, prog, c) == Run(ctx, prog[1..], c1)
    ensures c1.text == InsertAt(c.text, OffsetAt(c.text, c.cursor), [ch])
    ensures c1.cursor == Position(c.cursor.line, c.cursor.character + 1)
    ensures c1.selection == c.selection && !c1.cancel
    ensures c1.finish == (TickAt(ctx.env, c.k).finish || TickAt(ctx.env, c.k + 1).finish)
  {
    var d := InsertAt(c.text, OffsetAt(c.text, c.cursor), [ch]);
    c1 := Yield(ctx, Yield(ctx, c).(text := d, cursor := Position(c.cursor.line, c.cursor.character + 1)));
    TypeStep(ctx, prog, c, d);
  }

  /** After a character other than a line break is typed at a valid
      cursor, the cursor that follows it is valid and one offset further on. */
  lemma CursorAdvances(c: Cfg, ch: char, c1: Cfg)
    requires ValidPosition(c.text, c.cursor) && ch != '\n'
    requires c1.text == InsertAt(c.text, OffsetAt(c.text, c.cursor), [ch])
    requires c1.cursor == Position(c.cursor.line, c.cursor.character + 1)
    ensures ValidPosition(c1.text, c1.cursor) && OffsetAt(c1.text, c1.cursor) == OffsetAt(c.text, c.cursor) + 1
  {
    InsertCharAdvances(c.text, c.cursor, ch, c1.text);
  }

  lemma {:induction false} RunBreakLine(ctx: Ctx, prog: seq<Instr>, c: Cfg)
    requires NoCancel(ctx.env) && NoFailure(ctx.env) && !c.cancel && !c.finish
    requires prog != [] && prog[0] == BreakLine
    requires ValidPosition(c.text, c.cursor) && TypesNoBreak(prog[1..])
    ensures RunsTyping(ctx, prog, c)
    decreases |prog|, 0
  {
    var t0 := TickAt(ctx.env, c.k);
    assert !t0.cancel && !t0.fail && (NoFinish(ctx.env) ==> !t0.finish);
    var d := InsertAt(c.text, OffsetAt(c.text, c.cursor), "\n");
    var c1 := Yield(ctx, c).(text := d, cursor := Position(c.cursor.line + 1, 0));
    assert Run(ctx, prog, c) == Run(ctx, prog[1..], c1) by {
      BreakStep(ctx, prog, c, d);
    }
    BreakCursorAdvances(c, c1);
    assert Output(prog) == "\n" + Output(prog[1..]);
    RunWithoutCancel(ctx, prog[1..], c1);
    StepThenTyping(ctx, prog, c, c1, "\n");
  }

  /** After a line break is typed at a valid cursor, the cursor at the start
      of the new line is valid and one offset further on. */
  lemma BreakCursorAdvances(c: Cfg, c1: Cfg)
    requires ValidPosition(c.text, c.cursor)
    requires c1.text == InsertAt(c.text, OffsetAt(c.text, c.cursor), "\n")
    requires c1.cursor == Position(c.cursor.line + 1, 0)
    ensures ValidPosition(c1.text, c1.cursor) && OffsetAt(c1.text, c1.cursor) == OffsetAt(c.text, c.cursor) + 1
  {
    InsertNewlineAdvances(c.text, c.cursor, c1.text);
  }

  /** The start of a replacement: the record of what stays fixed, and the
      configuration in which the typing loops begin once the selection has
      been deleted. */
  function Context(doc: string, sel: Range, newCode: string, env: seq<Tick>): Ctx
    requires Before(sel.start, sel.end)
  {
    Ctx(newCode, TextIn(doc, sel), sel, env)
  }

  function Deleted(doc: string, sel: Range, newCode: string, env: seq<Tick>): Cfg
    requires Before(sel.start, sel.end)
  {
    var c1 := Yield(Context(doc, sel, newCode, env), Cfg(doc, sel, sel.start, false, false, 0));
    c1.(text := ReplaceRange(doc, sel, ""), selection := Range(sel.start, sel.start))
  }

  /** `Play` is the deletion, then the typing loops and what follows them. */
  lemma PlayUnfolds(doc: string, sel: Range, newCode: string, env: seq<Tick>)
    requires Before(sel.start, sel.end) && !TickAt(env, 0).fail
    ensures Play(doc, sel, newCode, env)
            == Conclude(Context(doc, sel, newCode, env),
                        Run(Context(doc, sel, newCode, env), Program(Split(newCode), 0), Deleted(doc, sel, newCode, env)))
  {
  }

  /** After the deletion the cursor is still valid and keeps its offset,
      and the document is the old one without the selected text. */
  lemma DeletionKeepsStart(doc: string, sel: Range, newCode: string, env: seq<Tick>)
    requires Before(sel.start, sel.end) && ValidPosition(doc, sel.start)
    ensures var c := Deleted(doc, sel, newCode, env);
            var s := OffsetAt(doc, sel.start);
            var e := OffsetAt(doc, sel.end);
            s <= e && c.text == doc[..s] + doc[e..] && c.cursor == sel.start
            && ValidPosition(c.text, c.cursor) && OffsetAt(c.text, c.cursor) == s
            && !c.cancel == !TickAt(env, 0).cancel && c.finish == TickAt(env, 0).finish
  {
    var s := OffsetAt(doc, sel.start);
    var e := OffsetAt(doc, sel.end);
    OffsetAtMonotone(doc, sel.start, sel.end);
    var text0 := ReplaceRange(doc, sel, "");
    assert text0 == doc[..s] + doc[e..];
    assert text0[..s] == doc[..s];
    PrefixKeepsOffset(doc, text0, sel.start);
  }

  /** The facts `TypedPrefix` gives, with `m` the number of characters
      typed. */
  lemma TypedCount(c: Cfg, c3: Cfg, out: string) returns (m: nat)
    requires TypedPrefix(c, c3, out)
    ensures m <= |out| && OffsetAt(c3.text, c3.cursor) == OffsetAt(c.text, c.cursor) + m
    ensures c3.text == InsertAt(c.text, OffsetAt(c.text, c.cursor), out[..m])
    ensures ValidPosition(c3.text, c3.cursor) && !c3.cancel && c3.selection == c.selection
    ensures !c3.finish ==> m == |out|
  {
    m := OffsetAt(c3.text, c3.cursor) - OffsetAt(c.text, c.cursor);
  }

  /** What follows typing loops that typed the first `m` characters of
      `out` into the gap left by deleting `doc[s..e]`. */
  lemma ConcludeTyped(ctx: Ctx, c3: Cfg, out: string, doc: string, s: nat, e: nat, m: nat, f: Final, code: string)
    requires ValidCtx(ctx) && NoCancel(ctx.env) && NoFailure(ctx.env) && ctx.newCode == code
    requires s <= e <= |doc| && m <= |out|
    requires c3.text == InsertAt(doc[..s] + doc[e..], s, out[..m]) && OffsetAt(c3.text, c3.cursor) == s + m
    requires !c3.finish ==> m == |out|
    requires f == Conclude(ctx, Normal(c3))
    ensures f.outcome == Completed ==> f.text == doc[..s] + out + doc[e..]
    ensures f.outcome == Flushed ==> f.text == doc[..s] + out[..m] + Substr(code, s + m) + doc[e..]
    ensures f.outcome == Completed || f.outcome == Flushed
    ensures !c3.finish ==> f.outcome == Completed
  {
    if c3.finish {
      FlushTyped(ctx, c3, out, doc, s, e, m, f, code);
    } else {
      assert f == EndWith(c3, Completed);
      assert out[..m] == out;
      InsertIntoGap(doc, s, e, out, "");
    }
  }

  /** `ConcludeTyped` when finish was requested. */
  lemma FlushTyped(ctx: Ctx, c3: Cfg, out: string, doc: string, s: nat, e: nat, m: nat, f: Final, code: string)
    requires ValidCtx(ctx) && !TickAt(ctx.env, c3.k).fail && ctx.newCode == code
    requires s <= e <= |doc| && m <= |out|
    requires c3.text == InsertAt(doc[..s] + doc[e..], s, out[..m]) && OffsetAt(c3.text, c3.cursor) == s + m
    requires c3.finish && f == Conclude(ctx, Normal(c3))
    ensures f.outcome == Flushed && f.text == doc[..s] + out[..m] + Substr(code, s + m) + doc[e..]
  {
    var rest := Substr(code, s + m);
    assert f.outcome == Flushed && f.text == InsertAt(c3.text, s + m, rest);
    InsertIntoGap(doc, s, e, out[..m], rest);
  }

  /** Text typed into the gap left by deleting `doc[s..e]`, then more text
      after it. */
  lemma InsertIntoGap(doc: string, s: nat, e: nat, a: string, b: string)
    requires s <= e <= |doc|
    ensures InsertAt(doc[..s] + doc[e..], s, a) == doc[..s] + a + doc[e..]
    ensures InsertAt(InsertAt(doc[..s] + doc[e..], s, a), s + |a|, b) == doc[..s] + a + b + doc[e..]
  {
    var t := doc[..s] + doc[e..];
    assert t[..s] == doc[..s] && t[s..] == doc[e..];
    InsertAtTwice(t, s, a, b);
  }

  /** The typing loops of a replacement without cancels and rejected edits:
      they end normally, having typed the first `m` characters of the code's
      text into the gap. */
  lemma LoopsTyped(doc: string, sel: Range, newCode: string, env: seq<Tick>) returns (c3: Cfg, m: nat)
    requires Before(sel.start, sel.end) && ValidPosition(doc, sel.start)
    requires NoCancel(env) && NoFailure(env)
    ensures var s := OffsetAt(doc, sel.start);
            var e := OffsetAt(doc, sel.end);
            var out := TypedFrom(Split(newCode), 0);
            s <= e && m <= |out|
            && Play(doc, sel, newCode, env) == Conclude(Context(doc, sel, newCode, env), Normal(c3))
            && c3.text == InsertAt(doc[..s] + doc[e..], s, out[..m]) && OffsetAt(c3.text, c3.cursor) == s + m
            && (!c3.finish ==> m == |out|) && (NoFinish(env) ==> !c3.finish)
  {
    var lines := Split(newCode);
    var prog := Program(lines, 0);
    ProgramOutput(lines, 0);
    ProgramTypesNoBreak(lines, 0);
    var ctx := Context(doc, sel, newCode, env);
    var c2 := Deleted(doc, sel, newCode, env);
    DeletionKeepsStart(doc, sel, newCode, env);
    assert !TickAt(env, 0).cancel && (NoFinish(env) ==> !TickAt(env, 0).finish);
    RunWithoutCancel(ctx, prog, c2);
    c3 := Run(ctx, prog, c2).at;
    m := TypedCount(c2, c3, Output(prog));
    PlayThrough(doc, sel, newCode, env, Normal(c3));
  }

  /** With no cancel and no rejected edit, a replacement either types the
      new code to the end or is finished early. Typing completed: the
      selection holds `TypedFrom` of the lines of the new code. Finished
      early: the selection holds the part already typed, then the new code
      from the cursor's document offset on; `m` is the number of
      characters typed before the finish edit. Without finish requests it
      always completes. */
  lemma PlayWithoutCancel(doc: string, sel: Range, newCode: string, env: seq<Tick>) returns (m: nat, out: string, s: nat, e: nat)
    requires Before(sel.start, sel.end) && ValidPosition(doc, sel.start)
    requires NoCancel(env) && NoFailure(env)
    ensures out == TypedFrom(Split(newCode), 0)
    ensures s == OffsetAt(doc, sel.start) && e == OffsetAt(doc, sel.end)
    ensures var f := Play(doc, sel, newCode, env);
            s <= e <= |doc| && m <= |out|
            && (f.outcome == Completed ==> f.text == doc[..s] + out + doc[e..])
            && (f.outcome == Flushed ==> f.text == doc[..s] + out[..m] + Substr(newCode, s + m) + doc[e..])
            && (f.outcome == Completed || f.outcome == Flushed)
            && (NoFinish(env) ==> f.outcome == Completed)
  {
    var c3;
    out := TypedFrom(Split(newCode), 0);
    s, e := OffsetAt(doc, sel.start), OffsetAt(doc, sel.end);
    c3, m := LoopsTyped(doc, sel, newCode, env);
    ConcludeTyped(Context(doc, sel, newCode, env), c3, out, doc, s, e, m, Play(doc, sel, newCode, env), newCode);
  }

  /** `Play` is what follows the typing loops, however they end. */
  lemma PlayThrough(doc: string, sel: Range, newCode: string, env: seq<Tick>, x: Exit)
    requires Before(sel.start, sel.end) && !TickAt(env, 0).fail
    requires Run(Context(doc, sel, newCode, env), Program(Split(newCode), 0), Deleted(doc, sel, newCode, env)) == x
    ensures Play(doc, sel, newCode, env) == Conclude(Context(doc, sel, newCode, env), x)
  {
    PlayUnfolds(doc, sel, newCode, env);
  }

  lemma Unwrap(a: string, x: string, y: string, b: string)
    requires a + x + b == a + y + b
    ensures x == y
  {
    assert |x| == |y|;
    assert x == (a + x + b)[|a|..|a| + |x|];
    assert y == (a + y + b)[|a|..|a| + |y|];
  }

  /** A run that nobody interrupts and whose edits are all applied puts
      the new code in place of the selection exactly when no line before
      the last reads like the last; otherwise line breaks go missing. */
  lemma UninterruptedTypesCode(doc: string, sel: Range, newCode: string, env: seq<Tick>)
    requires Before(sel.start, sel.end) && ValidPosition(doc, sel.start)
    requires NoCancel(env) && NoFailure(env) && NoFinish(env)
    ensures var f := Play(doc, sel, newCode, env);
            var s := OffsetAt(doc, sel.start);
            var e := OffsetAt(doc, sel.end);
            s <= e && f.outcome == Completed
            && (f.text == doc[..s] + newCode + doc[e..] <==> NoEarlyRepeat(Split(newCode)))
  {
    var m, out, s, e := PlayWithoutCancel(doc, sel, newCode, env);
    TypedIsCode(newCode);
    var f := Play(doc, sel, newCode, env);
    if f.text == doc[..s] + newCode + doc[e..] {
      Unwrap(doc[..s], TypedFrom(Split(newCode), 0), newCode, doc[e..]);
    }
  }

  /** An empty new code types nothing: after the deletion the document
      only loses the selected text, whether or not finish is requested. */
  lemma EmptyCodeTypesNothing(doc: string, sel: Range, env: seq<Tick>)
    requires Before(sel.start, sel.end) && ValidPosition(doc, sel.start)
    requires NoCancel(env) && NoFailure(env)
    ensures Play(doc, sel, "", env).text == doc[..OffsetAt(doc, sel.start)] + doc[OffsetAt(doc, sel.end)..]
  {
    var f := Play(doc, sel, "", env);
    var m, out, s, e := PlayWithoutCancel(doc, sel, "", env);
    assert out == "" by {
      var lines := Split("");
      assert lines == [""];
      assert TypedFrom(lines, 1) == "";
    }
    NothingTyped(f.text, doc[..OffsetAt(doc, sel.start)], out, Substr("", OffsetAt(doc, sel.start) + m),
                 doc[OffsetAt(doc, sel.end)..], m, f.outcome == Completed);
  }

  lemma NothingTyped(text: string, before: string, out: string, rest: string, after: string, m: nat, completed: bool)
    requires out == "" && rest == "" && m <= |out|
    requires completed ==> text == before + out + after
    requires !completed ==> text == before + out[..m] + rest + after
    ensures text == before + after
  {
  }

  lemma WholeCode(text: string, before: string, code: string, after: string, m: nat, completed: bool)
    requires before == "" && m <= |code|
    requires completed ==> text == before + code + after
    requires !completed ==> text == before + code[..m] + Substr(code, m) + after
    ensures text == code + after
  {
    assert code[..m] + code[m..] == code;
  }

  /** When the selection starts at the beginning of the document, the
      document offset of the cursor is the number of characters typed, so
      the finish command completes the new code exactly (provided no line
      break went missing before it). */
  lemma FinishFromDocumentStart(doc: string, sel: Range, newCode: string, env: seq<Tick>)
    requires sel.start == Position(0, 0) && Before(sel.start, sel.end)
    requires NoCancel(env) && NoFailure(env) && NoEarlyRepeat(Split(newCode))
    ensures Play(doc, sel, newCode, env).text == newCode + doc[OffsetAt(doc, sel.end)..]
  {
    assert OffsetAt(doc, sel.start) == 0;
    TypedIsCode(newCode);
    var m, out, s, e := PlayWithoutCancel(doc, sel, newCode, env);
    var f := Play(doc, sel, newCode, env);
    WholeCode(f.text, doc[..0], newCode, doc[OffsetAt(doc, sel.end)..], m, f.outcome == Completed);
  }

  /** The finish command inserts the new code from the cursor's absolute
      document offset on, not from the number of characters typed: with
      "ab" in the document and "b" selected, finishing "xy" at once leaves
      "ay", having dropped the "x". */
  lemma FinishUsesDocumentOffset(doc: string, sel: Range, env: seq<Tick>)
    requires doc == "ab" && sel == Range(Position(0, 1), Position(0, 2)) && env == [Tick(true, false, false)]
    ensures Play(doc, sel, "xy", env) == Final("ay", Range(sel.start, sel.start), true, false, Flushed)
  {
    assert LineEnd(doc[1..][1..]) == 0;
    assert LineEnd(doc[1..]) == 1;
    assert LineEnd(doc) == 2;
    assert ValidPosition(doc, sel.start);
    assert OffsetAt(doc, sel.start) == 1 && OffsetAt(doc, sel.end) == 2;
    FinishAtOnce(doc, sel, "xy", env);
    assert Substr("xy", 1) == "y";
    assert doc[..1] + "y" + doc[2..] == "ay";
  }

  /** A finish in the pause after the last character leaves nothing to
      insert, so the text is right wherever the selection starts: with "ab"
      in the document and "b" selected, typing "x" and finishing in the
      last pause leaves "ax". */
  lemma FinishAfterLastCharacter(doc: string, sel: Range, env: seq<Tick>)
    requires doc == "ab" && sel == Range(Position(0, 1), Position(0, 2))
    requires env == [Tick(false, false, false), Tick(false, false, false), Tick(true, false, false)]
    ensures Play(doc, sel, "x", env) == Final("ax", Range(sel.start, sel.start), true, false, Flushed)
  {
    var ctx := Context(doc, sel, "x", env);
    assert LineEnd(doc[1..][1..]) == 0;
    assert LineEnd(doc[1..]) == 1;
    assert LineEnd(doc) == 2;
    assert OffsetAt(doc, sel.start) == 1 && OffsetAt(doc, sel.end) == 2;
    var c0 := Deleted(doc, sel, "x", env);
    assert c0.text == "a" && c0.k == 1 && !c0.finish && !c0.cancel;
    assert LineEnd("x") == 1;
    assert Split("x") == ["x"];
    assert Program(["x"], 0) == [StartLine, TypeChar('x')];
    var c2 := Yield(ctx, Yield(ctx, c0).(text := "ax", cursor := Position(0, 2)));
    assert c2.finish && !c2.cancel && c2.k == 3;
    assert Run(ctx, [TypeChar('x')], c0) == Normal(c2);
    PlayThrough(doc, sel, "x", env, Normal(c2));
    assert LineEnd("ax") == 2;
    assert OffsetAt(c2.text, c2.cursor) == 2;
    assert Substr("x", 2) == "";
  }

  /** A line that reads like the last one gets no line break: "a\na" is
      typed as "aa". */
  lemma RepeatedLastLineLosesBreak(doc: string, sel: Range, env: seq<Tick>)
    requires Before(sel.start, sel.end) && ValidPosition(doc, sel.start)
    requires NoCancel(env) && NoFailure(env) && NoFinish(env)
    ensures Play(doc, sel, "a\na", env).text
            == doc[..OffsetAt(doc, sel.start)] + "aa" + doc[OffsetAt(doc, sel.end)..]
  {
    var code := "a\na";
    var lines := Split(code);
    assert LineEnd(code) == 1;
    assert code[..1] == "a" && code[2..] == "a";
    assert LineEnd("a") == 1;
    assert Split("a") == ["a"];
    assert lines == ["a"] + Split("a");
    assert lines == ["a", "a"];
    assert TypedFrom(lines, 2) == "";
    assert TypedFrom(lines, 1) == "a";
    assert TypedFrom(lines, 0) == "aa";
    var m, out, s, e := PlayWithoutCancel(doc, sel, "a\na", env);
  }

  /** Without cancels no rollback happens: a rejected edit ends the
      replacement with its error dropped and the document as it stands. */
  lemma {:induction false} RunKeepsNoCancel(ctx: Ctx, prog: seq<Instr>, c: Cfg)
    requires NoCancel(ctx.env) && !c.cancel
    ensures !Run(ctx, prog, c).at.cancel
    decreases |prog|
  {
    if prog != [] {
      assert !TickAt(ctx.env, c.k).cancel && !TickAt(ctx.env, c.k + 1).cancel;
      match Step(ctx, prog[0], c)
      case Continue(c1) => RunKeepsNoCancel(ctx, prog[1..], c1);
      case Leave(_) =>
    }
  }

  /** An error raised while no cancel was requested neither rolls back nor
      escapes: the replacement ends completed, finished or with the error
      swallowed. */
  lemma ErrorsWithoutCancelAreSwallowed(doc: string, sel: Range, newCode: string, env: seq<Tick>)
    requires Before(sel.start, sel.end) && NoCancel(env)
    ensures var f := Play(doc, sel, newCode, env);
            !f.cancelRequested
            && (f.outcome == Completed || f.outcome == Flushed || f.outcome == Swallowed)
  {
    var ctx := Ctx(newCode, TextIn(doc, sel), sel, env);
    var c1 := Yield(ctx, Cfg(doc, sel, sel.start, false, false, 0));
    assert !TickAt(env, 0).cancel;
    var c2 := c1.(text := ReplaceRange(doc, sel, ""), selection := Range(sel.start, sel.start));
    var prog := Program(Split(newCode), 0);
    RunKeepsNoCancel(ctx, prog, c2);
    var c3 := Run(ctx, prog, c2).at;
    assert !TickAt(env, c3.k).cancel;
  }

  /** A rejected deletion with no cancel leaves the document untouched. */
  lemma RejectedDeletionChangesNothing(doc: string, sel: Range, newCode: string, env: seq<Tick>)
    requires Before(sel.start, sel.end) && |env| > 0 && env[0] == Tick(false, false, true)
    ensures Play(doc, sel, newCode, env) == Final(doc, sel, false, false, Swallowed)
  {
  }

  /** A cancel seen before anything is typed puts the original text back
      over the original range, read in the document as it now stands after
      the deletion, and restores the selection. */
  lemma CancelAtOnce(doc: string, sel: Range, newCode: string, env: seq<Tick>)
    requires Before(sel.start, sel.end)
    requires |env| > 0 && env[0] == Tick(false, true, false) && !TickAt(env, 1).fail
    ensures Play(doc, sel, newCode, env)
            == Final(ReplaceRange(ReplaceRange(doc, sel, ""), sel, TextIn(doc, sel)), sel,
                     TickAt(env, 1).finish, true, RolledBack)
  {
    ProgramStep(Split(newCode), 0);
  }

  /** When the selection reaches the end of the document, putting its text
      back over the original range after the deletion gives back the
      document exactly. */
  lemma RestoreAtDocumentEnd(doc: string, sel: Range)
    requires Before(sel.start, sel.end) && ValidPosition(doc, sel.start)
    requires OffsetAt(doc, sel.end) == |doc|
    ensures ReplaceRange(ReplaceRange(doc, sel, ""), sel, TextIn(doc, sel)) == doc
  {
    var s := OffsetAt(doc, sel.start);
    OffsetAtMonotone(doc, sel.start, sel.end);
    OffsetsInPrefix(doc, sel, s);
    PutBack(doc, sel, s);
  }

  /** The document is restored once both ends of the selection fall at
      the end of what the deletion leaves. */
  lemma PutBack(doc: string, sel: Range, s: nat)
    requires Before(sel.start, sel.end) && s <= |doc|
    requires OffsetAt(doc, sel.start) == s && OffsetAt(doc, sel.end) == |doc|
    requires OffsetAt(doc[..s], sel.start) == s && OffsetAt(doc[..s], sel.end) == s
    ensures ReplaceRange(ReplaceRange(doc, sel, ""), sel, TextIn(doc, sel)) == doc
  {
    DeleteToEnd(doc, sel, s);
    RestoreGap(doc, sel, s, ReplaceRange(doc, sel, ""), TextIn(doc, sel));
  }

  /** Deleting a selection that reaches the end of the document keeps the
      text before it. */
  lemma DeleteToEnd(doc: string, sel: Range, s: nat)
    requires Before(sel.start, sel.end) && s <= |doc|
    requires OffsetAt(doc, sel.start) == s && OffsetAt(doc, sel.end) == |doc|
    ensures ReplaceRange(doc, sel, "") == doc[..s] && TextIn(doc, sel) == doc[s..]
  {
    assert doc[..s] + "" + doc[|doc|..] == doc[..s];
  }

  /** Putting `doc[s..]` back at the end of `doc[..s]`. */
  lemma RestoreGap(doc: string, sel: Range, s: nat, text0: string, x: string)
    requires Before(sel.start, sel.end) && s <= |doc|
    requires text0 == doc[..s] && x == doc[s..]
    requires OffsetAt(text0, sel.start) == s && OffsetAt(text0, sel.end) == s
    ensures ReplaceRange(text0, sel, x) == doc
  {
    assert text0[..s] + x + text0[s..] == doc;
  }

  /** In the part of the document before the start of a selection, both
      ends of the selection fall at the end. */
  lemma OffsetsInPrefix(doc: string, sel: Range, s: nat)
    requires Before(sel.start, sel.end) && ValidPosition(doc, sel.start)
    requires s == OffsetAt(doc, sel.start)
    ensures OffsetAt(doc[..s], sel.start) == s && OffsetAt(doc[..s], sel.end) == s
  {
    PrefixKeepsOffset(doc, doc[..s], sel.start);
    OffsetAtMonotone(doc[..s], sel.start, sel.end);
  }

  /** A cancel seen before anything is typed rolls back and restores the
      selection; when the selection reaches the end of the document, the
      document comes back exactly. */
  lemma CancelAtOnceRestores(doc: string, sel: Range, newCode: string, env: seq<Tick>)
    requires Before(sel.start, sel.end) && ValidPosition(doc, sel.start)
    requires |env| > 0 && env[0] == Tick(false, true, false) && !TickAt(env, 1).fail
    ensures var f := Play(doc, sel, newCode, env);
            f.outcome == RolledBack && f.selection == sel
            && (OffsetAt(doc, sel.end) == |doc| ==> f.text == doc)
  {
    CancelAtOnce(doc, sel, newCode, env);
    if OffsetAt(doc, sel.end) == |doc| {
      RestoreAtDocumentEnd(doc, sel);
    }
  }

  /** Rollback rewrites the original range in the document as it now
      stands, so text after a selection that ends inside a line is lost:
      with "abcdef" in the document and "abc" selected, a cancel at once
      leaves "abc", whatever the new code. */
  lemma CancelLosesTextAfterSelection(doc: string, sel: Range, newCode: string, env: seq<Tick>)
    requires doc == "abcdef" && sel == Range(Position(0, 0), Position(0, 3))
    requires |env| > 0 && env[0] == Tick(false, true, false) && !TickAt(env, 1).fail
    ensures Play(doc, sel, newCode, env).text == "abc"
  {
    assert ReplaceRange(ReplaceRange(doc, sel, ""), sel, TextIn(doc, sel)) == "abc" by {
      assert LineEnd(doc) == 6 by {
        LineEndAppend(doc, "");
        assert doc + "" == doc;
      }
      assert TextIn(doc, sel) == "abc";
      var text0 := ReplaceRange(doc, sel, "");
      assert text0 == "def";
      assert LineEnd(text0) == 3 by {
        LineEndAppend(text0, "");
        assert text0 + "" == text0;
      }
      assert OffsetAt(text0, sel.end) == 3;
    }
    CancelAtOnce(doc, sel, newCode, env);
  }

  /** Only what the original range's coordinates cover in the shortened
      document is overwritten: with "abcdefgh" in the document and "abc"
      selected, a cancel at once writes "abc" over "def" and leaves
      "abcgh". */
  lemma CancelOverwritesRangeOnly(doc: string, sel: Range, newCode: string, env: seq<Tick>)
    requires doc == "abcdefgh" && sel == Range(Position(0, 0), Position(0, 3))
    requires |env| > 0 && env[0] == Tick(false, true, false) && !TickAt(env, 1).fail
    ensures Play(doc, sel, newCode, env).text == "abcgh"
  {
    RollbackOverDeleted(doc, sel);
    CancelAtOnce(doc, sel, newCode, env);
  }

  /** The rollback edit of `CancelOverwritesRangeOnly`. */
  lemma RollbackOverDeleted(doc: string, sel: Range)
    requires doc == "abcdefgh" && sel == Range(Position(0, 0), Position(0, 3))
    ensures ReplaceRange(ReplaceRange(doc, sel, ""), sel, TextIn(doc, sel)) == "abcgh"
  {
    assert LineEnd(doc) == 8 by {
      LineEndAppend(doc, "");
      assert doc + "" == doc;
    }
    assert TextIn(doc, sel) == "abc";
    var text0 := ReplaceRange(doc, sel, "");
    assert text0 == "defgh";
    assert LineEnd(text0) == 5 by {
      LineEndAppend(text0, "");
      assert text0 + "" == text0;
    }
    assert OffsetAt(text0, sel.end) == 3;
  }

  /** The typing loops when the pause after the first character brings a
      cancel: that character is typed and the loop over characters throws. */
  lemma FirstCharThenCancel(ctx: Ctx, lines: seq<string>, c: Cfg, d: string)
    requires |lines| > 0 && |lines[0]| >= 2
    requires !c.finish && !c.cancel
    requires TickAt(ctx.env, c.k) == Tick(false, false, false) && TickAt(ctx.env, c.k + 1) == Tick(false, true, false)
    requires d == InsertAt(c.text, OffsetAt(c.text, c.cursor), [lines[0][0]])
    ensures Run(ctx, Program(lines, 0), c)
            == Thrown(Yield(ctx, Yield(ctx, c).(text := d, cursor := Position(c.cursor.line, c.cursor.character + 1))))
  {
    var rest := Program(lines, 1);
    var c3 := Yield(ctx, Yield(ctx, c).(text := d, cursor := Position(c.cursor.line, c.cursor.character + 1)));
    assert Run(ctx, Program(lines, 0), c) == Run(ctx, LineTail(lines, 0, 0) + rest, c) by {
      LineHead(ctx, lines, 0, c);
    }
    assert Run(ctx, LineTail(lines, 0, 0) + rest, c) == Run(ctx, LineTail(lines, 0, 1) + rest, c3) by {
      CharTyped(ctx, lines, 0, 0, rest, c, d);
    }
    assert Run(ctx, LineTail(lines, 0, 1) + rest, c3) == Thrown(c3) by {
      assert c3.cancel && !c3.finish;
      CharThrows(ctx, lines, 0, 1, rest, c3);
    }
  }

  /** A cancel given during the pause after the first character, when the
      first line has at least two characters: that one character has been
      typed at the start of the gap, and the original text is written over
      the original range of the document as it then stands. */
  lemma CancelAfterFirstCharacter(doc: string, sel: Range, newCode: string, env: seq<Tick>)
    requires Before(sel.start, sel.end) && ValidPosition(doc, sel.start)
    requires |newCode| >= 2 && newCode[0] != '\n' && newCode[1] != '\n'
    requires |env| >= 3 && env[0] == env[1] == Tick(false, false, false) && env[2] == Tick(false, true, false)
    requires !TickAt(env, 3).fail
    ensures var f := Play(doc, sel, newCode, env);
            var s := OffsetAt(doc, sel.start);
            var e := OffsetAt(doc, sel.end);
            s <= e && f.outcome == RolledBack && f.selection == sel
            && f.cancelRequested && f.finishRequested == TickAt(env, 3).finish
            && f.text == ReplaceRange(doc[..s] + [newCode[0]] + doc[e..], sel, TextIn(doc, sel))
  {
    var c := ThrownAfterFirstCharacter(doc, sel, newCode, env);
    PlayThrough(doc, sel, newCode, env, Thrown(c));
    CatchRollsBack(Context(doc, sel, newCode, env), c);
  }

  /** The typing loops of `CancelAfterFirstCharacter`, and where they throw. */
  lemma ThrownAfterFirstCharacter(doc: string, sel: Range, newCode: string, env: seq<Tick>) returns (c: Cfg)
    requires Before(sel.start, sel.end) && ValidPosition(doc, sel.start)
    requires |newCode| >= 2 && newCode[0] != '\n' && newCode[1] != '\n'
    requires |env| >= 3 && env[0] == env[1] == Tick(false, false, false) && env[2] == Tick(false, true, false)
    ensures var s := OffsetAt(doc, sel.start);
            var e := OffsetAt(doc, sel.end);
            s <= e && c.text == doc[..s] + [newCode[0]] + doc[e..] && c.cancel && !c.finish && c.k == 3
            && Run(Context(doc, sel, newCode, env), Program(Split(newCode), 0), Deleted(doc, sel, newCode, env)) == Thrown(c)
  {
    var s := OffsetAt(doc, sel.start);
    var lines := Split(newCode);
    FirstLineStart(newCode);
    var e := OffsetAt(doc, sel.end);
    var ctx := Context(doc, sel, newCode, env);
    var c2 := Deleted(doc, sel, newCode, env);
    assert s <= e && c2.text == doc[..s] + doc[e..] && OffsetAt(c2.text, c2.cursor) == s
           && c2.cursor == sel.start && c2.k == 1 && !c2.finish && !c2.cancel by {
      DeletionKeepsStart(doc, sel, newCode, env);
    }
    var d := InsertAt(c2.text, s, [newCode[0]]);
    c := Yield(ctx, Yield(ctx, c2).(text := d, cursor := Position(sel.start.line, sel.start.character + 1)));
    assert Run(ctx, Program(lines, 0), c2) == Thrown(c) by {
      FirstCharThenCancel(ctx, lines, c2, d);
    }
    assert c.text == d == doc[..s] + [newCode[0]] + doc[e..] by {
      assert c2.text[..s] == doc[..s] && c2.text[s..] == doc[e..];
    }
    assert c.cancel && !c.finish && c.k == 3;
  }

  /** Code that starts with two characters other than '\n' has a first
      line of at least two characters. */
  lemma FirstLineStart(code: string)
    requires |code| >= 2 && code[0] != '\n' && code[1] != '\n'
    ensures |Split(code)[0]| >= 2 && Split(code)[0][0] == code[0]
  {
    assert '\n' !in code[..2];
    LineEndAtLeast(code, 2);
  }

  /** The error handler after a cancel, when the rollback edit is accepted. */
  lemma CatchRollsBack(ctx: Ctx, c: Cfg)
    requires ValidCtx(ctx) && c.cancel && !TickAt(ctx.env, c.k).fail
    ensures Catch(ctx, c) == Final(ReplaceRange(c.text, ctx.originalSelection, ctx.originalCode), ctx.originalSelection,
                                   c.finish || TickAt(ctx.env, c.k).finish, true, RolledBack)
  {
  }

  /** When the selection is the whole document, a cancel after one typed
      character gives the document back: "abc" replaced by "xyz" and
      cancelled during the pause after the "x" is "abc" again. */
  lemma CancelAfterOneCharacter(doc: string, sel: Range, env: seq<Tick>)
    requires doc == "abc" && sel == Range(Position(0, 0), Position(0, 3))
    requires env == [Tick(false, false, false), Tick(false, false, false), Tick(false, true, false)]
    ensures Play(doc, sel, "xyz", env) == Final(doc, sel, false, true, RolledBack)
  {
    assert ValidPosition(doc, sel.start) && ReplaceRange(doc[..0] + ['x'] + doc[3..], sel, TextIn(doc, sel)) == "abc" by {
      assert LineEnd(doc) == 3 by {
        LineEndAppend(doc, "");
        assert doc + "" == doc;
      }
      assert TextIn(doc, sel) == "abc";
      assert doc[..0] + ['x'] + doc[3..] == "x";
      assert LineEnd("x") == 1;
    }
    CancelAfterFirstCharacter(doc, sel, "xyz", env);
  }

  /** A finish request during the deletion: nothing is typed, and the new
      code from the selection start's document offset on is inserted in one
      edit. */
  lemma FinishAtOnce(doc: string, sel: Range, newCode: string, env: seq<Tick>)
    requires Before(sel.start, sel.end) && ValidPosition(doc, sel.start)
    requires |env| > 0 && env[0].finish && !env[0].fail && !TickAt(env, 1).fail
    ensures var f := Play(doc, sel, newCode, env);
            var s := OffsetAt(doc, sel.start);
            var e := OffsetAt(doc, sel.end);
            s <= e
            && f == Final(doc[..s] + Substr(newCode, s) + doc[e..], Range(sel.start, sel.start),
                          true, env[0].cancel || TickAt(env, 1).cancel, Flushed)
  {
    var s := OffsetAt(doc, sel.start);
    var e := OffsetAt(doc, sel.end);
    var ctx := Context(doc, sel, newCode, env);
    var c2 := Deleted(doc, sel, newCode, env);
    DeletionKeepsStart(doc, sel, newCode, env);
    PlayUnfolds(doc, sel, newCode, env);
    LineHead(ctx, Split(newCode), 0, c2);
    assert c2.finish && c2.k == 1 && c2.cursor == sel.start;
    var c3 := Yield(ctx, c2);
    assert Play(doc, sel, newCode, env) == EndWith(c3.(text := InsertAt(c2.text, s, Substr(newCode, s))), Flushed);
    assert c2.text[..s] == doc[..s] && c2.text[s..] == doc[e..];
  }

  /** Both commands given at once: finish is tested first, so the rest of
      the new code is flushed and no rollback happens, although the cancel
      is recorded. */
  lemma FinishWinsOverCancel(doc: string, sel: Range, newCode: string, env: seq<Tick>)
    requires Before(sel.start, sel.end) && ValidPosition(doc, sel.start)
    requires |env| > 0 && env[0] == Tick(true, true, false) && !TickAt(env, 1).fail
    ensures var f := Play(doc, sel, newCode, env);
            f.outcome == Flushed && f.finishRequested && f.cancelRequested
  {
    FinishAtOnce(doc, sel, newCode, env);
  }

  /** The same at any point of the loops: once finish is pending, a
      pending cancel is never acted on; the remaining steps do nothing and
      the finish edit, when accepted, inserts the rest of the new code
      from the cursor's offset and ends the run flushed, with both
      requests recorded. */
  lemma {:induction false} FinishPendingFlushes(ctx: Ctx, prog: seq<Instr>, c: Cfg)
    requires ValidCtx(ctx) && c.finish && !TickAt(ctx.env, c.k).fail
    ensures var f := Conclude(ctx, Run(ctx, prog, c));
            var o := OffsetAt(c.text, c.cursor);
            f.outcome == Flushed && f.finishRequested && (c.cancel ==> f.cancelRequested) &&
            f.text == c.text[..o] + Substr(ctx.newCode, o) + c.text[o..] && f.selection == c.selection
  {
    FinishAbsorbs(ctx, prog, c);
  }

  /** Typing one character at a valid cursor with no request pending and
      the edit applied: exactly that character is inserted at the cursor's
      offset, and the cursor moves one column right, which is one offset
      further, after two waits (the edit and the pause). */
  lemma TypeCharStep(ctx: Ctx, c: Cfg, ch: char)
    requires !c.finish && !c.cancel && !TickAt(ctx.env, c.k).fail
    requires ValidPosition(c.text, c.cursor) && ch != '\n'
    ensures var n := Step(ctx, TypeChar(ch), c);
            var o := OffsetAt(c.text, c.cursor);
            n.Continue?
            && n.next.text == c.text[..o] + [ch] + c.text[o..]
            && n.next.cursor == Position(c.cursor.line, c.cursor.character + 1)
            && ValidPosition(n.next.text, n.next.cursor)
            && OffsetAt(n.next.text, n.next.cursor) == o + 1
            && n.next.k == c.k + 2
  {
    var o := OffsetAt(c.text, c.cursor);
    var c1 := Yield(ctx, Yield(ctx, c).(text := InsertAt(c.text, o, [ch]),
                                        cursor := Position(c.cursor.line, c.cursor.character + 1)));
    assert Step(ctx, TypeChar(ch), c) == Continue(c1);
    CursorAdvances(c, ch, c1);
  }

  /** Typing a line break: '\n' is inserted at the cursor's offset and the
      cursor moves to column 0 of the next line, one offset further. */
  lemma BreakLineStep(ctx: Ctx, c: Cfg)
    requires !c.finish && !TickAt(ctx.env, c.k).fail
    requires ValidPosition(c.text, c.cursor)
    ensures var n := Step(ctx, BreakLine, c);
            var o := OffsetAt(c.text, c.cursor);
            n.Continue?
            && n.next.text == c.text[..o] + "\n" + c.text[o..]
            && n.next.cursor == Position(c.cursor.line + 1, 0)
            && ValidPosition(n.next.text, n.next.cursor)
            && OffsetAt(n.next.text, n.next.cursor) == o + 1
            && n.next.k == c.k + 1
  {
    var o := OffsetAt(c.text, c.cursor);
    InsertNewlineAdvances(c.text, c.cursor, InsertAt(c.text, o, "\n"));
  }
}
