/** What a cancel does once typing has begun. A cancel given in the pause
    after the `j`-th character of line `i` is seen at the next loop head:
    what was typed so far stays typed (with the line break after the line,
    which is typed even after a cancel), and the original text is then
    written over the original range of the document as it stands. Only a
    cancel in the pause after the very last character is never seen. */
module CancelProperties {
  import opened Text
  import opened Player
  import opened PlayerProperties

  /** The waits from `from` up to `to` bring nothing. */
  predicate Quiet(env: seq<Tick>, from: nat, to: nat)
  {
    forall t :: from <= t < to ==> TickAt(env, t) == Tick(false, false, false)
  }

  lemma QuietWithin(env: seq<Tick>, from: nat, to: nat, from': nat, to': nat)
    requires Quiet(env, from, to) && from <= from' && to' <= to
    ensures Quiet(env, from', to')
  {
  }

  /** The waits the steps `p` go through when nothing interrupts them: an
      edit and a pause per character, an edit per line break. */
  function Waits(p: seq<Instr>): nat
    decreases |p|
  {
    if p == [] then 0
    else (match p[0] case StartLine => 0 case TypeChar(_) => 2 case BreakLine => 1) + Waits(p[1..])
  }

  /** One step taken with no request pending and nothing happening during
      its waits. */
  function Advance(c: Cfg, step: Instr): Cfg
  {
    match step
      case StartLine => c
      case TypeChar(ch) =>
        c.(text := InsertAt(c.text, OffsetAt(c.text, c.cursor), [ch]),
           cursor := Position(c.cursor.line, c.cursor.character + 1), k := c.k + 2)
      case BreakLine =>
        c.(text := InsertAt(c.text, OffsetAt(c.text, c.cursor), "\n"), cursor := Position(c.cursor.line + 1, 0), k := c.k + 1)
  }

  /** The steps `p` taken one after the other with nothing happening. */
  function Quietly(p: seq<Instr>, c: Cfg): Cfg
    decreases |p|
  {
    if p == [] then c else Quietly(p[1..], Advance(c, p[0]))
  }

  /** With no request pending and quiet waits, a step goes on to `Advance`. */
  lemma AdvanceStep(ctx: Ctx, step: Instr, c: Cfg)
    requires !c.finish && !c.cancel
    requires !step.StartLine? ==> TickAt(ctx.env, c.k) == Tick(false, false, false)
    requires step.TypeChar? ==> TickAt(ctx.env, c.k + 1) == Tick(false, false, false)
    ensures Step(ctx, step, c) == Continue(Advance(c, step))
  {
  }

  /** Steps `p` with nothing happening during their waits are taken one
      after the other, and the loops go on with what follows them from
      `Quietly(p, c)`. */
  lemma {:induction false} QuietRun(ctx: Ctx, p: seq<Instr>, q: seq<Instr>, c: Cfg)
    requires !c.finish && !c.cancel && Quiet(ctx.env, c.k, c.k + Waits(p))
    ensures Run(ctx, p + q, c) == Run(ctx, q, Quietly(p, c))
    decreases |p|
  {
    if p == [] {
      assert p + q == q;
    } else {
      var c1 := Advance(c, p[0]);
      assert (p + q)[0] == p[0] && (p + q)[1..] == p[1..] + q;
      assert Waits(p) == c1.k - c.k + Waits(p[1..]);
      AdvanceStep(ctx, p[0], c);
      RunContinues(ctx, p + q, c, c1);
      QuietWithin(ctx.env, c.k, c.k + Waits(p), c1.k, c1.k + Waits(p[1..]));
      QuietRun(ctx, p[1..], q, c1);
    }
  }

  /** One quiet step types its text at the cursor and moves the cursor
      just after it. */
  lemma AdvanceTypes(c: Cfg, step: Instr, head: string) returns (c1: Cfg)
    requires ValidPosition(c.text, c.cursor) && (step.TypeChar? ==> step.ch != '\n')
    requires head == Output([step])
    ensures c1 == Advance(c, step)
    ensures var o := OffsetAt(c.text, c.cursor);
            c1.text == InsertAt(c.text, o, head)
            && ValidPosition(c1.text, c1.cursor) && OffsetAt(c1.text, c1.cursor) == o + |head|
  {
    var o := OffsetAt(c.text, c.cursor);
    c1 := Advance(c, step);
    assert [step][1..] == [];
    match step {
      case StartLine =>
        assert head == "";
        assert c.text[..o] + head + c.text[o..] == c.text;
      case TypeChar(ch) =>
        assert head == [ch];
        CursorAdvances(c, ch, c1);
      case BreakLine =>
        assert head == "\n";
        BreakCursorAdvances(c, c1);
    }
  }

  /** Steps taken with nothing happening leave the requests and the
      selection as they were, and their waits gone by. */
  lemma {:induction false} QuietlyCounts(p: seq<Instr>, c: Cfg)
    ensures var c' := Quietly(p, c);
            c'.k == c.k + Waits(p) && c'.finish == c.finish && c'.cancel == c.cancel && c'.selection == c.selection
    decreases |p|
  {
    if p != [] {
      QuietlyCounts(p[1..], Advance(c, p[0]));
    }
  }

  /** What steps `p` taken with nothing happening type: their text at the
      cursor, with the cursor just after it. */
  lemma {:induction false} QuietlyTypes(p: seq<Instr>, c: Cfg)
    requires TypesNoBreak(p) && ValidPosition(c.text, c.cursor)
    ensures var c' := Quietly(p, c);
            var o := OffsetAt(c.text, c.cursor);
            c'.text == InsertAt(c.text, o, Output(p))
            && ValidPosition(c'.text, c'.cursor) && OffsetAt(c'.text, c'.cursor) == o + |Output(p)|
    decreases |p|
  {
    var o := OffsetAt(c.text, c.cursor);
    if p == [] {
      assert c.text[..o] + "" + c.text[o..] == c.text;
    } else {
      TypesNoBreakTail(p);
      assert p == [p[0]] + p[1..];
      OutputAppend([p[0]], p[1..]);
      var c1 := AdvanceTypes(c, p[0], Output([p[0]]));
      QuietlyTypes(p[1..], c1);
      InsertAtTwice(c.text, o, Output([p[0]]), Output(p[1..]));
    }
  }

  lemma WaitsAppend(a: seq<Instr>, b: seq<Instr>)
    ensures Waits(a + b) == Waits(a) + Waits(b)
    decreases |a|
  {
    if a != [] {
      assert (a + b)[0] == a[0] && (a + b)[1..] == a[1..] + b;
      WaitsAppend(a[1..], b);
    } else {
      assert a + b == b;
    }
  }

  lemma {:induction false} WaitsChars(s: string)
    ensures Waits(Chars(s)) == 2 * |s|
    decreases |s|
  {
    if s != [] {
      assert Chars(s)[1..] == Chars(s[1..]);
      WaitsChars(s[1..]);
    }
  }

  lemma {:induction false} CharsAppend(a: string, b: string)
    ensures Chars(a + b) == Chars(a) + Chars(b)
    decreases |a|
  {
    if a == [] {
      assert a + b == b;
    } else {
      assert (a + b)[0] == a[0] && (a + b)[1..] == a[1..] + b;
      CharsAppend(a[1..], b);
      assert Chars(a + b) == [TypeChar(a[0])] + (Chars(a[1..]) + Chars(b));
    }
  }

  lemma TypesNoBreakPrefix(a: seq<Instr>, b: seq<Instr>)
    requires TypesNoBreak(a + b)
    ensures TypesNoBreak(a)
  {
    assert forall k :: 0 <= k < |a| ==> (a + b)[k] == a[k];
  }

  /** The steps for the lines before line `i`. */
  function StepsBefore(lines: seq<string>, i: nat): seq<Instr>
    requires i <= |lines|
  {
    if i == 0 then [] else StepsBefore(lines, i - 1) + ([StartLine] + LineTail(lines, i - 1, 0))
  }

  /** The program is the steps for the lines before line `i`, then those
      for line `i` on. */
  lemma {:induction false} ProgramFrom(lines: seq<string>, i: nat)
    requires i <= |lines|
    ensures Program(lines, 0) == StepsBefore(lines, i) + Program(lines, i)
    decreases i
  {
    if i == 0 {
      assert StepsBefore(lines, 0) + Program(lines, 0) == Program(lines, 0);
    } else {
      ProgramFrom(lines, i - 1);
      var h := LineBoundary(lines, i);
      Assoc(StepsBefore(lines, i - 1), h, Program(lines, i));
    }
  }

  /** Line `i - 1` is where the steps before line `i` and the program
      from line `i - 1` meet. */
  lemma LineBoundary(lines: seq<string>, i: nat) returns (h: seq<Instr>)
    requires 0 < i <= |lines|
    ensures Program(lines, i - 1) == h + Program(lines, i)
    ensures StepsBefore(lines, i) == StepsBefore(lines, i - 1) + h
  {
    h := [StartLine] + LineTail(lines, i - 1, 0);
  }

  /** A line's steps split after its first `j` characters. */
  lemma LineTailSplit(lines: seq<string>, i: nat, j: nat)
    requires i < |lines| && j <= |lines[i]|
    ensures LineTail(lines, i, 0) == Chars(lines[i][..j]) + LineTail(lines, i, j)
  {
    var line := lines[i];
    assert line[0..] == line[..j] + line[j..];
    CharsAppend(line[..j], line[j..]);
  }

  lemma Assoc<T>(x: seq<T>, y: seq<T>, z: seq<T>)
    ensures x + (y + z) == (x + y) + z
  {
  }

  lemma Regroup<T>(x: seq<T>, y: seq<T>, c: seq<T>, t: seq<T>, r: seq<T>)
    ensures x + ((y + (c + t)) + r) == (x + y + c) + (t + r)
  {
  }

  /** The program split after the first `j` characters of line `i`. */
  lemma ProgramAt(lines: seq<string>, i: nat, j: nat)
    requires i < |lines| && j <= |lines[i]|
    ensures Program(lines, 0)
            == (StepsBefore(lines, i) + [StartLine] + Chars(lines[i][..j])) + (LineTail(lines, i, j) + Program(lines, i + 1))
  {
    ProgramFrom(lines, i);
    LineTailSplit(lines, i, j);
    Regroup(StepsBefore(lines, i), [StartLine], Chars(lines[i][..j]), LineTail(lines, i, j), Program(lines, i + 1));
  }

  /** The steps before the `j`-th character of line `i` (numbered from
      one). */
  function StepsUpTo(lines: seq<string>, i: nat, j: nat): seq<Instr>
    requires i < |lines| && j <= |lines[i]|
  {
    StepsBefore(lines, i) + [StartLine] + Chars(lines[i][..j])
  }

  lemma StepsUpToTypesNoBreak(lines: seq<string>, i: nat, j: nat)
    requires forall l :: 0 <= l < |lines| ==> '\n' !in lines[l]
    requires i < |lines| && j <= |lines[i]|
    ensures TypesNoBreak(StepsUpTo(lines, i, j))
  {
    ProgramAt(lines, i, j);
    ProgramTypesNoBreak(lines, 0);
    TypesNoBreakPrefix(StepsUpTo(lines, i, j), LineTail(lines, i, j) + Program(lines, i + 1));
  }

  lemma StepsUpToOutput(lines: seq<string>, i: nat, j: nat)
    requires i < |lines| && j <= |lines[i]|
    ensures Output(StepsUpTo(lines, i, j)) == Output(StepsBefore(lines, i)) + lines[i][..j]
  {
    var sb := StepsBefore(lines, i);
    OutputAppend(sb + [StartLine], Chars(lines[i][..j]));
    OutputAppend(sb, [StartLine]);
    OutputChars(lines[i][..j]);
  }

  lemma StepsUpToWaits(lines: seq<string>, i: nat, j: nat)
    requires i < |lines| && j <= |lines[i]|
    ensures Waits(StepsUpTo(lines, i, j)) == Waits(StepsBefore(lines, i)) + 2 * j
  {
    var sb := StepsBefore(lines, i);
    WaitsAppend(sb + [StartLine], Chars(lines[i][..j]));
    WaitsAppend(sb, [StartLine]);
    WaitsChars(lines[i][..j]);
  }

  /** Waits that bring no request and no rejected edit are quiet. */
  lemma QuietBefore(env: seq<Tick>, from: nat, to: nat)
    requires NoFinish(env) && NoFailure(env)
    requires forall t :: from <= t < to ==> !TickAt(env, t).cancel
    ensures Quiet(env, from, to)
  {
    forall t | from <= t < to
      ensures TickAt(env, t) == Tick(false, false, false)
    {
      var x := TickAt(env, t);
      assert !x.finish && !x.cancel && !x.fail;
    }
  }

  /** What the cancel leaves to be typed once it has arrived in the pause
      after the `j`-th character of line `i`: that character itself, and
      the line break when it ends a line that gets one. */
  function CancelTailText(lines: seq<string>, i: nat, j: nat): string
    requires i < |lines| && 1 <= j <= |lines[i]|
  {
    [lines[i][j - 1]] + (if j == |lines[i]| && BreaksAfter(lines, i) then "\n" else "")
  }

  /** The text typed by the time a cancel given in the pause after the
      `j`-th character of line `i` is seen: the lines before, the first `j`
      characters of line `i`, and its line break when `j` is its end and
      it gets one. */
  function TypedUntilCancel(lines: seq<string>, i: nat, j: nat): string
    requires i < |lines| && j <= |lines[i]|
  {
    Output(StepsBefore(lines, i)) + lines[i][..j] + (if j == |lines[i]| && BreaksAfter(lines, i) then "\n" else "")
  }

  /** Where the loops stand once the `j`-th character of line `i` is
      typed with a cancel in the pause after it: that character typed with
      the cancel recorded, then the line break when it ends a line that
      gets one. */
  function CancelEnd(lines: seq<string>, i: nat, j: nat, c: Cfg): Cfg
    requires i < |lines| && 1 <= j <= |lines[i]|
  {
    var c1 := Advance(c, TypeChar(lines[i][j - 1])).(cancel := true);
    if j == |lines[i]| && BreaksAfter(lines, i) then Advance(c1, BreakLine) else c1
  }

  /** How the typing loops leave after the cancel: normally when the
      cancel came after the last character of the last line, by raising
      otherwise. */
  function CancelExit(lines: seq<string>, i: nat, j: nat, e: Cfg): Exit
    requires i < |lines|
  {
    if i == |lines| - 1 && j == |lines[i]| then Normal(e) else Thrown(e)
  }

  /** The `j`-th character of line `i` typed, with a cancel in the pause
      after it, and what follows: the loops raise at the next loop head,
      unless it was the last character of the last line. */
  lemma CancelTail(ctx: Ctx, lines: seq<string>, i: nat, j: nat, c: Cfg)
    requires i < |lines| && 1 <= j <= |lines[i]|
    requires !c.finish && !c.cancel && NoFinish(ctx.env) && NoFailure(ctx.env)
    requires !TickAt(ctx.env, c.k).cancel && TickAt(ctx.env, c.k + 1).cancel
    ensures var e := CancelEnd(lines, i, j, c);
            Run(ctx, LineTail(lines, i, j - 1) + Program(lines, i + 1), c) == CancelExit(lines, i, j, e)
  {
    var c1 := CancelledChar(ctx, lines, i, j, c);
    AfterCancel(ctx, lines, i, j, c1);
  }

  /** The `j`-th character typed, and the cancel taken in the pause after
      it. */
  lemma CancelledChar(ctx: Ctx, lines: seq<string>, i: nat, j: nat, c: Cfg) returns (c1: Cfg)
    requires i < |lines| && 1 <= j <= |lines[i]|
    requires !c.finish && !c.cancel && NoFinish(ctx.env) && NoFailure(ctx.env)
    requires !TickAt(ctx.env, c.k).cancel && TickAt(ctx.env, c.k + 1).cancel
    ensures c1 == Advance(c, TypeChar(lines[i][j - 1])).(cancel := true)
    ensures Run(ctx, LineTail(lines, i, j - 1) + Program(lines, i + 1), c) == Run(ctx, LineTail(lines, i, j) + Program(lines, i + 1), c1)
  {
    var d := InsertAt(c.text, OffsetAt(c.text, c.cursor), [lines[i][j - 1]]);
    assert !TickAt(ctx.env, c.k).fail && !TickAt(ctx.env, c.k).finish && !TickAt(ctx.env, c.k + 1).finish;
    c1 := Advance(c, TypeChar(lines[i][j - 1])).(cancel := true);
    assert Yield(ctx, Yield(ctx, c).(text := d, cursor := Position(c.cursor.line, c.cursor.character + 1))) == c1;
    CharTyped(ctx, lines, i, j - 1, Program(lines, i + 1), c, d);
  }

  /** With the cancel pending after the `j`-th character, the loops raise
      at the next loop head, after typing the line break when the line
      ends there and gets one. */
  lemma AfterCancel(ctx: Ctx, lines: seq<string>, i: nat, j: nat, c1: Cfg)
    requires i < |lines| && 1 <= j <= |lines[i]|
    requires c1.cancel && !c1.finish && NoFinish(ctx.env) && NoFailure(ctx.env)
    ensures var e := if j == |lines[i]| && BreaksAfter(lines, i) then Advance(c1, BreakLine) else c1;
            Run(ctx, LineTail(lines, i, j) + Program(lines, i + 1), c1) == CancelExit(lines, i, j, e)
  {
    var rest := Program(lines, i + 1);
    if j < |lines[i]| {
      CharThrows(ctx, lines, i, j, rest, c1);
    } else if BreaksAfter(lines, i) {
      var d2 := InsertAt(c1.text, OffsetAt(c1.text, c1.cursor), "\n");
      assert !TickAt(ctx.env, c1.k).fail && !TickAt(ctx.env, c1.k).finish;
      BreakTyped(ctx, lines, i, rest, c1, d2);
      assert Yield(ctx, c1).(text := d2, cursor := Position(c1.cursor.line + 1, 0)) == Advance(c1, BreakLine);
      LineHead(ctx, lines, i + 1, Advance(c1, BreakLine));
    } else {
      BreakSkipped(ctx, lines, i, rest, c1);
      if i + 1 < |lines| {
        LineHead(ctx, lines, i + 1, c1);
      }
    }
  }

  /** What the tail after a cancel types. */
  lemma CancelEndTypes(lines: seq<string>, i: nat, j: nat, c: Cfg, e: Cfg)
    requires forall l :: 0 <= l < |lines| ==> '\n' !in lines[l]
    requires i < |lines| && 1 <= j <= |lines[i]| && ValidPosition(c.text, c.cursor)
    requires e == CancelEnd(lines, i, j, c)
    ensures e.text == InsertAt(c.text, OffsetAt(c.text, c.cursor), CancelTailText(lines, i, j))
    ensures e.cancel && e.finish == c.finish && e.selection == c.selection
  {
    var ch := lines[i][j - 1];
    assert ch in lines[i];
    var c1 := CancelledCharTypes(c, ch);
    if j == |lines[i]| && BreaksAfter(lines, i) {
      assert e == Advance(c1, BreakLine);
      assert CancelTailText(lines, i, j) == [ch] + "\n";
      BreakAfterCancelTypes(c, ch, c1);
    } else {
      assert e == c1;
      assert CancelTailText(lines, i, j) == [ch];
    }
  }

  /** The cancelled character is typed at the cursor. */
  lemma CancelledCharTypes(c: Cfg, ch: char) returns (c1: Cfg)
    requires ValidPosition(c.text, c.cursor) && ch != '\n'
    ensures c1 == Advance(c, TypeChar(ch)).(cancel := true)
    ensures var o := OffsetAt(c.text, c.cursor);
            c1.text == InsertAt(c.text, o, [ch]) && ValidPosition(c1.text, c1.cursor) && OffsetAt(c1.text, c1.cursor) == o + 1
    ensures c1.cancel && c1.finish == c.finish && c1.selection == c.selection
  {
    assert [TypeChar(ch)][1..] == [];
    var a1 := AdvanceTypes(c, TypeChar(ch), [ch]);
    c1 := a1.(cancel := true);
  }

  /** The line break after the cancelled character is typed just after it. */
  lemma BreakAfterCancelTypes(c: Cfg, ch: char, c1: Cfg)
    requires ValidPosition(c1.text, c1.cursor)
    requires var o := OffsetAt(c.text, c.cursor);
             o <= |c.text| && c1.text == InsertAt(c.text, o, [ch]) && OffsetAt(c1.text, c1.cursor) == o + 1
    ensures Advance(c1, BreakLine).text == InsertAt(c.text, OffsetAt(c.text, c.cursor), [ch] + "\n")
    ensures Advance(c1, BreakLine).cancel == c1.cancel && Advance(c1, BreakLine).finish == c1.finish
    ensures Advance(c1, BreakLine).selection == c1.selection
  {
    assert [BreakLine][1..] == [];
    var a2 := AdvanceTypes(c1, BreakLine, "\n");
    InsertAtTwice(c.text, OffsetAt(c.text, c.cursor), [ch], "\n");
  }

  /** The typing loops when the first cancel arrives in the pause after
      the `j`-th character of line `i`, and nothing else happens: they
      raise at the next loop head; only after the last character of the
      last line is there no loop head left, and they end normally with the
      cancel pending. */
  lemma LoopsCancelled(ctx: Ctx, lines: seq<string>, i: nat, j: nat, c0: Cfg, p: nat) returns (c2: Cfg, c: Cfg)
    requires i < |lines| && 1 <= j <= |lines[i]|
    requires !c0.finish && !c0.cancel && NoFinish(ctx.env) && NoFailure(ctx.env)
    requires p == c0.k + Waits(StepsBefore(lines, i)) + 2 * j - 1
    requires (forall t :: c0.k <= t < p ==> !TickAt(ctx.env, t).cancel) && TickAt(ctx.env, p).cancel
    ensures c2 == Quietly(StepsUpTo(lines, i, j - 1), c0) && c == CancelEnd(lines, i, j, c2)
    ensures Run(ctx, Program(lines, 0), c0) == CancelExit(lines, i, j, c)
  {
    c2 := PrefixCounts(lines, i, j, c0);
    CancelNext(ctx.env, c0.k, c2.k, p);
    CancelTail(ctx, lines, i, j, c2);
    PrefixRuns(ctx, lines, i, j, c0);
    c := CancelEnd(lines, i, j, c2);
  }

  /** Where the steps before the cancelled character leave the loops. */
  lemma PrefixCounts(lines: seq<string>, i: nat, j: nat, c0: Cfg) returns (c2: Cfg)
    requires i < |lines| && 1 <= j <= |lines[i]|
    ensures c2 == Quietly(StepsUpTo(lines, i, j - 1), c0)
    ensures c2.k == c0.k + Waits(StepsBefore(lines, i)) + 2 * (j - 1)
    ensures c2.finish == c0.finish && c2.cancel == c0.cancel
  {
    c2 := Quietly(StepsUpTo(lines, i, j - 1), c0);
    QuietlyCounts(StepsUpTo(lines, i, j - 1), c0);
    StepsUpToWaits(lines, i, j - 1);
  }

  /** The loops take the steps before the cancelled character one after
      the other. */
  lemma PrefixRuns(ctx: Ctx, lines: seq<string>, i: nat, j: nat, c0: Cfg)
    requires i < |lines| && 1 <= j <= |lines[i]|
    requires !c0.finish && !c0.cancel && NoFinish(ctx.env) && NoFailure(ctx.env)
    requires forall t :: c0.k <= t < c0.k + Waits(StepsBefore(lines, i)) + 2 * (j - 1) ==> !TickAt(ctx.env, t).cancel
    ensures Run(ctx, Program(lines, 0), c0)
            == Run(ctx, LineTail(lines, i, j - 1) + Program(lines, i + 1), Quietly(StepsUpTo(lines, i, j - 1), c0))
  {
    var pre := StepsUpTo(lines, i, j - 1);
    var rest := LineTail(lines, i, j - 1) + Program(lines, i + 1);
    ProgramAt(lines, i, j - 1);
    StepsUpToWaits(lines, i, j - 1);
    QuietBefore(ctx.env, c0.k, c0.k + Waits(pre));
    QuietRun(ctx, pre, rest, c0);
  }

  /** The tick before the first cancel has none. */
  lemma CancelNext(env: seq<Tick>, from: nat, k: nat, p: nat)
    requires from <= k && k + 1 == p
    requires (forall t :: from <= t < p ==> !TickAt(env, t).cancel) && TickAt(env, p).cancel
    ensures !TickAt(env, k).cancel && TickAt(env, k + 1).cancel
  {
  }

  /** What the steps before the cancelled character type. */
  lemma PrefixTypes(lines: seq<string>, i: nat, j: nat, c0: Cfg, c2: Cfg)
    requires forall l :: 0 <= l < |lines| ==> '\n' !in lines[l]
    requires i < |lines| && 1 <= j <= |lines[i]| && ValidPosition(c0.text, c0.cursor)
    requires c2 == Quietly(StepsUpTo(lines, i, j - 1), c0)
    ensures var a := Output(StepsBefore(lines, i)) + lines[i][..j - 1];
            var o := OffsetAt(c0.text, c0.cursor);
            c2.text == InsertAt(c0.text, o, a) && ValidPosition(c2.text, c2.cursor) && OffsetAt(c2.text, c2.cursor) == o + |a|
    ensures c2.finish == c0.finish && c2.selection == c0.selection
  {
    StepsUpToTypesNoBreak(lines, i, j - 1);
    StepsUpToOutput(lines, i, j - 1);
    QuietlyTypesAs(StepsUpTo(lines, i, j - 1), c0, c2, Output(StepsBefore(lines, i)) + lines[i][..j - 1]);
  }

  /** Quiet steps that type `a`, with what they keep. */
  lemma QuietlyTypesAs(p: seq<Instr>, c0: Cfg, c2: Cfg, a: string)
    requires TypesNoBreak(p) && ValidPosition(c0.text, c0.cursor)
    requires c2 == Quietly(p, c0) && Output(p) == a
    ensures var o := OffsetAt(c0.text, c0.cursor);
            c2.text == InsertAt(c0.text, o, a) && ValidPosition(c2.text, c2.cursor) && OffsetAt(c2.text, c2.cursor) == o + |a|
    ensures c2.finish == c0.finish && c2.selection == c0.selection
  {
    QuietlyTypes(p, c0);
    QuietlyCounts(p, c0);
  }

  /** The text the steps before the cancelled character typed, then the
      text of the tail after it. */
  lemma CancelledTypes(lines: seq<string>, i: nat, j: nat, t0: string, o: nat, a: string, c2: Cfg, c: Cfg)
    requires forall l :: 0 <= l < |lines| ==> '\n' !in lines[l]
    requires i < |lines| && 1 <= j <= |lines[i]| && o <= |t0|
    requires c2.text == InsertAt(t0, o, a) && ValidPosition(c2.text, c2.cursor) && OffsetAt(c2.text, c2.cursor) == o + |a|
    requires c == CancelEnd(lines, i, j, c2)
    ensures c.text == InsertAt(t0, o, a + CancelTailText(lines, i, j))
    ensures c.cancel && c.finish == c2.finish && c.selection == c2.selection
  {
    CancelEndTypes(lines, i, j, c2, c);
    InsertAtTwice(t0, o, a, CancelTailText(lines, i, j));
  }

  /** What is typed until the cancel: what the steps before the cancelled
      character type, then the tail. */
  lemma TypedUntilCancelSplit(lines: seq<string>, i: nat, j: nat)
    requires i < |lines| && 1 <= j <= |lines[i]|
    ensures TypedUntilCancel(lines, i, j) == Output(StepsBefore(lines, i)) + lines[i][..j - 1] + CancelTailText(lines, i, j)
  {
    var a := Output(StepsBefore(lines, i));
    var line := lines[i];
    var brk := if j == |line| && BreaksAfter(lines, i) then "\n" else "";
    assert line[..j - 1] + [line[j - 1]] == line[..j];
    assert TypedUntilCancel(lines, i, j) == a + line[..j] + brk;
    assert CancelTailText(lines, i, j) == [line[j - 1]] + brk;
    Regroup(a, [], line[..j - 1], [line[j - 1]], brk);
  }

  /** A replacement whose typing loops see a cancel: what follows the
      loops decides the outcome. */
  lemma PlayCancelled(doc: string, sel: Range, newCode: string, env: seq<Tick>, lines: seq<string>, i: nat, j: nat)
    returns (c0: Cfg, c2: Cfg, c: Cfg)
    requires Before(sel.start, sel.end) && ValidPosition(doc, sel.start)
    requires NoFinish(env) && NoFailure(env)
    requires lines == Split(newCode)
    requires i < |lines| && 1 <= j <= |lines[i]|
    requires forall t :: 0 <= t < Waits(StepsBefore(lines, i)) + 2 * j ==> !TickAt(env, t).cancel
    requires TickAt(env, Waits(StepsBefore(lines, i)) + 2 * j).cancel
    ensures c0 == Deleted(doc, sel, newCode, env)
    ensures c2 == Quietly(StepsUpTo(lines, i, j - 1), c0) && c == CancelEnd(lines, i, j, c2)
    ensures Play(doc, sel, newCode, env) == Conclude(Context(doc, sel, newCode, env), CancelExit(lines, i, j, c))
  {
    var p := Waits(StepsBefore(lines, i)) + 2 * j;
    c0 := DeletedQuiet(doc, sel, newCode, env, p);
    c2, c := LoopsCancelled(Context(doc, sel, newCode, env), lines, i, j, c0, p);
    PlayThrough(doc, sel, newCode, env, CancelExit(lines, i, j, c));
  }

  /** The deletion brings no request, and the cancel is still to come. */
  lemma DeletedQuiet(doc: string, sel: Range, newCode: string, env: seq<Tick>, p: nat) returns (c0: Cfg)
    requires Before(sel.start, sel.end) && 1 <= p
    requires NoFinish(env) && NoFailure(env)
    requires forall t :: 0 <= t < p ==> !TickAt(env, t).cancel
    ensures c0 == Deleted(doc, sel, newCode, env)
    ensures !c0.finish && !c0.cancel && !TickAt(env, 0).fail && c0.k == 1 && (forall t :: c0.k <= t < p ==> !TickAt(env, t).cancel)
  {
    c0 := Deleted(doc, sel, newCode, env);
    DeletedAfterOneWait(doc, sel, newCode, env);
    assert !TickAt(env, 0).cancel && !TickAt(env, 0).finish && !TickAt(env, 0).fail;
  }

  lemma DeletedAfterOneWait(doc: string, sel: Range, newCode: string, env: seq<Tick>)
    requires Before(sel.start, sel.end)
    ensures var c0 := Deleted(doc, sel, newCode, env);
            c0.k == 1 && c0.finish == TickAt(env, 0).finish && c0.cancel == TickAt(env, 0).cancel
  {
  }

  /** The configuration the loops leave with after a cancel: the typed
      text in the gap the deletion left, the cancel recorded, and no
      rejected edit in the wait after. */
  lemma CancelledState(doc: string, sel: Range, newCode: string, env: seq<Tick>, lines: seq<string>, i: nat, j: nat,
                        c0: Cfg, c2: Cfg, c: Cfg)
    requires Before(sel.start, sel.end) && ValidPosition(doc, sel.start)
    requires NoFinish(env) && NoFailure(env)
    requires forall l :: 0 <= l < |lines| ==> '\n' !in lines[l]
    requires i < |lines| && 1 <= j <= |lines[i]|
    requires c0 == Deleted(doc, sel, newCode, env)
    requires c2 == Quietly(StepsUpTo(lines, i, j - 1), c0) && c == CancelEnd(lines, i, j, c2)
    ensures var s := OffsetAt(doc, sel.start);
            var e := OffsetAt(doc, sel.end);
            s <= e <= |doc| && c.text == doc[..s] + TypedUntilCancel(lines, i, j) + doc[e..]
    ensures c.cancel && !c.finish && c.selection == Range(sel.start, sel.start) && !TickAt(env, c.k).fail
  {
    var s, e := OffsetAt(doc, sel.start), OffsetAt(doc, sel.end);
    DeletionKeepsStart(doc, sel, newCode, env);
    assert !TickAt(env, 0).finish;
    PrefixTypes(lines, i, j, c0, c2);
    var a := Output(StepsBefore(lines, i)) + lines[i][..j - 1];
    CancelledTypes(lines, i, j, c0.text, s, a, c2, c);
    TypedUntilCancelSplit(lines, i, j);
    InsertIntoGap(doc, s, e, TypedUntilCancel(lines, i, j), "");
    assert !TickAt(env, c.k).fail;
  }

  /** A cancel that first arrives in the pause after the `j`-th character
      of line `i` of the new code, with no finish request and no rejected
      edit. The text typed by then is a prefix of the whole typed text and
      stays in the document. The original text is then written over the
      original range of the document as it stands, and the selection is
      restored. A cancel in the pause after the very last character is
      never seen: the run completes with the whole text typed and the
      cancel recorded. */
  lemma CancelDuringTyping(doc: string, sel: Range, newCode: string, env: seq<Tick>, i: nat, j: nat)
    returns (typed: string, s: nat, e: nat)
    requires Before(sel.start, sel.end) && ValidPosition(doc, sel.start)
    requires NoFinish(env) && NoFailure(env)
    requires i < |Split(newCode)| && 1 <= j <= |Split(newCode)[i]|
    requires forall t :: 0 <= t < Waits(StepsBefore(Split(newCode), i)) + 2 * j ==> !TickAt(env, t).cancel
    requires TickAt(env, Waits(StepsBefore(Split(newCode), i)) + 2 * j).cancel
    ensures s == OffsetAt(doc, sel.start) && e == OffsetAt(doc, sel.end) && s <= e <= |doc|
    ensures typed == TypedUntilCancel(Split(newCode), i, j) && typed <= TypedFrom(Split(newCode), 0)
    ensures var lines := Split(newCode);
            var f := Play(doc, sel, newCode, env);
            if i == |lines| - 1 && j == |lines[i]| then
              typed == TypedFrom(lines, 0)
              && f == Final(doc[..s] + typed + doc[e..], Range(sel.start, sel.start), false, true, Completed)
            else
              f == Final(ReplaceRange(doc[..s] + typed + doc[e..], sel, TextIn(doc, sel)), sel, false, true, RolledBack)
  {
    s, e := OffsetAt(doc, sel.start), OffsetAt(doc, sel.end);
    typed := TypedUntilCancel(Split(newCode), i, j);
    TypedPrefixOfAll(Split(newCode), i, j);
    var f := PlayEndsCancelled(doc, sel, newCode, env, Split(newCode), i, j, s, e, typed);
  }

  /** `Play` after a cancel during typing, for the lines of the new code. */
  lemma PlayEndsCancelled(doc: string, sel: Range, newCode: string, env: seq<Tick>, lines: seq<string>, i: nat, j: nat,
                          s: nat, e: nat, typed: string) returns (f: Final)
    requires Before(sel.start, sel.end) && ValidPosition(doc, sel.start)
    requires NoFinish(env) && NoFailure(env)
    requires lines == Split(newCode)
    requires i < |lines| && 1 <= j <= |lines[i]|
    requires forall t :: 0 <= t < Waits(StepsBefore(lines, i)) + 2 * j ==> !TickAt(env, t).cancel
    requires TickAt(env, Waits(StepsBefore(lines, i)) + 2 * j).cancel
    requires s == OffsetAt(doc, sel.start) && e == OffsetAt(doc, sel.end) && typed == TypedUntilCancel(lines, i, j)
    ensures f == Play(doc, sel, newCode, env) && s <= e <= |doc|
    ensures if i == |lines| - 1 && j == |lines[i]| then
              f == Final(doc[..s] + typed + doc[e..], Range(sel.start, sel.start), false, true, Completed)
            else
              f == Final(ReplaceRange(doc[..s] + typed + doc[e..], sel, TextIn(doc, sel)), sel, false, true, RolledBack)
  {
    var c0, c2, c := PlayCancelled(doc, sel, newCode, env, lines, i, j);
    CancelledState(doc, sel, newCode, env, lines, i, j, c0, c2, c);
    CancelOutcome(doc, sel, newCode, env, lines, i, j, c, s, e, typed);
    f := Play(doc, sel, newCode, env);
  }

  /** How the replacement ends once the typing loops have left with the
      cancel pending. */
  lemma CancelOutcome(doc: string, sel: Range, newCode: string, env: seq<Tick>, lines: seq<string>, i: nat, j: nat,
                      c: Cfg, s: nat, e: nat, typed: string)
    requires Before(sel.start, sel.end) && NoFinish(env)
    requires i < |lines| && 1 <= j <= |lines[i]| && s <= e <= |doc|
    requires c.text == doc[..s] + typed + doc[e..]
    requires c.cancel && !c.finish && c.selection == Range(sel.start, sel.start) && !TickAt(env, c.k).fail
    ensures var f := Conclude(Context(doc, sel, newCode, env), CancelExit(lines, i, j, c));
            if i == |lines| - 1 && j == |lines[i]| then
              f == Final(doc[..s] + typed + doc[e..], Range(sel.start, sel.start), false, true, Completed)
            else
              f == Final(ReplaceRange(doc[..s] + typed + doc[e..], sel, TextIn(doc, sel)), sel, false, true, RolledBack)
  {
    var ctx := Context(doc, sel, newCode, env);
    if i == |lines| - 1 && j == |lines[i]| {
      assert Conclude(ctx, Normal(c)) == EndWith(c, Completed);
    } else {
      CatchRollsBack(ctx, c);
    }
  }

  /** What is typed until a cancel is a prefix of the whole typed text, and
      all of it after the last character of the last line. */
  lemma TypedPrefixOfAll(lines: seq<string>, i: nat, j: nat)
    requires i < |lines| && j <= |lines[i]|
    ensures TypedUntilCancel(lines, i, j) <= TypedFrom(lines, 0)
    ensures i == |lines| - 1 && j == |lines[i]| ==> TypedUntilCancel(lines, i, j) == TypedFrom(lines, 0)
  {
    var pre := TypedBefore(lines, i);
    var brk := if BreaksAfter(lines, i) then "\n" else "";
    var tail := TypedFrom(lines, i + 1);
    var head := lines[i][..j] + (if j == |lines[i]| then brk else "");
    assert TypedFrom(lines, i) == lines[i] + brk + tail;
    assert TypedUntilCancel(lines, i, j) == pre + head;
    LinePrefix(lines[i], j, brk, tail);
    if i == |lines| - 1 && j == |lines[i]| {
      assert tail == "";
      assert head == lines[i] + brk + tail;
    }
  }

  /** The text typed before line `i`, then the text from line `i` on. */
  lemma TypedBefore(lines: seq<string>, i: nat) returns (pre: string)
    requires i <= |lines|
    ensures pre == Output(StepsBefore(lines, i)) && TypedFrom(lines, 0) == pre + TypedFrom(lines, i)
  {
    pre := Output(StepsBefore(lines, i));
    ProgramFrom(lines, i);
    OutputAppend(StepsBefore(lines, i), Program(lines, i));
    ProgramOutput(lines, 0);
    ProgramOutput(lines, i);
  }

  /** The first `j` characters of a line, and its break once all of it is
      typed, come first in the line, its break and what follows. */
  lemma LinePrefix(line: string, j: nat, brk: string, tail: string)
    requires j <= |line|
    ensures var head := line[..j] + (if j == |line| then brk else "");
            head <= line + brk + tail
  {
    if j == |line| {
      assert line[..j] == line;
    } else {
      assert line + brk + tail == line[..j] + (line[j..] + brk + tail);
    }
  }

  /** A cancel in the pause after the very last character is never acted
      on: "x" typed into an empty document, with the cancel in the pause
      after it, completes with "x" in the document and the cancel recorded. */
  lemma CancelInLastPauseIgnored(doc: string, sel: Range, env: seq<Tick>)
    requires doc == "" && sel == Range(Position(0, 0), Position(0, 0))
    requires env == [Tick(false, false, false), Tick(false, false, false), Tick(false, true, false)]
    ensures Play(doc, sel, "x", env) == Final("x", sel, false, true, Completed)
  {
    var lines := OneLine("x");
    assert StepsBefore(lines, 0) == [];
    assert ValidPosition(doc, sel.start);
    assert TickAt(env, 2).cancel;
    var typed, s, e := CancelDuringTyping(doc, sel, "x", env, 0, 1);
    assert TypedFrom(lines, 0) == "x";
  }

  /** Text typed past the original range's coordinates survives the
      rollback, even when the whole document was selected: "abc" replaced
      by "vwxyz" and cancelled in the pause after the "y" leaves "abcy",
      since the original text is written over the first three characters
      of "vwxy". */
  lemma TypedPastRangeSurvives(doc: string, sel: Range, env: seq<Tick>)
    requires doc == "abc" && sel == Range(Position(0, 0), Position(0, 3))
    requires |env| == 9 && (forall t :: 0 <= t < 8 ==> env[t] == Tick(false, false, false))
    requires env[8] == Tick(false, true, false)
    ensures Play(doc, sel, "vwxyz", env) == Final("abcy", sel, false, true, RolledBack)
  {
    var typed := CancelAfterFourth(doc, sel, env);
    WholeLineSelected(typed, sel);
    assert typed[3..] == "y";
    assert ReplaceRange(typed, sel, "abc") == "abc" + "y";
  }

  /** The rollback of `TypedPastRangeSurvives`, before the original text is
      written back. */
  lemma CancelAfterFourth(doc: string, sel: Range, env: seq<Tick>) returns (typed: string)
    requires doc == "abc" && sel == Range(Position(0, 0), Position(0, 3))
    requires |env| == 9 && (forall t :: 0 <= t < 8 ==> env[t] == Tick(false, false, false))
    requires env[8] == Tick(false, true, false)
    ensures typed == "vwxy"
    ensures Play(doc, sel, "vwxyz", env) == Final(ReplaceRange(typed, sel, "abc"), sel, false, true, RolledBack)
  {
    var lines := OneLine("vwxyz");
    assert StepsBefore(lines, 0) == [];
    WholeLineSelected(doc, sel);
    assert TickAt(env, 8).cancel;
    var s, e;
    assert !(0 == |lines| - 1 && 4 == |lines[0]|);
    typed, s, e := CancelDuringTyping(doc, sel, "vwxyz", env, 0, 4);
    assert doc[..s] + typed + doc[e..] == typed;
    assert TextIn(doc, sel) == "abc";
  }

  /** The first three characters of a line of at least three, selected. */
  lemma WholeLineSelected(doc: string, sel: Range)
    requires |doc| >= 3 && '\n' !in doc && sel == Range(Position(0, 0), Position(0, 3))
    ensures ValidPosition(doc, sel.start) && OffsetAt(doc, sel.start) == 0 && OffsetAt(doc, sel.end) == 3
    ensures TextIn(doc, sel) == doc[..3]
  {
    LineEndAppend(doc, "");
    assert doc + "" == doc;
  }

  /** A text without separators is one line. */
  lemma OneLine(s: string) returns (lines: seq<string>)
    requires '\n' !in s
    ensures lines == Split(s) && lines == [s]
  {
    assert Join([s]) == s;
    SplitJoin([s]);
    lines := [s];
  }
}
