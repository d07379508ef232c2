/** The animated replacement of src/extension.ts (`animateCodeReplacement`).
    The selected text is deleted, then the new code is typed in one
    character at a time, with a pause after each character. The user may
    ask to finish, which inserts the rest in one edit, or to cancel, which
    puts the original text back.

    The replacement runs concurrently with the two control commands. It can
    only be interrupted where it waits for something: an edit to be applied,
    or a pause. Each such wait is a suspension point. What happens during
    the k-th wait is the k-th `Tick` of an environment: whether the user
    gives the finish command, the cancel command, or both, and whether the
    awaited edit is rejected by the host.

    `Play` defines the outcome of a replacement as a function of the
    document, the selection, the new code and the environment.
    `AnimateCodeReplacement` is the replacement written the way the
    extension does it, with its two loops, and it is proved to agree with
    `Play`. */
module Player {
  import opened Text
  import opened Sessions
  import opened Documents

  /** What happens during one wait. */
  datatype Tick = Tick(finish: bool, cancel: bool, fail: bool)

  /** The k-th wait; after the last listed one nothing happens. */
  function TickAt(env: seq<Tick>, k: nat): (t: Tick)
    ensures k >= |env| ==> t == Tick(false, false, false)
    ensures k < |env| ==> t == env[k]
  {
    if k < |env| then env[k] else Tick(false, false, false)
  }

  /** How a replacement ends. `Completed`: every character was typed.
      `Flushed`: the finish command inserted the rest at once.
      `RolledBack`: a cancel restored the original text. `Swallowed`: an
      edit was rejected without a cancel; the error is dropped and the
      document is left as it is. `Raised`: the restoring edit itself was
      rejected, and its error leaves the replacement. */
  datatype Outcome = Completed | Flushed | RolledBack | Swallowed | Raised

  /** What stays fixed during one replacement: the code to type, the text
      and selection it replaces, and the environment. */
  datatype Ctx = Ctx(newCode: string, originalCode: string, originalSelection: Range, env: seq<Tick>)

  predicate ValidCtx(ctx: Ctx)
  {
    Before(ctx.originalSelection.start, ctx.originalSelection.end)
  }

  /** What changes: the document, the selection, the typing location, the
      two requests, and the number of waits so far. */
  datatype Cfg = Cfg(text: string, selection: Range, cursor: Position, finish: bool, cancel: bool, k: nat)

  /** What is left once a replacement has ended. */
  datatype Final = Final(text: string, selection: Range, finishRequested: bool, cancelRequested: bool, outcome: Outcome)

  function EndWith(c: Cfg, o: Outcome): (f: Final)
    ensures f.text == c.text && f.selection == c.selection && f.outcome == o
    ensures f.finishRequested == c.finish && f.cancelRequested == c.cancel
  {
    Final(c.text, c.selection, c.finish, c.cancel, o)
  }

  /** One wait: the requests made meanwhile are recorded. A request, once
      made, stays made. */
  function Yield(ctx: Ctx, c: Cfg): (r: Cfg)
    ensures r.text == c.text && r.selection == c.selection && r.cursor == c.cursor && r.k == c.k + 1
    ensures r.finish == (c.finish || TickAt(ctx.env, c.k).finish)
    ensures r.cancel == (c.cancel || TickAt(ctx.env, c.k).cancel)
  {
    var t := TickAt(ctx.env, c.k);
    c.(finish := c.finish || t.finish, cancel := c.cancel || t.cancel, k := c.k + 1)
  }

  /** The steps of the typing loops. `StartLine` is the check at the head of
      the loop over lines, `TypeChar` one pass of the loop over characters,
      `BreakLine` the line break typed after a line. */
  datatype Instr = StartLine | TypeChar(ch: char) | BreakLine

  /** One `TypeChar` per character of `s`, in order. */
  function Chars(s: string): (p: seq<Instr>)
    ensures |p| == |s|
    ensures forall i :: 0 <= i < |s| ==> p[i] == TypeChar(s[i])
  {
    if s == [] then [] else [TypeChar(s[0])] + Chars(s[1..])
  }

  /** Whether a line break is typed after line `i`. The extension compares
      the line with the last line by content, not by index, so a line that
      reads like the last one gets no line break either. */
  function BreaksAfter(lines: seq<string>, i: nat): (b: bool)
    requires i < |lines|
    ensures b ==> i < |lines| - 1
    ensures (forall j :: 0 <= j < |lines| - 1 ==> lines[j] != lines[|lines| - 1]) ==> (b <==> i < |lines| - 1)
  {
    lines[i] != lines[|lines| - 1]
  }

  /** What remains of line `i` once its first `j` characters are typed. */
  function LineTail(lines: seq<string>, i: nat, j: nat): (p: seq<Instr>)
    requires i < |lines| && j <= |lines[i]|
    ensures |p| == |lines[i]| - j + (if BreaksAfter(lines, i) then 1 else 0)
  {
    Chars(lines[i][j..]) + (if BreaksAfter(lines, i) then [BreakLine] else [])
  }

  /** The steps for lines `i` onwards. */
  function Program(lines: seq<string>, i: nat): (p: seq<Instr>)
    requires i <= |lines|
    ensures i == |lines| <==> p == []
    decreases |lines| - i
  {
    if i == |lines| then [] else [StartLine] + LineTail(lines, i, 0) + Program(lines, i + 1)
  }

  /** `s` from `start` on, and nothing when `start` is past its end (the
      JavaScript `substr` with one argument). */
  function Substr(s: string, start: nat): (r: string)
    ensures start <= |s| ==> s[..start] + r == s
    ensures start >= |s| ==> r == ""
  {
    if start <= |s| then s[start..] else ""
  }

  /** The error handler. After a cancel, the original text is put back where
      the selection was (the range is read in the current document) and the
      selection restored; if that edit is rejected its error escapes.
      Without a cancel the error is dropped. */
  function Catch(ctx: Ctx, c: Cfg): (f: Final)
    requires ValidCtx(ctx)
    ensures f.outcome == Swallowed <==> !c.cancel
    ensures f.outcome == RolledBack || f.outcome == Raised || f.outcome == Swallowed
    ensures f.outcome == RolledBack
            ==> f.text == ReplaceRange(c.text, ctx.originalSelection, ctx.originalCode) && f.selection == ctx.originalSelection
    ensures f.outcome != RolledBack ==> f.text == c.text && f.selection == c.selection
    ensures f.cancelRequested == c.cancel && (c.finish ==> f.finishRequested)
  {
    if c.cancel then
      var c1 := Yield(ctx, c);
      if TickAt(ctx.env, c.k).fail then EndWith(c1, Raised)
      else EndWith(c1.(text := ReplaceRange(c.text, ctx.originalSelection, ctx.originalCode),
                    selection := ctx.originalSelection), RolledBack)
    else EndWith(c, Swallowed)
  }

  /** The finish branch: the new code, from the cursor's offset in the
      current document on, is inserted at the cursor in one edit. */
  function Flush(ctx: Ctx, c: Cfg): (f: Final)
    requires ValidCtx(ctx)
    ensures f.outcome == Flushed <==> !TickAt(ctx.env, c.k).fail
    ensures f.outcome != Completed
    ensures var o := OffsetAt(c.text, c.cursor);
            f.outcome == Flushed ==> f.text == c.text[..o] + Substr(ctx.newCode, o) + c.text[o..] && f.selection == c.selection
    ensures (c.finish ==> f.finishRequested) && (c.cancel ==> f.cancelRequested)
  {
    var o := OffsetAt(c.text, c.cursor);
    var c1 := Yield(ctx, c);
    if TickAt(ctx.env, c.k).fail then Catch(ctx, c1)
    else EndWith(c1.(text := InsertAt(c.text, o, Substr(ctx.newCode, o))), Flushed)
  }

  /** How the typing loops are left: normally, with every step done or
      skipped, or by an error being raised. */
  datatype Exit = Normal(at: Cfg) | Thrown(at: Cfg)

  /** Where one step leads: on to the next step, or out of the loops. */
  datatype Next = Continue(next: Cfg) | Leave(exit: Exit)

  /** One step of the typing loops. At the head of the loop over lines a
      finish request leaves the loops and a cancel raises an error. At the
      head of the loop over characters a finish request leaves that loop, so
      the character and every later one on the line are skipped; a cancel
      raises an error; otherwise the character is typed at the cursor and a
      pause follows. A line break is skipped once finish was requested and
      is typed otherwise, even after a cancel. A rejected edit raises an
      error. */
  function Step(ctx: Ctx, step: Instr, c: Cfg): (n: Next)
    ensures c.finish ==> n == (if step.StartLine? then Leave(Normal(c)) else Continue(c))
  {
    match step
      case StartLine =>
        if c.finish then Leave(Normal(c))
        else if c.cancel then Leave(Thrown(c))
        else Continue(c)
      case TypeChar(ch) =>
        if c.finish then Continue(c)
        else if c.cancel then Leave(Thrown(c))
        else if TickAt(ctx.env, c.k).fail then Leave(Thrown(Yield(ctx, c)))
        else Continue(Yield(ctx, Yield(ctx, c).(text := InsertAt(c.text, OffsetAt(c.text, c.cursor), [ch]),
                                                 cursor := Position(c.cursor.line, c.cursor.character + 1))))
      case BreakLine =>
        if c.finish then Continue(c)
        else if TickAt(ctx.env, c.k).fail then Leave(Thrown(Yield(ctx, c)))
        else Continue(Yield(ctx, c).(text := InsertAt(c.text, OffsetAt(c.text, c.cursor), "\n"),
                                      cursor := Position(c.cursor.line + 1, 0)))
  }

  /** The typing loops from configuration `c` with steps `prog` still to
      do. */
  function Run(ctx: Ctx, prog: seq<Instr>, c: Cfg): (e: Exit)
    decreases |prog|
  {
    if prog == [] then Normal(c)
    else match Step(ctx, prog[0], c)
      case Continue(c') => Run(ctx, prog[1..], c')
      case Leave(e) => e
  }

  /** What follows the typing loops: the finish branch when finish was
      requested, the error handler when an error was raised. */
  function Conclude(ctx: Ctx, e: Exit): (f: Final)
    requires ValidCtx(ctx)
    ensures f.outcome == Completed <==> e.Normal? && !e.at.finish
    ensures f.outcome == Completed ==> f.text == e.at.text && f.selection == e.at.selection && !f.finishRequested
    ensures f.outcome == Flushed ==> e.Normal? && f.finishRequested && f.selection == e.at.selection
    ensures e.Thrown? ==> f.outcome == RolledBack || f.outcome == Raised || f.outcome == Swallowed
  {
    match e
      case Thrown(c) => Catch(ctx, c)
      case Normal(c) => if c.finish then Flush(ctx, c) else EndWith(c, Completed)
  }

  /** A whole replacement of the text of `sel` in `doc` by `newCode`. */
  function Play(doc: string, sel: Range, newCode: string, env: seq<Tick>): Final
    requires Before(sel.start, sel.end)
  {
    var ctx := Ctx(newCode, TextIn(doc, sel), sel, env);
    var c1 := Yield(ctx, Cfg(doc, sel, sel.start, false, false, 0));
    if TickAt(env, 0).fail then Catch(ctx, c1)
    else Conclude(ctx, Run(ctx, Program(Split(newCode), 0),
                           c1.(text := ReplaceRange(doc, sel, ""), selection := Range(sel.start, sel.start))))
  }

  /** The loops keep the selection, only let time pass, never drop a
      pending cancel, and leave normally only when finish was requested or
      the steps ran out; when they raise without a cancel pending, the wait
      just before was a rejected edit. */
  lemma {:induction false} RunKeeps(ctx: Ctx, prog: seq<Instr>, c: Cfg)
    ensures var e := Run(ctx, prog, c);
            e.at.selection == c.selection && c.k <= e.at.k && (c.cancel ==> e.at.cancel)
            && (e.Thrown? && !e.at.cancel ==> c.k < e.at.k && TickAt(ctx.env, e.at.k - 1).fail)
    decreases |prog|
  {
    if prog != [] {
      match Step(ctx, prog[0], c)
      case Continue(c') => RunKeeps(ctx, prog[1..], c');
      case Leave(e) =>
    }
  }

  /** What a whole replacement ends in: the selection is restored exactly
      when the run is rolled back, a cancel is pending whenever the error
      handler acted on it, the selection is collapsed at the start of the
      original range when the loops were left normally, and a rejected
      deletion never lets the run complete or flush. */
  lemma PlayOutcomes(doc: string, sel: Range, newCode: string, env: seq<Tick>)
    requires Before(sel.start, sel.end)
    ensures var f := Play(doc, sel, newCode, env);
            (f.outcome == RolledBack ==> f.selection == sel && f.cancelRequested)
            && (f.outcome == Raised ==> f.cancelRequested)
            && (f.outcome == Swallowed ==> !f.cancelRequested)
            && (f.outcome == Completed ==> !f.finishRequested && f.selection == Range(sel.start, sel.start))
            && (f.outcome == Flushed ==> f.finishRequested && f.selection == Range(sel.start, sel.start))
            && (TickAt(env, 0).fail ==> f.outcome != Completed && f.outcome != Flushed)
  {
    var ctx := Ctx(newCode, TextIn(doc, sel), sel, env);
    var c1 := Yield(ctx, Cfg(doc, sel, sel.start, false, false, 0));
    if !TickAt(env, 0).fail {
      RunKeeps(ctx, Program(Split(newCode), 0), c1.(text := ReplaceRange(doc, sel, ""), selection := Range(sel.start, sel.start)));
    }
  }

  /** Once finish has been requested every remaining step is skipped or
      leaves the loops, and nothing changes any more. */
  lemma {:induction false} FinishAbsorbs(ctx: Ctx, prog: seq<Instr>, c: Cfg)
    requires c.finish
    ensures Run(ctx, prog, c) == Normal(c)
    decreases |prog|
  {
    if prog != [] && !prog[0].StartLine? {
      FinishAbsorbs(ctx, prog[1..], c);
    }
  }

  /** The head of the loop over lines. */
  lemma ProgramStep(lines: seq<string>, i: nat)
    requires i < |lines|
    ensures Program(lines, i)[0] == StartLine
    ensures Program(lines, i)[1..] == LineTail(lines, i, 0) + Program(lines, i + 1)
  {
    var q := LineTail(lines, i, 0) + Program(lines, i + 1);
    assert Program(lines, i) == [StartLine] + q;
    assert ([StartLine] + q)[1..] == q;
  }

  /** One pass of the loop over characters. */
  lemma TailStep(lines: seq<string>, i: nat, j: nat, rest: seq<Instr>)
    requires i < |lines| && j < |lines[i]|
    ensures (LineTail(lines, i, j) + rest)[0] == TypeChar(lines[i][j])
    ensures (LineTail(lines, i, j) + rest)[1..] == LineTail(lines, i, j + 1) + rest
  {
    var s := lines[i][j..];
    assert s[0] == lines[i][j] && s[1..] == lines[i][j + 1..];
  }

  /** A character typed at the cursor, then the pause. */
  lemma TypeStep(ctx: Ctx, prog: seq<Instr>, c: Cfg, d: string)
    requires prog != [] && prog[0].TypeChar?
    requires !c.finish && !c.cancel && !TickAt(ctx.env, c.k).fail
    requires d == InsertAt(c.text, OffsetAt(c.text, c.cursor), [prog[0].ch])
    ensures Run(ctx, prog, c)
            == Run(ctx, prog[1..],
                   Yield(ctx, Yield(ctx, c).(text := d, cursor := Position(c.cursor.line, c.cursor.character + 1))))
  {
    var c1 := Yield(ctx, Yield(ctx, c).(text := d, cursor := Position(c.cursor.line, c.cursor.character + 1)));
    assert Step(ctx, prog[0], c) == Continue(c1);
    RunContinues(ctx, prog, c, c1);
  }

  /** A step that goes on leaves the rest of the steps to do. */
  lemma RunContinues(ctx: Ctx, prog: seq<Instr>, c: Cfg, c1: Cfg)
    requires prog != [] && Step(ctx, prog[0], c) == Continue(c1)
    ensures Run(ctx, prog, c) == Run(ctx, prog[1..], c1)
  {
  }

  /** A cancel seen at the head of the loop over characters, or a rejected
      character, raises an error. */
  lemma ThrowStep(ctx: Ctx, prog: seq<Instr>, c: Cfg)
    requires prog != [] && prog[0].TypeChar?
    requires !c.finish && (c.cancel || TickAt(ctx.env, c.k).fail)
    ensures Run(ctx, prog, c) == Thrown(if c.cancel then c else Yield(ctx, c))
  {
  }

  /** One character of line `i` typed at the cursor, then the pause. */
  lemma CharTyped(ctx: Ctx, lines: seq<string>, i: nat, j: nat, rest: seq<Instr>, c: Cfg, d: string)
    requires i < |lines| && j < |lines[i]|
    requires !c.finish && !c.cancel && !TickAt(ctx.env, c.k).fail
    requires d == InsertAt(c.text, OffsetAt(c.text, c.cursor), [lines[i][j]])
    ensures Run(ctx, LineTail(lines, i, j) + rest, c)
            == Run(ctx, LineTail(lines, i, j + 1) + rest,
                   Yield(ctx, Yield(ctx, c).(text := d, cursor := Position(c.cursor.line, c.cursor.character + 1))))
  {
    TailStep(lines, i, j, rest);
    TypeStep(ctx, LineTail(lines, i, j) + rest, c, d);
  }

  /** A cancel seen at the head of the loop over characters, or a rejected
      character, raises an error. */
  lemma CharThrows(ctx: Ctx, lines: seq<string>, i: nat, j: nat, rest: seq<Instr>, c: Cfg)
    requires i < |lines| && j < |lines[i]|
    requires !c.finish && (c.cancel || TickAt(ctx.env, c.k).fail)
    ensures Run(ctx, LineTail(lines, i, j) + rest, c) == Thrown(if c.cancel then c else Yield(ctx, c))
  {
    TailStep(lines, i, j, rest);
    ThrowStep(ctx, LineTail(lines, i, j) + rest, c);
  }

  /** What is left of a line once all its characters are typed. */
  lemma TailEnd(lines: seq<string>, i: nat, rest: seq<Instr>)
    requires i < |lines|
    ensures BreaksAfter(lines, i) ==> LineTail(lines, i, |lines[i]|) + rest == [BreakLine] + rest
    ensures !BreaksAfter(lines, i) ==> LineTail(lines, i, |lines[i]|) + rest == rest
    ensures ([BreakLine] + rest)[0] == BreakLine && ([BreakLine] + rest)[1..] == rest
  {
    assert lines[i][|lines[i]|..] == [];
  }

  /** The head of the loop over lines: a finish request leaves the loops,
      a cancel raises an error, and otherwise the line is typed. */
  lemma LineHead(ctx: Ctx, lines: seq<string>, i: nat, c: Cfg)
    requires i < |lines|
    ensures Run(ctx, Program(lines, i), c)
            == if c.finish then Normal(c) else if c.cancel then Thrown(c)
               else Run(ctx, LineTail(lines, i, 0) + Program(lines, i + 1), c)
  {
    ProgramStep(lines, i);
  }

  /** The line break after line `i`: typed, rejected, or skipped. */
  lemma BreakTyped(ctx: Ctx, lines: seq<string>, i: nat, rest: seq<Instr>, c: Cfg, d: string)
    requires i < |lines| && BreaksAfter(lines, i) && !c.finish && !TickAt(ctx.env, c.k).fail
    requires d == InsertAt(c.text, OffsetAt(c.text, c.cursor), "\n")
    ensures Run(ctx, LineTail(lines, i, |lines[i]|) + rest, c)
            == Run(ctx, rest, Yield(ctx, c).(text := d, cursor := Position(c.cursor.line + 1, 0)))
  {
    TailEnd(lines, i, rest);
  }

  lemma BreakThrows(ctx: Ctx, lines: seq<string>, i: nat, rest: seq<Instr>, c: Cfg)
    requires i < |lines| && BreaksAfter(lines, i) && !c.finish && TickAt(ctx.env, c.k).fail
    ensures Run(ctx, LineTail(lines, i, |lines[i]|) + rest, c) == Thrown(Yield(ctx, c))
  {
    TailEnd(lines, i, rest);
  }

  lemma BreakSkipped(ctx: Ctx, lines: seq<string>, i: nat, rest: seq<Instr>, c: Cfg)
    requires i < |lines| && (!BreaksAfter(lines, i) || c.finish)
    ensures Run(ctx, LineTail(lines, i, |lines[i]|) + rest, c) == Run(ctx, rest, c)
  {
    TailEnd(lines, i, rest);
  }

  /** One wait of the replacement, with the commands given meanwhile handled
      by their handlers. */
  method Suspend(session: Session, t: Tick)
    requires session.active
    modifies session
    ensures session.finishRequested == (old(session.finishRequested) || t.finish)
    ensures session.cancelRequested == (old(session.cancelRequested) || t.cancel)
    ensures session.active && session.originalCode == old(session.originalCode)
    ensures session.originalSelection == old(session.originalSelection)
  {
    if t.finish {
      session.OnFinish();
    }
    if t.cancel {
      session.OnCancel();
    }
  }

  /** A wait records the commands given during it exactly as the two
      handlers record them: the requests `Yield` leaves are those of the
      record after the finish handler, then the cancel handler, ran for
      the commands of that wait. */
  lemma YieldRecordsCommands(ctx: Ctx, c: Cfg, s: SessionState)
    requires s.active && s.finishRequested == c.finish && s.cancelRequested == c.cancel
    ensures var t := TickAt(ctx.env, c.k);
            var s1 := if t.finish then RequestFinish(s) else s;
            var s2 := if t.cancel then RequestCancel(s1) else s1;
            var r := Yield(ctx, c);
            s2 == s.(finishRequested := r.finish, cancelRequested := r.cancel)
  {
  }

  /** The session is running and still remembers the text and the
      selection that `ctx` replaces. */
  predicate Running(session: Session, ctx: Ctx)
    reads session
  {
    session.active && session.originalCode == ctx.originalCode
    && session.originalSelection == Some(ctx.originalSelection)
  }

  /** `c` is the part of the state the replacement reads and changes. */
  predicate Mirrors(c: Cfg, editor: Editor, session: Session, pos: Position, k: nat)
    reads editor, session
  {
    c.text == editor.text && c.selection == editor.selection && c.cursor == pos && c.k == k
    && c.finish == session.finishRequested && c.cancel == session.cancelRequested
  }

  /** The error handler of the replacement. */
  method Recover(editor: Editor, session: Session, ghost ctx: Ctx, env: seq<Tick>, pos: Position, k: nat,
                 ghost c0: Cfg)
    returns (outcome: Outcome)
    requires ValidCtx(ctx) && ctx.env == env && Running(session, ctx)
    requires Mirrors(c0, editor, session, pos, k)
    modifies editor, session
    ensures Final(editor.text, editor.selection, session.finishRequested, session.cancelRequested, outcome)
            == Catch(ctx, c0)
    ensures Running(session, ctx)
  {
    if session.cancelRequested && session.originalSelection.Some? {
      var applied := editor.Replace(session.originalSelection.value, session.originalCode, TickAt(env, k).fail);
      Suspend(session, TickAt(env, k));
      if applied {
        editor.selection := session.originalSelection.value;
        outcome := RolledBack;
      } else {
        outcome := Raised;
      }
    } else {
      outcome := Swallowed;
    }
  }

  /** The loop over the characters of line `i`, with `rest` to follow. It
      ends normally, with the line typed or left because finish was
      requested, or by raising an error. */
  method TypeLine(editor: Editor, session: Session, ghost ctx: Ctx, env: seq<Tick>, ghost lines: seq<string>,
                  ghost i: nat, line: string, ghost rest: seq<Instr>, pos0: Position, k0: nat, ghost c0: Cfg)
    returns (pos: Position, k: nat, thrown: bool, ghost c: Cfg)
    requires ctx.env == env && Running(session, ctx)
    requires i < |lines| && line == lines[i]
    requires Mirrors(c0, editor, session, pos0, k0)
    modifies editor, session
    ensures Running(session, ctx)
    ensures Mirrors(c, editor, session, pos, k)
    ensures Run(ctx, LineTail(lines, i, 0) + rest, c0)
            == if thrown then Thrown(c) else Run(ctx, LineTail(lines, i, |line|) + rest, c)
  {
    pos, k, thrown, c := pos0, k0, false, c0;
    for j := 0 to |line|
      invariant Running(session, ctx)
      invariant !thrown
      invariant Mirrors(c, editor, session, pos, k)
      invariant Run(ctx, LineTail(lines, i, 0) + rest, c0) == Run(ctx, LineTail(lines, i, j) + rest, c)
    {
      if session.finishRequested {
        FinishAbsorbs(ctx, LineTail(lines, i, j) + rest, c);
        FinishAbsorbs(ctx, LineTail(lines, i, |line|) + rest, c);
        break;
      }
      pos, k, thrown, c := TypeCharacter(editor, session, ctx, env, lines, i, j, line[j], rest, pos, k, c);
      if thrown {
        break;
      }
    }
  }

  /** One pass of the loop over characters once finish is known not to be
      requested: a cancel raises an error; otherwise `ch` is inserted at the
      cursor, a rejected edit raises an error, and an applied one moves the
      cursor one column right before the pause. */
  method TypeCharacter(editor: Editor, session: Session, ghost ctx: Ctx, env: seq<Tick>, ghost lines: seq<string>,
                       ghost i: nat, ghost j: nat, ch: char, ghost rest: seq<Instr>, pos0: Position, k0: nat,
                       ghost c0: Cfg)
    returns (pos: Position, k: nat, thrown: bool, ghost c: Cfg)
    requires ctx.env == env && Running(session, ctx)
    requires i < |lines| && j < |lines[i]| && ch == lines[i][j]
    requires Mirrors(c0, editor, session, pos0, k0) && !c0.finish
    modifies editor, session
    ensures Running(session, ctx)
    ensures Mirrors(c, editor, session, pos, k)
    ensures Run(ctx, LineTail(lines, i, j) + rest, c0)
            == if thrown then Thrown(c) else Run(ctx, LineTail(lines, i, j + 1) + rest, c)
  {
    pos, k, thrown, c := pos0, k0, false, c0;
    if session.cancelRequested {
      CharThrows(ctx, lines, i, j, rest, c);
      thrown := true;
      return;
    }
    var applied := editor.Insert(pos, [ch], TickAt(env, k).fail);
    Suspend(session, TickAt(env, k));
    k := k + 1;
    if !applied {
      CharThrows(ctx, lines, i, j, rest, c);
      c := Yield(ctx, c);
      thrown := true;
      return;
    }
    CharTyped(ctx, lines, i, j, rest, c, editor.text);
    pos := Position(pos.line, pos.character + 1);
    Suspend(session, TickAt(env, k));
    k := k + 1;
    c := Yield(ctx, Yield(ctx, c).(text := editor.text, cursor := pos));
  }

  /** The loop over `lines`, starting at `pos0` after `k0` waits. It ends
      normally, with the lines typed or left because finish was requested,
      or by raising an error. */
  method TypeLines(editor: Editor, session: Session, ghost ctx: Ctx, env: seq<Tick>, lines: seq<string>,
                   pos0: Position, k0: nat, ghost c0: Cfg)
    returns (pos: Position, k: nat, thrown: bool, ghost c: Cfg)
    requires ctx.env == env && Running(session, ctx)
    requires Mirrors(c0, editor, session, pos0, k0)
    modifies editor, session
    ensures Running(session, ctx)
    ensures Mirrors(c, editor, session, pos, k)
    ensures Run(ctx, Program(lines, 0), c0) == if thrown then Thrown(c) else Normal(c)
  {
    pos, k, thrown, c := pos0, k0, false, c0;
    for i := 0 to |lines|
      invariant Running(session, ctx)
      invariant !thrown
      invariant Mirrors(c, editor, session, pos, k)
      invariant Run(ctx, Program(lines, 0), c0) == Run(ctx, Program(lines, i), c)
    {
      LineHead(ctx, lines, i, c);
      if session.finishRequested {
        break;
      }
      if session.cancelRequested {
        thrown := true;
        break;
      }
      var line := lines[i];
      ghost var rest := Program(lines, i + 1);
      pos, k, thrown, c := TypeLine(editor, session, ctx, env, lines, i, line, rest, pos, k, c);
      if thrown {
        break;
      }
      pos, k, thrown, c := TypeBreak(editor, session, ctx, env, lines, i, line, rest, pos, k, c);
      if thrown {
        break;
      }
    }
  }

  /** The line break after line `i`, typed unless it is the last line (by
      content) or finish was requested. */
  method TypeBreak(editor: Editor, session: Session, ghost ctx: Ctx, env: seq<Tick>, lines: seq<string>,
                   ghost i: nat, line: string, ghost rest: seq<Instr>, pos0: Position, k0: nat, ghost c0: Cfg)
    returns (pos: Position, k: nat, thrown: bool, ghost c: Cfg)
    requires ctx.env == env && Running(session, ctx)
    requires i < |lines| && line == lines[i]
    requires Mirrors(c0, editor, session, pos0, k0)
    modifies editor, session
    ensures Running(session, ctx)
    ensures Mirrors(c, editor, session, pos, k)
    ensures Run(ctx, LineTail(lines, i, |line|) + rest, c0) == if thrown then Thrown(c) else Run(ctx, rest, c)
  {
    if line != lines[|lines| - 1] && !session.finishRequested {
      pos, k, thrown, c := InsertBreak(editor, session, ctx, env, lines, i, rest, pos0, k0, c0);
    } else {
      pos, k, thrown, c := pos0, k0, false, c0;
      BreakSkipped(ctx, lines, i, rest, c);
    }
  }

  /** The line break after line `i` inserted at the cursor; a rejected edit
      raises an error, an applied one moves the cursor to the start of the
      next line. */
  method InsertBreak(editor: Editor, session: Session, ghost ctx: Ctx, env: seq<Tick>, ghost lines: seq<string>,
                     ghost i: nat, ghost rest: seq<Instr>, pos0: Position, k0: nat, ghost c0: Cfg)
    returns (pos: Position, k: nat, thrown: bool, ghost c: Cfg)
    requires ctx.env == env && Running(session, ctx)
    requires i < |lines| && BreaksAfter(lines, i)
    requires Mirrors(c0, editor, session, pos0, k0) && !c0.finish
    modifies editor, session
    ensures Running(session, ctx)
    ensures Mirrors(c, editor, session, pos, k)
    ensures Run(ctx, LineTail(lines, i, |lines[i]|) + rest, c0) == if thrown then Thrown(c) else Run(ctx, rest, c)
  {
    var t := TickAt(env, k0);
    assert t == TickAt(ctx.env, c0.k) && pos0 == c0.cursor && editor.text == c0.text;
    var applied := editor.Insert(pos0, "\n", t.fail);
    Suspend(session, t);
    k := k0 + 1;
    if !applied {
      BreakThrows(ctx, lines, i, rest, c0);
      pos, thrown, c := pos0, true, Yield(ctx, c0);
    } else {
      BreakTyped(ctx, lines, i, rest, c0, editor.text);
      pos, thrown := Position(pos0.line + 1, 0), false;
      c := Yield(ctx, c0).(text := editor.text, cursor := pos);
    }
  }

  /** The finish branch after the loops: the rest of the new code, from the
      cursor's offset in the document on, inserted in one edit. */
  method InsertRemaining(editor: Editor, session: Session, ghost ctx: Ctx, env: seq<Tick>, newCode: string,
                         pos: Position, k0: nat, ghost c0: Cfg)
    returns (k: nat, thrown: bool, ghost c: Cfg)
    requires ValidCtx(ctx) && ctx.env == env && ctx.newCode == newCode && Running(session, ctx)
    requires Mirrors(c0, editor, session, pos, k0)
    modifies editor, session
    ensures Running(session, ctx)
    ensures Mirrors(c, editor, session, pos, k)
    ensures Flush(ctx, c0) == if thrown then Catch(ctx, c) else EndWith(c, Flushed)
  {
    var remaining := Substr(newCode, OffsetAt(editor.text, pos));
    var applied := editor.Insert(pos, remaining, TickAt(env, k0).fail);
    Suspend(session, TickAt(env, k0));
    k := k0 + 1;
    thrown := !applied;
    c := Cfg(editor.text, editor.selection, pos, session.finishRequested, session.cancelRequested, k);
  }

  /** The replacement as the extension runs it. The host decides, through
      `env`, what happens during each wait. */
  method AnimateCodeReplacement(editor: Editor, session: Session, newCode: string, env: seq<Tick>)
    returns (outcome: Outcome)
    requires editor.Valid()
    modifies editor, session
    ensures Final(editor.text, editor.selection, session.finishRequested, session.cancelRequested, outcome)
            == Play(old(editor.text), old(editor.selection), newCode, env)
    ensures !session.active
    ensures session.originalCode == TextIn(old(editor.text), old(editor.selection))
    ensures session.originalSelection == Some(old(editor.selection))
  {
    ghost var doc, sel := editor.text, editor.selection;
    session.Start(TextIn(editor.text, editor.selection), editor.selection);
    ghost var ctx := Ctx(newCode, session.originalCode, sel, env);
    var k := 0;
    var thrown := false;
    var pos := editor.selection.start;

    var applied := editor.DeleteSelection(TickAt(env, k).fail);
    Suspend(session, TickAt(env, k));
    k := k + 1;
    ghost var c := Cfg(editor.text, editor.selection, pos, session.finishRequested, session.cancelRequested, k);
    if !applied {
      thrown := true;
    } else {
      var lines := Split(newCode);
      pos := editor.selection.start;
      c := Cfg(editor.text, editor.selection, pos, session.finishRequested, session.cancelRequested, k);
      pos, k, thrown, c := TypeLines(editor, session, ctx, env, lines, pos, k, c);
      if !thrown && session.finishRequested {
        k, thrown, c := InsertRemaining(editor, session, ctx, env, newCode, pos, k, c);
        if !thrown {
          outcome := Flushed;
        }
      } else if !thrown {
        outcome := Completed;
      }
    }

    if thrown {
      outcome := Recover(editor, session, ctx, env, pos, k, c);
    }
    session.Stop();
  }
}
