# Animated code replacement, modelled in Dafny

The extension sends the selected code to a language model. It then plays the
cleaned code back into the editor one character at a time. While it types, the
user can give a **finish** command, which inserts the rest in one edit, or a
**cancel** command, which puts the original text back. This project models that
player and the state it shares with the two commands.

- `text.dfy` (module `Text`): the document as a string. It has
  zero-based `(line, character)` positions and `OffsetAt`, which clamps a
  position into the document the way the host editor does. It also has
  `Split`/`Join` (JavaScript `split('\n')`) and the insert and replace edits.
- `session.dfy` (module `Sessions`): the shared `animationState` record. It
  is a class `Session` with the handlers of the finish and cancel commands,
  plus the value-level `RequestFinish`/`RequestCancel` they are proved against.
- `editor.dfy` (module `Documents`): the host editor as a class `Editor`
  holding the text and the selection. Its edit methods take the host's
  decision to reject an edit as an argument.
- `guard.dfy` (module `SelectionGuard`): the 100-line limit of
  `getSelectedCode`.
- `player.dfy` (module `Player`): `animateCodeReplacement` in two forms.
  `Play` is a function: it runs a flat program of steps (`StartLine`,
  `TypeChar`, `BreakLine`) that follows the two nested loops step for step.
  `AnimateCodeReplacement` is the imperative method. It mutates an `Editor`
  and a `Session` with the same two `for` loops, and it is proved equal to
  `Play`. It also leaves the session inactive on every path.
- `properties.dfy` (module `PlayerProperties`): what `Play` guarantees, and
  where it departs from a plain "replace, or put back on cancel".
- `cancel.dfy` (module `CancelProperties`): a cancel given in the pause after
  any typed character. It gives the closed form of the document the run
  leaves, for every line and every character.

User actions and host failures are an explicit input `env: seq<Tick>`. There is
one `Tick` per `await`, that is, per suspension point: the deletion, each
character edit, each pause after a character, each line break, the finish edit
and the rollback edit. A tick says whether the user gave the finish command,
the cancel command (both are delivered through the handlers), and whether the
awaited edit was rejected. After the listed ticks nothing happens.

The model follows the code as written, including these behaviours:

- The line-break test compares line **contents** with the last line. A line
  that reads like the last line gets no `'\n'` after it, so `"a\na"` is typed
  as `"aa"` (`RepeatedLastLineLosesBreak`).
- The finish edit inserts `newCode.substr(offsetAt(cursor))`. That offset is
  absolute in the document, so the text is right only when the selection starts
  at offset 0 (`FinishFromDocumentStart`) or nothing remains to be typed.
  Selecting `"b"` in `"ab"` and finishing `"xy"` at once leaves `"ay"`
  (`FinishUsesDocumentOffset`). Typing `"x"` there and finishing in the pause
  after the `"x"` leaves `"ax"`, which is right (`FinishAfterLastCharacter`).
- Finish is tested before cancel at each loop head. Once finish is pending,
  from any point of the loops, a pending cancel is never acted on: the
  remaining steps do nothing and the finish edit follows
  (`FinishPendingFlushes`). With both requested during the deletion, the rest
  is flushed and nothing is rolled back (`FinishWinsOverCancel`).
- The line break after a line is typed even after a cancel. Only finish
  suppresses it.
- Rollback replaces the original range's coordinates, read in the document as
  it now stands. If the selection ended inside a line, the text after the
  selection is overwritten as far as the original range reaches in that
  document: `"abcdef"` with `"abc"` selected, cancelled at once, becomes
  `"abc"` (`CancelLosesTextAfterSelection`), and `"abcdefgh"` becomes `"abcgh"`
  (`CancelOverwritesRangeOnly`). If the selection reaches the end of the
  document, an immediate cancel restores it exactly (`CancelAtOnceRestores`).
- A cancel that arrives in the pause after a character is acted on at the
  next loop head, with the text typed so far left in place, and then the
  original text written over the original range (`CancelDuringTyping`).
  After the very last character there is no loop head left: the cancel is
  recorded but never acted on, and the run completes. `"x"` typed into an
  empty document with a cancel in the pause after it gives `"x"`
  (`CancelInLastPauseIgnored`). A cancel given during the finish edit is
  likewise only recorded (`FinishAtOnce`).
- Text typed past the original range's coordinates survives the rollback,
  even when the whole document was selected. `"abc"`, all selected, replaced
  by `"vwxyz"` and cancelled in the pause after the `"y"`, gives `"abcy"`
  (`TypedPastRangeSurvives`).
- An error raised while no cancel is pending is swallowed, with no rollback and
  no rethrow (`ErrorsWithoutCancelAreSwallowed`). Such an error is not
  reported to the caller. Only a rejected rollback edit escapes (`Raised`).
- Starting a replacement does not check whether one is already active. It
  resets the record unconditionally (`Session.Start`).

## Model

| member | source | states |
|---|---|---|
| `Text.Split` | src/extension.ts:120 | the pieces of `split('\n')`: one more than the separators, none containing `'\n'`, and joining them with `'\n'` gives the string back |
| `Text.SplitJoin` | src/extension.ts:120 | splitting undoes joining for lines without separators |
| `Text.OffsetAt` | src/extension.ts:157 | a document offset never lies past the end of the document |
| `Text.OffsetAtMonotone` | src/extension.ts:167 | offsets follow reading order, so the range's start offset is never after its end offset |
| `Text.PrefixKeepsOffset` | src/extension.ts:121 | a valid position keeps its offset in any document sharing the text before it, so the cursor taken after the deletion sits where the selection began |
| `Text.InsertCharAdvances` | src/extension.ts:132-138 | inserting a non-newline character at a valid position makes column+1 on the same line valid, exactly one offset further |
| `Text.InsertNewlineAdvances` | src/extension.ts:145-151 | inserting `'\n'` at a valid position makes `(line+1, 0)` valid, exactly one offset further |
| `Sessions.RequestFinish` | src/extension.ts:230-234 | does nothing unless active; when active it sets `finishRequested` and changes no other field |
| `Sessions.RequestCancel` | src/extension.ts:236-240 | does nothing unless active; when active it sets `cancelRequested` and changes no other field |
| `Sessions.RequestsIdempotent` | src/extension.ts:230-240 | giving either command twice has the same effect as giving it once |
| `Sessions.RequestsCommute` | src/extension.ts:230-240 | the two commands touch different flags, so their order does not matter |
| `Sessions.Session.constructor` | src/extension.ts:6-12 | the record starts inactive, with both flags clear, empty original code and no selection |
| `Sessions.Session.Start` | src/extension.ts:107-112 | active, both flags cleared, and the selected text and selection captured |
| `Sessions.Session.OnFinish` | src/extension.ts:230-234 | the handler's new record is `RequestFinish` of the old one |
| `Sessions.Session.OnCancel` | src/extension.ts:236-240 | the handler's new record is `RequestCancel` of the old one |
| `Sessions.Session.Stop` | src/extension.ts:171-173 | clears `active` and nothing else |
| `Documents.Editor.DeleteSelection` | src/extension.ts:116-118 | an applied deletion removes the selected text and collapses the selection to its start; a rejected one changes nothing |
| `Documents.Editor.Insert` | src/extension.ts:132-134 | an applied insertion puts the text at the position's offset; a rejected one changes nothing; the selection is untouched |
| `Documents.Editor.Replace` | src/extension.ts:166-168 | an applied replace rewrites the range, read in the current document; a rejected one changes nothing |
| `SelectionGuard.LineCount` | src/extension.ts:24 | the line count is the number of `'\n'` plus one |
| `SelectionGuard.TooLongIffSeparators` | src/extension.ts:24-29 | more than 100 lines exactly when the text holds at least 100 `'\n'` characters |
| `SelectionGuard.GetSelectedCode` | src/extension.ts:15-32 | returns the selected text exactly when there is an active editor and fewer than 100 `'\n'` in the selection, nothing otherwise |
| `Player.YieldRecordsCommands` | src/extension.ts:230-240 | the requests a wait leaves are exactly those of the session record after the finish handler, then the cancel handler, ran for the commands given during the wait |
| `Player.BreaksAfter` | src/extension.ts:144 | a break is only ever typed after a line before the last; when no earlier line reads like the last, it is typed after exactly those lines |
| `Player.Chars` | src/extension.ts:128-141 | one character step per character of the line, in order |
| `Player.Program` | src/extension.ts:123-153 | the program for lines `i` onwards is empty exactly when no line is left |
| `Player.Substr` | src/extension.ts:157 | the prefix of `s` up to `start` followed by the result is `s` again; past the end the result is empty |
| `Player.Step` | src/extension.ts:124-130 | once finish is requested a step never raises or changes anything: a loop head leaves normally, other steps are skipped |
| `Player.Catch` | src/extension.ts:163-170 | the error handler rolls back or raises exactly when a cancel is pending and swallows the error otherwise; a rollback writes the original text over the original range of the current document and restores the selection; anything else leaves text and selection alone; the cancel flag is passed on. `Player.Recover` is proved against it |
| `Player.Flush` | src/extension.ts:156-161 | the finish branch never completes; it is flushed exactly when its edit is applied, and then the new code from the cursor's document offset on sits at that offset. `Player.InsertRemaining` is proved against it |
| `Player.Conclude` | src/extension.ts:155-170 | a run completes exactly when the loops were left normally without finish, and then the text and selection are those the loops left; a flushed run was left normally with finish; a raised error ends rolled back, raised or swallowed |
| `Player.RunKeeps` | src/extension.ts:123-153 | the loops keep the selection, never lose a pending cancel, and raise without a cancel only just after a rejected edit |
| `Player.PlayOutcomes` | src/extension.ts:107-174 | for the whole replacement: a rollback restores the selection and follows a cancel, a raised error follows a cancel, a swallowed one does not; a completed run had no finish and a flushed one had, and both leave the selection collapsed at the start of the original range; a rejected deletion never completes or flushes. `Player.AnimateCodeReplacement` is proved equal to `Play`, and `PlayerProperties.PlayWithoutCancel` and `CancelProperties.CancelDuringTyping` give its closed forms |
| `Player.FinishAbsorbs` | src/extension.ts:124-144 | after a finish request the remaining steps change nothing and the loops end normally |
| `Player.LineHead` | src/extension.ts:123-125 | at the head of the loop over lines, finish leaves the loops, else cancel raises, else the line is typed |
| `Player.Suspend` | src/extension.ts:140 | during a wait the requests given are recorded through the handlers; the session stays active and keeps its captured text and range |
| `Player.Recover` | src/extension.ts:163-170 | the catch block agrees with `Catch`: with cancel pending, one replace of the original range and the selection restored; otherwise nothing |
| `Player.TypeLine` | src/extension.ts:128-141 | the loop over one line's characters does exactly what the program's steps for that line do |
| `Player.TypeCharacter` | src/extension.ts:129-140 | one pass of the character loop once finish is known not to be requested: a pending cancel or a rejected edit raises, otherwise the character is inserted and the cursor moves one column, as the program's `TypeChar` step says |
| `Player.TypeBreak` | src/extension.ts:143-152 | the line break is typed when the line differs from the last and finish is not requested, as the program's step says |
| `Player.InsertBreak` | src/extension.ts:145-151 | the line-break edit: a rejected edit raises, an applied one moves the cursor to the start of the next line, as the program's `BreakLine` step says |
| `Player.TypeLines` | src/extension.ts:123-153 | the loop over lines ends the way `Run` of the whole program ends: normally or by raising |
| `Player.InsertRemaining` | src/extension.ts:156-161 | the finish edit agrees with `Flush`: `newCode` from the cursor's document offset, inserted at the cursor |
| `Player.AnimateCodeReplacement` | src/extension.ts:107-174 | the final document, selection, flags and outcome equal `Play`; the session is inactive afterwards; the original text and range were captured before any edit |
| `PlayerProperties.TypeCharStep` | src/extension.ts:128-141 | with no flag set and the edit applied, exactly one character is inserted at the cursor and the cursor moves one column, one offset, after two waits |
| `PlayerProperties.BreakLineStep` | src/extension.ts:143-152 | with finish not requested and the edit applied, `'\n'` is inserted at the cursor and the cursor moves to `(line+1, 0)`, one offset further |
| `PlayerProperties.ProgramOutput` | src/extension.ts:123-153 | the steps type each line followed by `'\n'` only when it differs from the last line |
| `PlayerProperties.TypedIsCode` | src/extension.ts:144 | the typed text equals `newCode` exactly when no earlier line equals the last line |
| `PlayerProperties.TypedFromJoin` | src/extension.ts:144 | the lines from `i` on are typed as they were joined exactly when none before the last reads like the last |
| `PlayerProperties.ProgramTypesNoBreak` | src/extension.ts:120-141 | split lines hold no `'\n'`, so no character step types one: line breaks come only from the line-break step |
| `PlayerProperties.RunWithoutCancel` | src/extension.ts:123-153 | with no cancel and no rejected edit the loops end normally, having typed a prefix of the program's text at the cursor, all of it unless finish was requested |
| `PlayerProperties.DeletionKeepsStart` | src/extension.ts:116-121 | the deletion removes the selected text and the cursor taken after it has the selection start's offset |
| `PlayerProperties.PlayWithoutCancel` | src/extension.ts:107-174 | with no cancel and no rejected edit a run completes with the typed text in the gap, or is flushed with the first `m` typed characters followed by `newCode` from the absolute offset `s + m`; without finish it completes |
| `PlayerProperties.UninterruptedTypesCode` | src/extension.ts:120-153 | an uninterrupted run replaces the selection by exactly `newCode` if and only if no earlier line equals the last line |
| `PlayerProperties.EmptyCodeTypesNothing` | src/extension.ts:116-144 | an empty `newCode` inserts nothing after the deletion |
| `PlayerProperties.FinishFromDocumentStart` | src/extension.ts:156-161 | with the selection at offset 0, no cancel, no rejected edit, and no line before the last reading like the last line, the run leaves exactly `newCode` before the text after the selection, whether or when finish is given |
| `PlayerProperties.FinishUsesDocumentOffset` | src/extension.ts:157 | the flushed suffix starts at the absolute offset: `"ab"`, `"b"` selected, `"xy"` finished at once gives `"ay"` |
| `PlayerProperties.FinishAfterLastCharacter` | src/extension.ts:155-161 | a finish in the pause after the last character inserts `Substr` past the end, i.e. nothing: `"ab"`, `"b"` selected, `"x"` typed and finished then gives `"ax"`, flushed, with the selection collapsed |
| `PlayerProperties.FinishAtOnce` | src/extension.ts:155-161 | finish during the deletion: nothing is typed and `newCode` from the selection start's document offset on is inserted at once; the run ends flushed with the selection collapsed to its start |
| `PlayerProperties.RepeatedLastLineLosesBreak` | src/extension.ts:144 | `"a\na"` typed uninterrupted gives `"aa"` |
| `PlayerProperties.RunKeepsNoCancel` | src/extension.ts:125-130 | without cancel commands the loops never end with a cancel pending |
| `PlayerProperties.ErrorsWithoutCancelAreSwallowed` | src/extension.ts:163-170 | without a cancel there is no rollback and no escaping error: the run completes, is flushed, or swallows the error |
| `PlayerProperties.RejectedDeletionChangesNothing` | src/extension.ts:114-118 | a rejected deletion with no cancel leaves document and selection as they were |
| `PlayerProperties.CancelAtOnce` | src/extension.ts:163-169 | a cancel during the deletion rolls back at the first loop head: the original text is written over the original range of the document left by the deletion, and the selection is restored |
| `PlayerProperties.RestoreAtDocumentEnd` | src/extension.ts:167 | when the selection reaches the end of the document, writing its text back over the original range after the deletion gives the document back exactly |
| `PlayerProperties.CancelAtOnceRestores` | src/extension.ts:124-125 | a cancel before typing rolls back and restores the selection; the document comes back exactly when the selection reaches its end |
| `PlayerProperties.CancelLosesTextAfterSelection` | src/extension.ts:167 | rollback rewrites the original coordinates: `"abcdef"` with `"abc"` selected, cancelled at once, gives `"abc"` |
| `PlayerProperties.CancelOverwritesRangeOnly` | src/extension.ts:167 | rollback overwrites only what the original coordinates cover in the shortened document: `"abcdefgh"` with `"abc"` selected, cancelled at once, gives `"abcgh"` |
| `PlayerProperties.CancelAfterFirstCharacter` | src/extension.ts:128-169 | a cancel in the pause after the first character: that character has been typed at the start of the gap, then the original text replaces the original range of the document as it stands; rolled back, selection restored |
| `PlayerProperties.CancelAfterOneCharacter` | src/extension.ts:129-130 | whole document `"abc"`, replacement `"xyz"`, cancel after `"x"`: the document is `"abc"` again with the selection restored |
| `CancelProperties.QuietRun` | src/extension.ts:123-153 | steps taken while nothing happens can be run first: the loops then go on from where they leave off |
| `CancelProperties.QuietlyTypes` | src/extension.ts:128-151 | steps taken while nothing happens type their text at the cursor and leave the cursor just after it |
| `CancelProperties.LoopsCancelled` | src/extension.ts:123-153 | a first cancel in the pause after character `j` of line `i` is acted on at the next loop head, after that line's break when it has one; only after the last character of the last line do the loops end normally with the cancel pending |
| `CancelProperties.CancelDuringTyping` | src/extension.ts:123-170 | without finish or rejected edits, a first cancel in the pause after any typed character leaves everything typed so far, a prefix of the whole typed text, between the text before and after the selection; the original text is then written over the original range of that document and the selection restored, unless it was the last character, when the run completes with all of it typed and the cancel recorded |
| `CancelProperties.CancelInLastPauseIgnored` | src/extension.ts:136-153 | `"x"` into an empty document with a cancel in the pause after it completes with `"x"`, the cancel recorded |
| `CancelProperties.TypedPastRangeSurvives` | src/extension.ts:163-169 | `"abc"` all selected, `"vwxyz"` cancelled after the `"y"`, is rolled back to `"abcy"` with the selection restored |
| `PlayerProperties.FinishWinsOverCancel` | src/extension.ts:124-125 | both commands during the deletion (the first loop head): the run ends `Flushed`, not rolled back, with both requests recorded (the resulting text is the one `FinishAtOnce` states) |
| `PlayerProperties.FinishPendingFlushes` | src/extension.ts:124-161 | from any point of the loops with finish pending and the finish edit accepted: the run ends `Flushed`, never rolled back, a pending cancel stays recorded, the selection is kept, and the text is the current one with `newCode` from the cursor's document offset on inserted at the cursor |

## Left out

- `cleanCodeWithLLM` (the HTTP call to the model provider and the API-key lookup) is network I/O. The replacement text is a parameter.
- The commented-out Gemini client is dead code.
- `showLoadingIndicator`, command registration, the Apply/Preview dialog, opening the preview document, the information and error messages, and `deactivate` are host-editor UI glue.
- The `setTimeout` delay and `speed`: time is not modelled. Each pause is only a suspension point where a tick is consumed.
- Concurrency and scheduling: each edit is atomic, and user commands arrive only at suspension points, through the handlers, as the ticks say.
- An edit that the host resolves with `false` (not applied, no exception) is not modelled separately. A rejected edit in the model raises, as a rejected promise does.
- How the host moves the selection when text is inserted is not modelled. The deletion collapses the selection to its start, and only the rollback sets it again.
- `Player.AnimateCodeReplacement`: the selected text is read with `TextIn`, which clamps positions like `OffsetAt`; the host's own range validation is not modelled beyond that.
- `Text.OffsetAt`: columns and offsets count Dafny characters. The host counts UTF-16 code units, so a character outside the Basic Multilingual Plane is two columns and two character edits there and one here.
- `Documents.Editor.Insert`: only `'\n'` line ends are modelled. The host also treats `"\r\n"` and `"\r"` as line ends and converts the line ends of inserted text to the document's. In a CRLF document the `'\n'` edit at src/extension.ts:146 adds two characters and shifts every later offset, including the one the finish edit at src/extension.ts:157 reads.
- The cursor is not part of `Final`, so the cursor position at the end of a run is not stated; `TypeCharStep`, `BreakLineStep` and `RunWithoutCancel` state it step by step.
