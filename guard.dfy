/** The guard in front of a cleaning request (src/extension.ts,
    `getSelectedCode`): there must be an active editor, and the selected
    text may not run over 100 lines, counted as the pieces that splitting
    it on '\n' gives. */
module SelectionGuard {
  import opened Text
  import opened Documents

  /** The most lines a selection may span. */
  const MaxLines := 100

  /** The number of lines of `text`, as `text.split('\n').length`. */
  function LineCount(text: string): (n: nat)
    ensures n == NewlineCount(text) + 1
    ensures n >= 1
  {
    |Split(text)|
  }

  /** `NewlineCount` is the multiplicity of '\n' in the text. */
  lemma {:induction false} NewlineCountIsMultiplicity(s: string)
    ensures NewlineCount(s) == multiset(s)['\n']
  {
    if s != [] {
      assert s == [s[0]] + s[1..];
      assert multiset(s) == multiset([s[0]]) + multiset(s[1..]);
      NewlineCountIsMultiplicity(s[1..]);
    }
  }

  /** A selection is refused exactly when it holds at least 100 line
      separators, that is when its pieces number more than 100. */
  lemma TooLongIffSeparators(text: string)
    ensures LineCount(text) > MaxLines <==> multiset(text)['\n'] >= MaxLines
  {
    NewlineCountIsMultiplicity(text);
  }

  /** The selected text of the active editor, or nothing when there is no
      active editor or the selection spans more than 100 lines. */
  function GetSelectedCode(editor: Editor?): (r: Option<string>)
    reads editor
    requires editor != null ==> editor.Valid()
    ensures r.Some? <==> editor != null && multiset(TextIn(editor.text, editor.selection))['\n'] < MaxLines
    ensures r.Some? ==> r.value == TextIn(editor.text, editor.selection)
  {
    if editor == null then None
    else
      var text := TextIn(editor.text, editor.selection);
      TooLongIffSeparators(text);
      if LineCount(text) > MaxLines then None else Some(text)
  }
}
