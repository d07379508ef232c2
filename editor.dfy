/** The part of the host editor that the replacement uses: the text of the
    document, the selection, and edits that the host applies one at a time.
    Whether the host accepts an edit is not up to the extension, so each
    edit takes that decision as an argument: a rejected edit leaves the
    document as it was. */
module Documents {
  import opened Text

  class Editor {
    var text: string
    var selection: Range

    /** The host keeps the start of a selection before its end. */
    predicate Valid()
      reads this
    {
      Before(selection.start, selection.end)
    }

    constructor (text: string, selection: Range)
      requires Before(selection.start, selection.end)
      ensures Valid() && this.text == text && this.selection == selection
    {
      this.text := text;
      this.selection := selection;
    }

    /** Deleting the selected text; the selection collapses to where the
        deleted text began. */
    method DeleteSelection(rejected: bool) returns (applied: bool)
      requires Valid()
      modifies this
      ensures Valid()
      ensures applied == !rejected
      ensures applied ==> text == ReplaceRange(old(text), old(selection), "")
                          && selection == Range(old(selection).start, old(selection).start)
      ensures !applied ==> text == old(text) && selection == old(selection)
    {
      applied := !rejected;
      if applied {
        text := ReplaceRange(text, selection, "");
        selection := Range(selection.start, selection.start);
      }
    }

    /** Inserting `t` at location `p`, read in the current document. */
    method Insert(p: Position, t: string, rejected: bool) returns (applied: bool)
      modifies this
      ensures applied == !rejected
      ensures text == if applied then InsertAt(old(text), OffsetAt(old(text), p), t) else old(text)
      ensures selection == old(selection)
    {
      applied := !rejected;
      if applied {
        text := InsertAt(text, OffsetAt(text, p), t);
      }
    }

    /** Replacing the text of `r`, read in the current document, by `t`. */
    method Replace(r: Range, t: string, rejected: bool) returns (applied: bool)
      requires Before(r.start, r.end)
      modifies this
      ensures applied == !rejected
      ensures text == if applied then ReplaceRange(old(text), r, t) else old(text)
      ensures selection == old(selection)
    {
      applied := !rejected;
      if applied {
        text := ReplaceRange(text, r, t);
      }
    }
  }
}
