/** Text buffers as the host editor sees them: a document is a string whose
    lines are separated by '\n', a location in it is a zero-based
    (line, character) pair, and `OffsetAt` turns a location into an index
    into the string, clamping it into the document the way the editor does. */
module Text {

  datatype Option<T> = None | Some(value: T)

  /** A zero-based (line, character) location. */
  datatype Position = Position(line: nat, character: nat)

  /** A span of the document between two locations. */
  datatype Range = Range(start: Position, end: Position)

  function Min(a: int, b: int): int { if a <= b then a else b }

  /** `p` is not after `q` in reading order. */
  predicate Before(p: Position, q: Position)
  {
    p.line < q.line || (p.line == q.line && p.character <= q.character)
  }

  /** Index of the first '\n' of `doc`, or its length when there is none. */
  function LineEnd(doc: string): (r: nat)
    ensures r <= |doc|
    ensures r < |doc| ==> doc[r] == '\n'
  {
    if doc == [] || doc[0] == '\n' then 0 else 1 + LineEnd(doc[1..])
  }

  /** No separator comes before `LineEnd`. */
  lemma {:induction false} LineEndFirst(doc: string)
    ensures '\n' !in doc[..LineEnd(doc)]
  {
    if doc != [] && doc[0] != '\n' {
      LineEndFirst(doc[1..]);
      assert doc[..LineEnd(doc)] == [doc[0]] + doc[1..][..LineEnd(doc[1..])];
    }
  }

  lemma NoNewlinePrefix(s: string, c: nat)
    requires '\n' !in s && c <= |s|
    ensures '\n' !in s[..c]
  {
    assert s == s[..c] + s[c..];
  }

  /** A first line free of separators adds its length to the line end. */
  lemma {:induction false} LineEndAppend(a: string, b: string)
    requires '\n' !in a
    ensures LineEnd(a + b) == |a| + LineEnd(b)
  {
    if a == [] {
      assert a + b == b;
    } else {
      assert a == [a[0]] + a[1..];
      assert (a + b)[1..] == a[1..] + b;
      LineEndAppend(a[1..], b);
    }
  }

  /** A separator-free prefix followed by '\n' ends the first line. */
  lemma LineEndAt(doc: string, e: nat)
    requires e < |doc| && '\n' !in doc[..e] && doc[e] == '\n'
    ensures LineEnd(doc) == e
  {
    assert doc == doc[..e] + doc[e..];
    LineEndAppend(doc[..e], doc[e..]);
  }

  /** The document offset of a location; a character past the end of its
      line means the end of that line, a line past the last one the end of
      the document. */
  function OffsetAt(doc: string, p: Position): (r: nat)
    ensures r <= |doc|
    decreases p.line
  {
    var e := LineEnd(doc);
    if p.line == 0 then Min(p.character, e)
    else if e == |doc| then |doc|
    else e + 1 + OffsetAt(doc[e + 1..], Position(p.line - 1, p.character))
  }

  /** `p` names an existing line and a character on it (or its end). */
  predicate ValidPosition(doc: string, p: Position)
    decreases p.line
  {
    var e := LineEnd(doc);
    if p.line == 0 then p.character <= e
    else e < |doc| && ValidPosition(doc[e + 1..], Position(p.line - 1, p.character))
  }

  /** Number of '\n' characters in `s`. */
  function NewlineCount(s: string): nat
  {
    if s == [] then 0 else (if s[0] == '\n' then 1 else 0) + NewlineCount(s[1..])
  }

  lemma {:induction false} NewlineCountAppend(a: string, b: string)
    ensures NewlineCount(a + b) == NewlineCount(a) + NewlineCount(b)
  {
    if a == [] {
      assert a + b == b;
    } else {
      assert (a + b)[0] == a[0];
      assert (a + b)[1..] == a[1..] + b;
      NewlineCountAppend(a[1..], b);
    }
  }

  lemma {:induction false} NewlineCountNone(s: string)
    requires '\n' !in s
    ensures NewlineCount(s) == 0
  {
    if s != [] {
      assert s == [s[0]] + s[1..];
      NewlineCountNone(s[1..]);
    }
  }

  /** Lines joined by '\n', the inverse of `Split`. */
  function Join(lines: seq<string>): string
  {
    if |lines| == 0 then ""
    else if |lines| == 1 then lines[0]
    else lines[0] + "\n" + Join(lines[1..])
  }

  /** The pieces of `s` between its '\n' characters, as JavaScript's
      `s.split('\n')` returns them: there is always at least one piece, and
      one more than there are separators. */
  function Split(s: string): (r: seq<string>)
    ensures |r| == NewlineCount(s) + 1
    ensures forall i :: 0 <= i < |r| ==> '\n' !in r[i]
    ensures Join(r) == s
    decreases |s|
  {
    var e := LineEnd(s);
    LineEndFirst(s);
    if e == |s| then
      NewlineCountNone(s);
      [s]
    else
      var rest := Split(s[e + 1..]);
      assert s == s[..e] + "\n" + s[e + 1..];
      NewlineCountAppend(s[..e] + "\n", s[e + 1..]);
      NewlineCountAppend(s[..e], "\n");
      NewlineCountNone(s[..e]);
      [s[..e]] + rest
  }

  /** Splitting undoes joining for lines that hold no separator. */
  lemma {:induction false} SplitJoin(lines: seq<string>)
    requires |lines| >= 1
    requires forall i :: 0 <= i < |lines| ==> '\n' !in lines[i]
    ensures Split(Join(lines)) == lines
    decreases |lines|, 1
  {
    if |lines| == 1 {
      assert LineEnd(lines[0]) == |lines[0]| by {
        LineEndAppend(lines[0], []);
        assert lines[0] + [] == lines[0];
      }
    } else {
      SplitJoinCons(lines);
    }
  }

  /** `SplitJoin` for two lines or more: the first line ends at the first
      separator, and the rest follows by induction. */
  lemma {:induction false} SplitJoinCons(lines: seq<string>)
    requires |lines| >= 2
    requires forall i :: 0 <= i < |lines| ==> '\n' !in lines[i]
    ensures Split(Join(lines)) == lines
    decreases |lines|, 0
  {
    var s := Join(lines);
    var tail := lines[1..];
    var n := |lines[0]|;
    assert LineEnd(s) == n && s[..n] == lines[0] && s[n + 1..] == Join(tail) by {
      assert s == lines[0] + ("\n" + Join(tail));
      LineEndAppend(lines[0], "\n" + Join(tail));
    }
    assert Split(s) == [lines[0]] + Split(Join(tail));
    SplitJoin(tail);
    assert lines == [lines[0]] + tail;
  }

  /** `t` inserted into `doc` at offset `o`. */
  function InsertAt(doc: string, o: nat, t: string): string
    requires o <= |doc|
  {
    doc[..o] + t + doc[o..]
  }

  /** The text of `r` in `doc`. */
  function TextIn(doc: string, r: Range): string
    requires Before(r.start, r.end)
  {
    OffsetAtMonotone(doc, r.start, r.end);
    doc[OffsetAt(doc, r.start)..OffsetAt(doc, r.end)]
  }

  /** `doc` with the text of `r` replaced by `t`; `r` is read in the
      coordinates of `doc` itself. */
  function ReplaceRange(doc: string, r: Range, t: string): string
    requires Before(r.start, r.end)
  {
    OffsetAtMonotone(doc, r.start, r.end);
    doc[..OffsetAt(doc, r.start)] + t + doc[OffsetAt(doc, r.end)..]
  }

  /** Offsets follow reading order, even for locations the document does not
      have. */
  lemma {:induction false} OffsetAtMonotone(doc: string, p: Position, q: Position)
    requires Before(p, q)
    ensures OffsetAt(doc, p) <= OffsetAt(doc, q)
    decreases p.line
  {
    var e := LineEnd(doc);
    if p.line == 0 {
      if q.line > 0 && e < |doc| {
        PeelLine(doc, e, q);
      }
    } else if e < |doc| {
      PeelLine(doc, e, p);
      PeelLine(doc, e, q);
      OffsetAtMonotone(doc[e + 1..], Position(p.line - 1, p.character), Position(q.line - 1, q.character));
    }
  }

  /** Inserting into the second part of a concatenation. */
  lemma InsertAtShift(a: string, b: string, o: nat, t: string)
    requires o <= |b|
    ensures InsertAt(a + b, |a| + o, t) == a + InsertAt(b, o, t)
  {
    assert (a + b)[..|a| + o] == a + b[..o];
    assert (a + b)[|a| + o..] == b[o..];
  }

  /** The text before a location on the first line holds no separator. */
  lemma FirstLinePrefix(doc: string, c: nat)
    requires c <= LineEnd(doc)
    ensures '\n' !in doc[..c]
  {
    var e := LineEnd(doc);
    LineEndFirst(doc);
    NoNewlinePrefix(doc[..e], c);
    assert doc[..e][..c] == doc[..c];
  }

  /** A document starting with `c` characters other than '\n' has a first
      line at least `c` long. */
  lemma LineEndAtLeast(doc: string, c: nat)
    requires c <= |doc| && '\n' !in doc[..c]
    ensures LineEnd(doc) >= c
  {
    forall i | 0 <= i < c
      ensures doc[i] != '\n'
    {
      assert doc[i] == doc[..c][i];
    }
    NoBreakBefore(doc, c);
  }

  lemma {:induction false} NoBreakBefore(doc: string, c: nat)
    requires c <= |doc| && forall i :: 0 <= i < c ==> doc[i] != '\n'
    ensures LineEnd(doc) >= c
    decreases c
  {
    if c > 0 {
      assert forall i :: 0 <= i < c - 1 ==> doc[1..][i] == doc[i + 1];
      NoBreakBefore(doc[1..], c - 1);
    }
  }

  /** On the first line, a location keeps its offset in any document that
      agrees with `doc` up to it. */
  lemma PrefixKeepsFirstLine(doc: string, doc': string, c: nat)
    requires c <= LineEnd(doc) && c <= |doc'| && doc'[..c] == doc[..c]
    ensures ValidPosition(doc', Position(0, c)) && OffsetAt(doc', Position(0, c)) == c
  {
    FirstLinePrefix(doc, c);
    LineEndAtLeast(doc', c);
  }

  /** Two documents that agree on the first line and its separator. */
  lemma PrefixKeepsLineEnd(doc: string, doc': string, e: nat)
    requires e == LineEnd(doc) && e < |doc| && e < |doc'| && doc'[..e + 1] == doc[..e + 1]
    ensures LineEnd(doc') == e
  {
    assert doc'[..e] == doc'[..e + 1][..e];
    assert doc[..e] == doc[..e + 1][..e];
    assert doc'[e] == doc'[..e + 1][e];
    assert doc[e] == doc[..e + 1][e];
    SameFirstLine(doc, e, doc');
  }

  /** A valid location keeps its offset in any document that agrees with
      `doc` up to that offset. */
  lemma {:induction false} PrefixKeepsOffset(doc: string, doc': string, p: Position)
    requires ValidPosition(doc, p)
    requires OffsetAt(doc, p) <= |doc'|
    requires forall i :: 0 <= i < OffsetAt(doc, p) ==> doc'[i] == doc[i]
    ensures ValidPosition(doc', p) && OffsetAt(doc', p) == OffsetAt(doc, p)
    decreases p.line, 1
  {
    if p.line == 0 {
      var c := p.character;
      assert doc'[..c] == doc[..c];
      PrefixKeepsFirstLine(doc, doc', c);
    } else {
      PrefixKeepsLaterOffset(doc, doc', p);
    }
  }

  /** `PrefixKeepsOffset` for a location past the first line: both
      documents share the first line, and the rest follows by induction. */
  lemma {:induction false} PrefixKeepsLaterOffset(doc: string, doc': string, p: Position)
    requires p.line > 0 && ValidPosition(doc, p)
    requires OffsetAt(doc, p) <= |doc'|
    requires forall i :: 0 <= i < OffsetAt(doc, p) ==> doc'[i] == doc[i]
    ensures ValidPosition(doc', p) && OffsetAt(doc', p) == OffsetAt(doc, p)
    decreases p.line, 0
  {
    var e := LineEnd(doc);
    var q := Position(p.line - 1, p.character);
    var rest, rest' := doc[e + 1..], doc'[e + 1..];
    PeelLine(doc, e, p);
    var o' := OffsetAt(rest, q);
    assert doc'[..e + 1] == doc[..e + 1];
    PrefixKeepsLineEnd(doc, doc', e);
    assert forall i :: 0 <= i < o' ==> rest'[i] == rest[i] by {
      forall i | 0 <= i < o'
        ensures rest'[i] == rest[i]
      {
        assert rest'[i] == doc'[e + 1 + i] && rest[i] == doc[e + 1 + i];
      }
    }
    PrefixKeepsOffset(rest, rest', q);
    PeelLine(doc', e, p);
  }

  /** Inserting at offset `k + 1 + o` leaves the first `k + 1` characters
      alone and inserts at `o` into what follows them. */
  lemma InsertAtPast(doc: string, k: nat, o: nat, t: string, d: string)
    requires k < |doc| && o <= |doc| - k - 1
    requires d == InsertAt(doc, k + 1 + o, t)
    ensures d[..k] == doc[..k] && d[k] == doc[k]
    ensures d[k + 1..] == InsertAt(doc[k + 1..], o, t)
  {
    var head := doc[..k + 1];
    var rest := doc[k + 1..];
    assert doc == head + rest;
    InsertAtShift(head, rest, o, t);
  }

  /** A document whose first line and separator agree with those of `doc`
      has the same first line end. */
  lemma SameFirstLine(doc: string, e: nat, d: string)
    requires e == LineEnd(doc) && e < |doc| && e < |d|
    requires d[..e] == doc[..e] && d[e] == doc[e]
    ensures LineEnd(d) == e
  {
    LineEndFirst(doc);
    LineEndAt(d, e);
  }

  /** An insertion past the first line leaves the first line alone; the
      rest of the document receives it. */
  lemma SpliceAfterFirstLine(doc: string, e: nat, o: nat, t: string, d: string)
    requires e == LineEnd(doc) && e < |doc|
    requires o <= |doc| - e - 1
    requires d == InsertAt(doc, e + 1 + o, t)
    ensures LineEnd(d) == e
    ensures d[e + 1..] == InsertAt(doc[e + 1..], o, t)
  {
    InsertAtPast(doc, e, o, t, d);
    SameFirstLine(doc, e, d);
  }

  /** One step of `OffsetAt` and `ValidPosition` past the first line. */
  lemma PeelLine(doc: string, e: nat, p: Position)
    requires e == LineEnd(doc) && e < |doc| && p.line > 0
    ensures ValidPosition(doc, p) == ValidPosition(doc[e + 1..], Position(p.line - 1, p.character))
    ensures OffsetAt(doc, p) == e + 1 + OffsetAt(doc[e + 1..], Position(p.line - 1, p.character))
  {
  }

  lemma InsertCharOnFirstLine(doc: string, c: nat, ch: char)
    requires c <= LineEnd(doc) && ch != '\n'
    ensures LineEnd(InsertAt(doc, c, [ch])) == LineEnd(doc) + 1
  {
    var e := LineEnd(doc);
    LineEndFirst(doc);
    NoNewlinePrefix(doc[..e], c);
    assert doc[..e][..c] == doc[..c];
    assert doc == doc[..c] + doc[c..];
    LineEndAppend(doc[..c], doc[c..]);
    assert InsertAt(doc, c, [ch]) == (doc[..c] + [ch]) + doc[c..];
    LineEndAppend(doc[..c] + [ch], doc[c..]);
  }

  lemma InsertNewlineOnFirstLine(doc: string, c: nat)
    requires c <= LineEnd(doc)
    ensures LineEnd(InsertAt(doc, c, "\n")) == c
    ensures InsertAt(doc, c, "\n")[c + 1..] == doc[c..]
  {
    var e := LineEnd(doc);
    LineEndFirst(doc);
    NoNewlinePrefix(doc[..e], c);
    assert doc[..e][..c] == doc[..c];
    assert InsertAt(doc, c, "\n") == doc[..c] + ("\n" + doc[c..]);
    LineEndAppend(doc[..c], "\n" + doc[c..]);
  }

  /** Typing a character other than '\n' at a valid location moves that
      location one character to the right: the next location on the same
      line is valid and lies just after the inserted character. */
  lemma {:induction false} InsertCharAdvances(doc: string, p: Position, ch: char, d: string)
    requires ValidPosition(doc, p)
    requires ch != '\n'
    requires d == InsertAt(doc, OffsetAt(doc, p), [ch])
    ensures ValidPosition(d, Position(p.line, p.character + 1))
    ensures OffsetAt(d, Position(p.line, p.character + 1)) == OffsetAt(doc, p) + 1
    decreases p.line, 1
  {
    if p.line == 0 {
      InsertCharOnFirstLine(doc, p.character, ch);
    } else {
      InsertCharPastFirstLine(doc, p, ch, d);
    }
  }

  /** `InsertCharAdvances` past the first line, which the insertion leaves
      alone. */
  lemma {:induction false} InsertCharPastFirstLine(doc: string, p: Position, ch: char, d: string)
    requires p.line > 0 && ValidPosition(doc, p)
    requires ch != '\n'
    requires d == InsertAt(doc, OffsetAt(doc, p), [ch])
    ensures ValidPosition(d, Position(p.line, p.character + 1))
    ensures OffsetAt(d, Position(p.line, p.character + 1)) == OffsetAt(doc, p) + 1
    decreases p.line, 0
  {
    var o := OffsetAt(doc, p);
    var e := LineEnd(doc);
    LineEndFirst(doc);
    var q := Position(p.line - 1, p.character);
    var rest := doc[e + 1..];
    var o' := OffsetAt(rest, q);
    assert o == e + 1 + o';
    var d' := InsertAt(rest, o', [ch]);
    SpliceAfterFirstLine(doc, e, o', [ch], d);
    InsertCharAdvances(rest, q, ch, d');
    var np := Position(p.line, p.character + 1);
    var nq := Position(q.line, q.character + 1);
    assert nq == Position(np.line - 1, np.character);
    PeelLine(d, e, np);
  }

  /** Typing '\n' at a valid location moves it to the start of the next
      line, just after the inserted separator. */
  lemma {:induction false} InsertNewlineAdvances(doc: string, p: Position, d: string)
    requires ValidPosition(doc, p)
    requires d == InsertAt(doc, OffsetAt(doc, p), "\n")
    ensures ValidPosition(d, Position(p.line + 1, 0))
    ensures OffsetAt(d, Position(p.line + 1, 0)) == OffsetAt(doc, p) + 1
    decreases p.line, 1
  {
    if p.line == 0 {
      InsertNewlineOnFirstLine(doc, p.character);
      PeelLine(d, p.character, Position(1, 0));
    } else {
      InsertNewlinePastFirstLine(doc, p, d);
    }
  }

  /** `InsertNewlineAdvances` past the first line, which the insertion
      leaves alone. */
  lemma {:induction false} InsertNewlinePastFirstLine(doc: string, p: Position, d: string)
    requires p.line > 0 && ValidPosition(doc, p)
    requires d == InsertAt(doc, OffsetAt(doc, p), "\n")
    ensures ValidPosition(d, Position(p.line + 1, 0))
    ensures OffsetAt(d, Position(p.line + 1, 0)) == OffsetAt(doc, p) + 1
    decreases p.line, 0
  {
    var o := OffsetAt(doc, p);
    var e := LineEnd(doc);
    LineEndFirst(doc);
    var q := Position(p.line - 1, p.character);
    var rest := doc[e + 1..];
    var o' := OffsetAt(rest, q);
    assert o == e + 1 + o';
    var d' := InsertAt(rest, o', "\n");
    SpliceAfterFirstLine(doc, e, o', "\n", d);
    InsertNewlineAdvances(rest, q, d');
    var np := Position(p.line + 1, 0);
    var nq := Position(q.line + 1, 0);
    assert nq == Position(np.line - 1, np.character);
    PeelLine(d, e, np);
  }
}
