/** The record that one animated replacement shares with the two control
    commands (src/extension.ts, `animationState`): whether a replacement is
    running, the two requests the user can make while it runs, and what the
    selection held before it started. */
module Sessions {
  import opened Text

  datatype SessionState = SessionState(
    active: bool,
    cancelRequested: bool,
    finishRequested: bool,
    originalCode: string,
    originalSelection: Option<Range>)

  /** The record as the extension declares it, before any replacement. */
  const Initial := SessionState(false, false, false, "", None)

  /** The finish command: it marks a running replacement for early
      completion and changes nothing else; with nothing running it does
      nothing. */
  function RequestFinish(s: SessionState): (r: SessionState)
    ensures !s.active ==> r == s
    ensures s.active ==> r.finishRequested
    ensures r.(finishRequested := s.finishRequested) == s
  {
    if s.active then s.(finishRequested := true) else s
  }

  /** The cancel command: it marks a running replacement for rollback and
      changes nothing else; with nothing running it does nothing. */
  function RequestCancel(s: SessionState): (r: SessionState)
    ensures !s.active ==> r == s
    ensures s.active ==> r.cancelRequested
    ensures r.(cancelRequested := s.cancelRequested) == s
  {
    if s.active then s.(cancelRequested := true) else s
  }

  /** Giving either command twice is the same as giving it once. */
  lemma RequestsIdempotent(s: SessionState)
    ensures RequestFinish(RequestFinish(s)) == RequestFinish(s)
    ensures RequestCancel(RequestCancel(s)) == RequestCancel(s)
  {
  }

  /** The two commands touch different flags, so their order does not
      matter. */
  lemma RequestsCommute(s: SessionState)
    ensures RequestFinish(RequestCancel(s)) == RequestCancel(RequestFinish(s))
  {
  }

  /** The mutable record itself. */
  class Session {
    var active: bool
    var cancelRequested: bool
    var finishRequested: bool
    var originalCode: string
    var originalSelection: Option<Range>

    function State(): SessionState
      reads this
    {
      SessionState(active, cancelRequested, finishRequested, originalCode, originalSelection)
    }

    constructor ()
      ensures State() == Initial
    {
      active := false;
      cancelRequested := false;
      finishRequested := false;
      originalCode := "";
      originalSelection := None;
    }

    /** Opening a replacement: the record becomes active with both requests
        cleared and remembers the selection and its text. */
    method Start(code: string, selection: Range)
      modifies this
      ensures State() == SessionState(true, false, false, code, Some(selection))
    {
      active := true;
      cancelRequested := false;
      finishRequested := false;
      originalCode := code;
      originalSelection := Some(selection);
    }

    /** The handler of the finish command. */
    method OnFinish()
      modifies this
      ensures State() == RequestFinish(old(State()))
    {
      if active {
        finishRequested := true;
      }
    }

    /** The handler of the cancel command. */
    method OnCancel()
      modifies this
      ensures State() == RequestCancel(old(State()))
    {
      if active {
        cancelRequested := true;
      }
    }

    /** Closing a replacement, whichever way it ended. */
    method Stop()
      modifies this
      ensures State() == old(State()).(active := false)
    {
      active := false;
    }
  }
}
