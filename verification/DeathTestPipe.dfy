/**
 * The two processes of a death test and the pipe between them, as small steps of either
 * process in any order. The parent runs AssumeRole, Wait and Passed; the child runs the test
 * statement and, if it survives, Abort. Descriptors, the pipe's bytes and the child's exit
 * status are the whole of the operating system here.
 */
module DeathTestPipe {

  datatype Outcome = IN_PROGRESS | DIED | LIVED | RETURNED

  datatype AbortReason = TEST_DID_NOT_DIE | TEST_ENCOUNTERED_RETURN_STATEMENT

  const LIVED_FLAG := 'L'
  const RETURNED_FLAG := 'R'
  const INTERNAL_ERROR_FLAG := 'I'

  function FlagOf(reason: AbortReason): char {
    if reason == TEST_DID_NOT_DIE then LIVED_FLAG else RETURNED_FLAG
  }

  datatype Failure =
    | CheckFailed                  // a close on a descriptor that is not open
    | ReadFailed                   // a read on a descriptor that is not open
    | UnexpectedByte(flag: char)
    | InternalError(message: string)

  datatype Parent =
    | ClosingWriteEnd              // AssumeRole: close(pipe_fd[1])
    | Reading                      // Wait: read one flag byte
    | ReadingMessage(text: string) // FailFromInternalError: read up to the end of the pipe
    | ClosingReadEnd               // Wait: close(read_fd_)
    | Waiting                      // Wait: waitpid(child_pid_, &status_, 0)
    | Concluded
    | Fatal(failure: Failure)

  datatype Child =
    | ClosingReadEndOfChild        // close(pipe_fd[0]), or close_fd before the exec
    | Executing                    // the test statement
    | WritingFlag(reason: AbortReason)
    | ClosingWriteEndOfChild
    | Exiting
    | Reporting(rest: string)      // DeathTestAbort after an exec: flag byte and message still to be written
    | Gone(status: int)

  datatype State = State(
    threadsafe: bool,              // fork and exec, rather than fork alone
    capacity: nat,                 // how many bytes the pipe holds before a write blocks
    parent: Parent,
    child: Child,
    parentReadOpen: bool,
    parentWriteOpen: bool,
    childReadOpen: bool,
    childWriteOpen: bool,
    pipe: string,                  // bytes written and not yet read
    outcome: Outcome,
    status: int,
    sent: string,                  // history: every byte the child has written
    received: string)              // history: every byte the parent has read

  /** Right after pipe() and fork(): both processes hold both ends. */
  predicate Initial(s: State) {
    s.capacity >= 1 && s.parent == ClosingWriteEnd && s.child == ClosingReadEndOfChild &&
    s.parentReadOpen && s.parentWriteOpen && s.childReadOpen && s.childWriteOpen &&
    s.pipe == "" && s.outcome == IN_PROGRESS && s.status == -1 && s.sent == "" && s.received == ""
  }

  /** A read on an empty pipe returns 0 only when nobody holds the write end. */
  predicate AtEndOfFile(s: State) {
    s.pipe == "" && !s.parentWriteOpen && !s.childWriteOpen
  }

  // ------------------------------------------------------------------ steps

  /** The switch over the flag byte. */
  function TakeFlag(s: State, flag: char): State {
    if flag == RETURNED_FLAG then s.(parent := ClosingReadEnd, outcome := RETURNED)
    else if flag == LIVED_FLAG then s.(parent := ClosingReadEnd, outcome := LIVED)
    else if flag == INTERNAL_ERROR_FLAG then s.(parent := ReadingMessage(""))
    else s.(parent := Fatal(UnexpectedByte(flag)))
  }

  /** One system call of the parent with what the code does on its result. */
  ghost predicate ParentStep(s: State, s': State) {
    match s.parent
    case ClosingWriteEnd =>
      s' == if s.parentWriteOpen then s.(parent := Reading, parentWriteOpen := false)
            else s.(parent := Fatal(CheckFailed))
    case Reading =>
      if !s.parentReadOpen then s' == s.(parent := Fatal(ReadFailed))
      else if s.pipe != "" then
        s' == TakeFlag(s.(pipe := s.pipe[1..], received := s.received + s.pipe[..1]), s.pipe[0])
      else AtEndOfFile(s) && s' == s.(parent := ClosingReadEnd, outcome := DIED)
    case ReadingMessage(text) =>
      if !s.parentReadOpen then s' == s.(parent := Fatal(ReadFailed))
      else if s.pipe != "" then
        exists n :: 1 <= n <= 255 && n <= |s.pipe| &&
          s' == s.(pipe := s.pipe[n..], received := s.received + s.pipe[..n],
                   parent := ReadingMessage(text + s.pipe[..n]))
      else AtEndOfFile(s) && s' == s.(parent := Fatal(InternalError(text)))
    case ClosingReadEnd =>
      s' == if s.parentReadOpen then s.(parent := Waiting, parentReadOpen := false)
            else s.(parent := Fatal(CheckFailed))
    case Waiting =>
      s.child.Gone? && s' == s.(parent := Concluded, status := s.child.status)
    case Concluded => false
    case Fatal(_) => false
  }

  function Die(s: State, status: int): State {
    s.(child := Gone(status), childReadOpen := false, childWriteOpen := false)
  }

  ghost predicate ChildDies(s: State, s': State) {
    exists status :: s' == Die(s, status)
  }

  /** DeathTestAbort: only a re-executed child knows the flag descriptor; otherwise it just aborts. */
  function ChildAbort(s: State, message: string): State {
    if s.threadsafe && s.child == Executing then s.(child := Reporting([INTERNAL_ERROR_FLAG] + message))
    else Die(s, 6)
  }

  ghost predicate ChildCode(s: State, s': State) {
    match s.child
    case ClosingReadEndOfChild =>
      s' == if s.childReadOpen then s.(child := Executing, childReadOpen := false)
            else ChildAbort(s, "close")
    case Executing =>
      (exists reason :: s' == s.(child := WritingFlag(reason))) ||
      (exists message :: s' == ChildAbort(s, message))
    case WritingFlag(reason) =>
      if s.childWriteOpen then
        |s.pipe| < s.capacity &&
        s' == s.(child := ClosingWriteEndOfChild, pipe := s.pipe + [FlagOf(reason)], sent := s.sent + [FlagOf(reason)])
      else s' == ChildAbort(s, "write")
    case ClosingWriteEndOfChild =>
      s' == if s.childWriteOpen then s.(child := Exiting, childWriteOpen := false) else ChildAbort(s, "close")
    case Exiting =>
      s' == Die(s, 256)
    case Reporting(rest) =>
      if rest == "" then s' == Die(s, 256)
      else exists n :: 1 <= n <= |rest| && |s.pipe| + n <= s.capacity &&
             s' == s.(child := Reporting(rest[n..]), pipe := s.pipe + rest[..n], sent := s.sent + rest[..n])
    case Gone(_) => false
  }

  /** One step of the child: of its own code, or its death by whatever the statement does or by a signal. */
  ghost predicate ChildStep(s: State, s': State) {
    !s.child.Gone? && (ChildDies(s, s') || ChildCode(s, s'))
  }

  /** A system call that returns -1 with EINTR is simply made again. */
  ghost predicate Interrupted(s: State, s': State) {
    s' == s
  }

  ghost predicate Next(s: State, s': State) {
    ParentStep(s, s') || ChildStep(s, s') || Interrupted(s, s')
  }

  ghost predicate StepAt(run: seq<State>, i: nat)
    requires i + 1 < |run|
  {
    Next(run[i], run[i + 1])
  }

  /** Any interleaving of the two processes. */
  ghost predicate Run(run: seq<State>) {
    run != [] && Initial(run[0]) && forall i: nat :: i + 1 < |run| ==> StepAt(run, i)
  }

  // ------------------------------------------------------------------ what every step keeps

  ghost predicate DescriptorsFit(s: State) {
    (s.parentWriteOpen <==> s.parent == ClosingWriteEnd) &&
    (s.parentReadOpen <==> !s.parent.Waiting? && !s.parent.Concluded?) &&
    (s.childReadOpen <==> s.child == ClosingReadEndOfChild) &&
    (s.childWriteOpen <==> !s.child.Exiting? && !s.child.Gone?)
  }

  /** What the child has written fits where it is: nothing before the flag, never more than one flag. */
  ghost predicate SentFits(s: State) {
    (s.child.ClosingReadEndOfChild? || s.child.Executing? || s.child.WritingFlag? ==> s.sent == "") &&
    (s.child.ClosingWriteEndOfChild? || s.child.Exiting? ==> s.sent == [LIVED_FLAG] || s.sent == [RETURNED_FLAG]) &&
    (s.child.Reporting? ==>
      s.threadsafe && s.sent + s.child.rest != "" && (s.sent + s.child.rest)[0] == INTERNAL_ERROR_FLAG) &&
    (s.child.Gone? ==>
      s.sent == "" || s.sent == [LIVED_FLAG] || s.sent == [RETURNED_FLAG] ||
      (s.threadsafe && s.sent[0] == INTERNAL_ERROR_FLAG))
  }

  /** What the parent has read decides its outcome. */
  ghost predicate OutcomeFits(s: State) {
    s.sent == s.received + s.pipe &&
    match s.parent
    case ClosingWriteEnd => s.received == "" && s.outcome == IN_PROGRESS
    case Reading => s.received == "" && s.outcome == IN_PROGRESS
    case ReadingMessage(text) => s.received == [INTERNAL_ERROR_FLAG] + text && s.outcome == IN_PROGRESS
    case Fatal(failure) =>
      failure.InternalError? && !s.childWriteOpen && s.outcome == IN_PROGRESS &&
      s.sent == [INTERNAL_ERROR_FLAG] + failure.message
    case _ =>
      (s.outcome == DIED && s.sent == "" && !s.childWriteOpen) ||
      (s.outcome == LIVED && s.sent == [LIVED_FLAG]) ||
      (s.outcome == RETURNED && s.sent == [RETURNED_FLAG])
  }

  ghost predicate Inv(s: State) {
    s.capacity >= 1 && DescriptorsFit(s) && SentFits(s) && OutcomeFits(s) &&
    (s.parent.Concluded? ==> s.child == Gone(s.status))
  }

  lemma Moved(sent: string, received: string, pipe: string, n: nat)
    requires sent == received + pipe && n <= |pipe|
    ensures sent == received + pipe[..n] + pipe[n..]
  {
    assert pipe == pipe[..n] + pipe[n..];
  }

  /** A flag byte L or R is all that is ever sent; the only other first byte is I. */
  lemma FlagFits(s: State)
    requires SentFits(s) && s.sent != ""
    ensures s.sent == [LIVED_FLAG] || s.sent == [RETURNED_FLAG] || (s.threadsafe && s.sent[0] == INTERNAL_ERROR_FLAG)
  {
    if s.child.Reporting? { assert (s.sent + s.child.rest)[0] == s.sent[0]; }
  }

  lemma FlagReadKeepsInv(s: State)
    requires Inv(s) && s.parent.Reading? && s.pipe != ""
    ensures Inv(TakeFlag(s.(pipe := s.pipe[1..], received := s.received + s.pipe[..1]), s.pipe[0]))
  {
    Moved(s.sent, s.received, s.pipe, 1);
    FlagFits(s);
    assert s.sent == s.pipe;
    assert s.pipe[..1] == [s.pipe[0]];
  }

  lemma ReadKeepsInv(s: State, s': State)
    requires Inv(s) && ParentStep(s, s') && s.parent.Reading?
    ensures Inv(s')
  {
    if s.pipe != "" { FlagReadKeepsInv(s); }
  }

  lemma MessageKeepsInv(s: State, s': State)
    requires Inv(s) && ParentStep(s, s') && s.parent.ReadingMessage?
    ensures Inv(s')
  {
    if s.pipe != "" {
      var text := s.parent.text;
      var n :| 1 <= n <= 255 && n <= |s.pipe| &&
        s' == s.(pipe := s.pipe[n..], received := s.received + s.pipe[..n],
                 parent := ReadingMessage(text + s.pipe[..n]));
      Moved(s.sent, s.received, s.pipe, n);
      assert [INTERNAL_ERROR_FLAG] + text + s.pipe[..n] == [INTERNAL_ERROR_FLAG] + (text + s.pipe[..n]);
    } else {
      assert s.received + s.pipe == s.received;
    }
  }

  lemma ParentKeepsInv(s: State, s': State)
    requires Inv(s) && ParentStep(s, s')
    ensures Inv(s')
  {
    match s.parent
    case Reading => ReadKeepsInv(s, s');
    case ReadingMessage(_) => MessageKeepsInv(s, s');
    case _ =>
  }

  lemma DeathKeepsInv(s: State, status: int)
    requires Inv(s) && !s.child.Gone?
    ensures Inv(Die(s, status))
  {
    if s.sent != "" { FlagFits(s); }
  }

  lemma FlagKeepsInv(s: State, reason: AbortReason)
    requires Inv(s) && s.child == WritingFlag(reason)
    ensures var flag := FlagOf(reason);
      Inv(s.(child := ClosingWriteEndOfChild, pipe := s.pipe + [flag], sent := s.sent + [flag]))
  {
    var flag := FlagOf(reason);
    assert s.sent + [flag] == s.received + (s.pipe + [flag]);
    assert s.sent + [flag] == [flag];
  }

  lemma ReportKeepsInv(s: State, n: nat)
    requires Inv(s) && s.child.Reporting? && 1 <= n <= |s.child.rest|
    ensures var rest := s.child.rest;
      Inv(s.(child := Reporting(rest[n..]), pipe := s.pipe + rest[..n], sent := s.sent + rest[..n]))
  {
    var rest := s.child.rest;
    assert rest == rest[..n] + rest[n..];
    assert s.sent + rest[..n] + rest[n..] == s.sent + rest;
    assert s.sent + rest[..n] == s.received + (s.pipe + rest[..n]);
    if s.sent != "" { assert (s.sent + rest)[0] == s.sent[0]; }
  }

  lemma ChildKeepsInv(s: State, s': State)
    requires Inv(s) && ChildStep(s, s')
    ensures Inv(s')
  {
    if ChildDies(s, s') {
      var status :| s' == Die(s, status);
      DeathKeepsInv(s, status);
    } else {
      match s.child
      case ClosingReadEndOfChild =>
      case Executing =>
      case WritingFlag(reason) => FlagKeepsInv(s, reason);
      case ClosingWriteEndOfChild =>
      case Exiting =>
      case Reporting(rest) =>
        var n :| 1 <= n <= |rest| &&
          s' == s.(child := Reporting(rest[n..]), pipe := s.pipe + rest[..n], sent := s.sent + rest[..n]);
        ReportKeepsInv(s, n);
    }
  }

  lemma {:induction false} RunKeepsInv(run: seq<State>, i: nat)
    requires Run(run) && i < |run|
    ensures Inv(run[i])
  {
    if i == 0 {
    } else {
      RunKeepsInv(run, i - 1);
      var s, s' := run[i - 1], run[i];
      assert StepAt(run, i - 1);
      if ParentStep(s, s') {
        ParentKeepsInv(s, s');
      } else if ChildStep(s, s') {
        ChildKeepsInv(s, s');
      }
    }
  }

  // ------------------------------------------------------------------ safety

  /** How the child ended, as far as its status byte goes. */
  ghost predicate Reported(s: State, reason: AbortReason) {
    s.child.Gone? && s.sent == [FlagOf(reason)]
  }

  /** This step is the write of Abort, called with this reason. */
  ghost predicate AbortWrites(s: State, s': State, reason: AbortReason) {
    s.child == WritingFlag(reason) && s'.child == ClosingWriteEndOfChild && s'.sent == [FlagOf(reason)]
  }

  ghost predicate AbortAt(run: seq<State>, i: nat, reason: AbortReason) {
    i + 1 < |run| && AbortWrites(run[i], run[i + 1], reason)
  }

  /** Abort was called with this reason at some point of the run, and its write went through. */
  ghost predicate AbortWrote(run: seq<State>, reason: AbortReason) {
    exists i: nat :: AbortAt(run, i, reason)
  }

  /**
   * When Wait returns, the child is gone and its exit status has been collected; the outcome
   * is LIVED or RETURNED exactly if the child wrote that flag, and DIED exactly if it ended
   * without writing. No other byte was ever taken for an outcome.
   */
  lemma WaitConcludes(run: seq<State>)
    requires Run(run) && run[|run| - 1].parent.Concluded?
    ensures var s := run[|run| - 1];
      s.child == Gone(s.status) &&
      (s.outcome == LIVED <==> Reported(s, TEST_DID_NOT_DIE)) &&
      (s.outcome == RETURNED <==> Reported(s, TEST_ENCOUNTERED_RETURN_STATEMENT)) &&
      (s.outcome == DIED <==> s.sent == "") &&
      s.outcome != IN_PROGRESS
  {
    RunKeepsInv(run, |run| - 1);
  }

  /** The only way to an error exit of the parent is an internal error that the child reported, message and all. */
  lemma OnlyReportedFailures(run: seq<State>)
    requires Run(run) && run[|run| - 1].parent.Fatal?
    ensures var s := run[|run| - 1];
      s.threadsafe && s.parent.failure.InternalError? &&
      s.sent == [INTERNAL_ERROR_FLAG] + s.parent.failure.message && !s.childWriteOpen
  {
    RunKeepsInv(run, |run| - 1);
    var s := run[|run| - 1];
    FlagFits(s);
    assert s.sent[0] == INTERNAL_ERROR_FLAG;
  }

  lemma ParentSendsNothing(s: State, s': State)
    requires ParentStep(s, s')
    ensures s'.sent == s.sent && s'.child == s.child
  {
  }

  /** Only Abort and an error report write. */
  lemma OnlyWritersSend(s: State, s': State)
    requires ChildStep(s, s')
    ensures s'.sent == s.sent || (s.child.Reporting? && s'.child.Reporting?) ||
      (s.child.WritingFlag? && s'.child.ClosingWriteEndOfChild? && s'.sent == s.sent + [FlagOf(s.child.reason)])
  {
    if ChildDies(s, s') {
      assert s'.sent == s.sent;
    }
  }

  lemma ReportIsNoFlag(s: State, reason: AbortReason)
    requires SentFits(s) && s.child.Reporting?
    ensures s.sent != [FlagOf(reason)]
  {
    if s.sent != "" { assert (s.sent + s.child.rest)[0] == s.sent[0]; }
  }

  lemma ChildFirstByte(s: State, s': State, reason: AbortReason)
    requires Inv(s) && ChildStep(s, s') && s'.sent == [FlagOf(reason)] && s.sent != s'.sent
    ensures AbortWrites(s, s', reason)
  {
    ChildKeepsInv(s, s');
    OnlyWritersSend(s, s');
    if s'.child.Reporting? { ReportIsNoFlag(s', reason); }
    assert s'.sent[0] == FlagOf(reason);
  }

  lemma FirstByte(s: State, s': State, reason: AbortReason)
    requires Inv(s) && Next(s, s') && s'.sent == [FlagOf(reason)]
    ensures s.sent == s'.sent || AbortWrites(s, s', reason)
  {
    if ParentStep(s, s') {
      ParentSendsNothing(s, s');
    } else if s.sent != s'.sent {
      ChildFirstByte(s, s', reason);
    }
  }

  /** A flag in the pipe is the work of Abort, called with that reason. */
  lemma {:induction false} FlagFromAbort(run: seq<State>, n: nat, reason: AbortReason)
    requires Run(run) && n < |run| && run[n].sent == [FlagOf(reason)]
    ensures AbortWrote(run, reason)
  {
    if n == 0 {
    } else {
      RunKeepsInv(run, n - 1);
      assert StepAt(run, n - 1);
      FirstByte(run[n - 1], run[n], reason);
      if run[n - 1].sent == run[n].sent {
        FlagFromAbort(run, n - 1, reason);
      } else {
        assert AbortAt(run, n - 1, reason);
      }
    }
  }

  lemma KeepsFlag(s: State, s': State, reason: AbortReason)
    requires Inv(s) && Next(s, s') && s.sent == [FlagOf(reason)]
    ensures s'.sent == s.sent
  {
    if ParentStep(s, s') {
      ParentSendsNothing(s, s');
    } else if ChildStep(s, s') {
      if s.child.Reporting? { ReportIsNoFlag(s, reason); }
      OnlyWritersSend(s, s');
    }
  }

  /** What is written stays written. */
  lemma {:induction false} FlagStays(run: seq<State>, i: nat, n: nat, reason: AbortReason)
    requires Run(run) && i <= n < |run| && run[i].sent == [FlagOf(reason)]
    ensures run[n].sent == [FlagOf(reason)]
    decreases n - i
  {
    if i == n {
    } else {
      RunKeepsInv(run, i);
      assert StepAt(run, i);
      KeepsFlag(run[i], run[i + 1], reason);
      FlagStays(run, i + 1, n, reason);
    }
  }

  lemma SentIffAbort(run: seq<State>, n: nat, reason: AbortReason)
    requires Run(run) && n == |run| - 1
    ensures run[n].sent == [FlagOf(reason)] <==> AbortWrote(run, reason)
  {
    if run[n].sent == [FlagOf(reason)] { FlagFromAbort(run, n, reason); }
    if i: nat :| AbortAt(run, i, reason) { FlagStays(run, i + 1, n, reason); }
  }

  /** The parent's verdict and the child's Abort, over whole runs. */
  lemma OutcomeIsAbort(run: seq<State>, reason: AbortReason)
    requires Run(run) && run[|run| - 1].parent.Concluded?
    ensures var outcome := if reason == TEST_DID_NOT_DIE then LIVED else RETURNED;
      run[|run| - 1].outcome == outcome <==> AbortWrote(run, reason)
  {
    WaitConcludes(run);
    SentIffAbort(run, |run| - 1, reason);
  }

  // ------------------------------------------------------------------ error reports

  /** This step is the call of DeathTestAbort with this message, in a re-executed child. */
  ghost predicate AbortsWith(s: State, s': State, message: string) {
    s.threadsafe && s.child.Executing? && s' == ChildAbort(s, message)
  }

  ghost predicate AbortsAt(run: seq<State>, i: nat, message: string) {
    i + 1 < |run| && AbortsWith(run[i], run[i + 1], message)
  }

  /** This step kills a child that has not written all of its report. */
  predicate CutsShort(s: State, s': State) {
    s.child.Reporting? && s.child.rest != "" && s'.child.Gone?
  }

  ghost predicate CutAt(run: seq<State>, i: nat) {
    i + 1 < |run| && CutsShort(run[i], run[i + 1])
  }

  /** What has been written and what is still to be written of the whole report, flag byte and message. */
  ghost predicate Report(s: State, whole: string, cut: bool) {
    if s.child.Reporting? then s.sent + s.child.rest == whole
    else s.child.Gone? && s.sent <= whole && (!cut ==> s.sent == whole)
  }

  lemma WritingKeepsReport(s: State, n: nat, whole: string)
    requires s.child.Reporting? && 1 <= n <= |s.child.rest| && s.sent + s.child.rest == whole
    ensures s.sent + s.child.rest[..n] + s.child.rest[n..] == whole
  {
    assert s.child.rest == s.child.rest[..n] + s.child.rest[n..];
  }

  lemma ReportGoesOn(s: State, s': State, whole: string, cut: bool)
    requires Next(s, s') && Report(s, whole, cut) && (CutsShort(s, s') ==> cut)
    ensures Report(s', whole, cut)
  {
    if ParentStep(s, s') {
      ParentSendsNothing(s, s');
    } else if s.child.Reporting? && s'.child.Gone? {
      assert s'.sent == s.sent;
      if s.child.rest == "" { assert s.sent + s.child.rest == s.sent; }
    } else if s.child.Reporting? && ChildStep(s, s') {
      var rest := s.child.rest;
      var n :| 1 <= n <= |rest| &&
        s' == s.(child := Reporting(rest[n..]), pipe := s.pipe + rest[..n], sent := s.sent + rest[..n]);
      WritingKeepsReport(s, n, whole);
    }
  }

  lemma ReportStarts(s: State, s': State, message: string, cut: bool)
    requires SentFits(s) && AbortsWith(s, s', message)
    ensures Report(s', [INTERNAL_ERROR_FLAG] + message, cut)
  {
  }

  lemma {:induction false} ReportStays(run: seq<State>, i: nat, message: string, n: nat, cut: bool)
    requires Run(run) && AbortsAt(run, i, message) && i < n < |run|
    requires (exists k: nat :: CutAt(run, k)) ==> cut
    ensures Report(run[n], [INTERNAL_ERROR_FLAG] + message, cut)
    decreases n
  {
    if n == i + 1 {
      RunKeepsInv(run, i);
      ReportStarts(run[i], run[n], message, cut);
    } else {
      ReportStays(run, i, message, n - 1, cut);
      assert StepAt(run, n - 1);
      assert CutsShort(run[n - 1], run[n]) ==> CutAt(run, n - 1);
      ReportGoesOn(run[n - 1], run[n], [INTERNAL_ERROR_FLAG] + message, cut);
    }
  }

  /** An error report is under way or has left bytes behind. */
  predicate HasReported(s: State) {
    s.child.Reporting? || (s.child.Gone? && s.sent != "" && s.sent[0] == INTERNAL_ERROR_FLAG)
  }

  lemma FirstReportStep(s: State, s': State) returns (message: string)
    requires Inv(s) && Next(s, s') && HasReported(s') && !HasReported(s)
    ensures AbortsWith(s, s', message)
  {
    if ParentStep(s, s') { ParentSendsNothing(s, s'); }
    assert ChildStep(s, s');
    OnlyWritersSend(s, s');
    assert s'.child.Reporting? && s.child.Executing?;
    message :| s' == ChildAbort(s, message);
  }

  lemma {:induction false} ReportHasCall(run: seq<State>, n: nat) returns (i: nat, message: string)
    requires Run(run) && n < |run| && HasReported(run[n])
    ensures i < n && AbortsAt(run, i, message)
  {
    assert n > 0;
    RunKeepsInv(run, n - 1);
    assert StepAt(run, n - 1);
    if HasReported(run[n - 1]) {
      i, message := ReportHasCall(run, n - 1);
    } else {
      i := n - 1;
      message := FirstReportStep(run[n - 1], run[n]);
    }
  }

  lemma SameTail(a: string, b: string)
    ensures [INTERNAL_ERROR_FLAG] + a <= [INTERNAL_ERROR_FLAG] + b ==> a <= b
    ensures [INTERNAL_ERROR_FLAG] + a == [INTERNAL_ERROR_FLAG] + b ==> a == b
  {
    var x, y := [INTERNAL_ERROR_FLAG] + a, [INTERNAL_ERROR_FLAG] + b;
    assert x[1..] == a && y[1..] == b;
    if x <= y { assert x[1..] <= y[1..]; }
  }

  lemma FatalIsReport(run: seq<State>, i: nat, message: string)
    requires Run(run) && run[|run| - 1].parent.Fatal? && AbortsAt(run, i, message)
    ensures var failure := run[|run| - 1].parent.failure;
      failure.InternalError? && failure.message <= message &&
      ((forall k: nat :: !CutAt(run, k)) ==> failure.message == message)
  {
    var s := run[|run| - 1];
    OnlyReportedFailures(run);
    RunKeepsInv(run, |run| - 1);
    ReportStays(run, i, message, |run| - 1, exists k: nat :: CutAt(run, k));
    SameTail(s.parent.failure.message, message);
  }

  /**
   * The parent's fatal message is the one that the child called DeathTestAbort with: the whole
   * of it, unless the child was killed while it wrote, and then a beginning of it.
   */
  lemma FatalMessage(run: seq<State>) returns (i: nat, message: string)
    requires Run(run) && run[|run| - 1].parent.Fatal?
    ensures AbortsAt(run, i, message)
    ensures forall j: nat, m :: AbortsAt(run, j, m) ==>
      var failure := run[|run| - 1].parent.failure;
      failure.InternalError? && failure.message <= m && ((forall k: nat :: !CutAt(run, k)) ==> failure.message == m)
  {
    OnlyReportedFailures(run);
    RunKeepsInv(run, |run| - 1);
    var s := run[|run| - 1];
    assert s.sent[0] == INTERNAL_ERROR_FLAG;
    i, message := ReportHasCall(run, |run| - 1);
    forall j: nat, m | AbortsAt(run, j, m)
      ensures var failure := run[|run| - 1].parent.failure;
        failure.InternalError? && failure.message <= m && ((forall k: nat :: !CutAt(run, k)) ==> failure.message == m)
    {
      FatalIsReport(run, j, m);
    }
  }

  // ------------------------------------------------------------------ the verdict

  /** Passed: the test must have died, with an acceptable status and the expected message. */
  function Passed(s: State, statusOk: bool, messageMatches: bool): bool {
    s.outcome == DIED && statusOk && messageMatches
  }

  /** A death test passes exactly if the child ended by itself, silently, in the required way. */
  lemma PassedMeansDied(run: seq<State>, statusOk: int -> bool, messageMatches: bool)
    requires Run(run) && run[|run| - 1].parent.Concluded?
    ensures var s := run[|run| - 1];
      Passed(s, statusOk(s.status), messageMatches) <==>
        s.sent == "" && s.child.Gone? && statusOk(s.child.status) && messageMatches
  {
    WaitConcludes(run);
  }

  // ------------------------------------------------------------------ progress

  /** The parent waits for a child that is alive: in read with the write end still open, or in waitpid. */
  predicate WaitsForChild(s: State) {
    !s.child.Gone? &&
    (s.parent.Waiting? || ((s.parent.Reading? || s.parent.ReadingMessage?) && s.pipe == "" && s.childWriteOpen))
  }

  lemma ParentMoves(s: State) returns (s': State)
    requires Inv(s) && !s.parent.Concluded? && !s.parent.Fatal? && !WaitsForChild(s)
    ensures ParentStep(s, s')
  {
    match s.parent
    case ClosingWriteEnd => s' := s.(parent := Reading, parentWriteOpen := false);
    case Reading =>
      s' := if s.pipe != "" then TakeFlag(s.(pipe := s.pipe[1..], received := s.received + s.pipe[..1]), s.pipe[0])
            else s.(parent := ClosingReadEnd, outcome := DIED);
      assert s.child.Exiting? ==> s.sent == s.pipe;
    case ReadingMessage(text) =>
      if s.pipe != "" {
        s' := s.(pipe := s.pipe[1..], received := s.received + s.pipe[..1],
                 parent := ReadingMessage(text + s.pipe[..1]));
      } else {
        s' := s.(parent := Fatal(InternalError(text)));
      }
    case ClosingReadEnd => s' := s.(parent := Waiting, parentReadOpen := false);
    case Waiting => s' := s.(parent := Concluded, status := s.child.status);
  }

  /** The parent is held up exactly when it waits for a live child; no read ever blocks on its own descriptors. */
  lemma ParentMovesOrWaits(run: seq<State>)
    requires Run(run) && !run[|run| - 1].parent.Concluded? && !run[|run| - 1].parent.Fatal?
    ensures var s := run[|run| - 1]; (exists s' :: ParentStep(s, s')) <==> !WaitsForChild(s)
  {
    var s := run[|run| - 1];
    RunKeepsInv(run, |run| - 1);
    if !WaitsForChild(s) { var s' := ParentMoves(s); }
  }

  function ChildRank(c: Child): nat {
    match c
    case ClosingReadEndOfChild => 5
    case Executing => 4
    case WritingFlag(_) => 3
    case ClosingWriteEndOfChild => 2
    case Exiting => 1
    case Reporting(_) => 1
    case Gone(_) => 0
  }

  function BytesRank(s: State): nat {
    |s.pipe| + if s.child.Reporting? then 2 * |s.child.rest| else 0
  }

  function ParentRank(p: Parent): nat {
    match p
    case ClosingWriteEnd => 5
    case Reading => 4
    case ReadingMessage(_) => 3
    case ClosingReadEnd => 2
    case Waiting => 1
    case Concluded => 0
    case Fatal(_) => 0
  }

  /** s' is nearer to the end than s. */
  predicate Nearer(s': State, s: State) {
    ChildRank(s'.child) < ChildRank(s.child) ||
    (ChildRank(s'.child) == ChildRank(s.child) &&
      (BytesRank(s') < BytesRank(s) ||
        (BytesRank(s') == BytesRank(s) && ParentRank(s'.parent) < ParentRank(s.parent))))
  }

  lemma ParentStepsAreFinite(s: State, s': State)
    requires ParentStep(s, s')
    ensures Nearer(s', s)
  {
    ParentSendsNothing(s, s');
  }

  lemma ReportingIsFinite(s: State, s': State, n: nat)
    requires s.child.Reporting? && 1 <= n <= |s.child.rest|
    requires s'.child == Reporting(s.child.rest[n..]) && s'.pipe == s.pipe + s.child.rest[..n]
    ensures Nearer(s', s)
  {
  }

  lemma ExecutingAdvances(s: State, s': State)
    requires ChildCode(s, s') && s.child.Executing?
    ensures ChildRank(s'.child) < ChildRank(s.child)
  {
    if reason :| s' == s.(child := WritingFlag(reason)) {
    } else {
      var message :| s' == ChildAbort(s, message);
    }
  }

  lemma ChildAdvances(s: State, s': State)
    requires ChildCode(s, s') && !s.child.Reporting?
    ensures ChildRank(s'.child) < ChildRank(s.child)
  {
    if s.child.Executing? { ExecutingAdvances(s, s'); }
  }

  lemma ChildStepsAreFinite(s: State, s': State)
    requires ChildStep(s, s')
    ensures Nearer(s', s)
  {
    if s.child.Reporting? && !s'.child.Gone? {
      var rest := s.child.rest;
      var n :| 1 <= n <= |rest| &&
        s' == s.(child := Reporting(rest[n..]), pipe := s.pipe + rest[..n], sent := s.sent + rest[..n]);
      ReportingIsFinite(s, s', n);
    } else if !ChildDies(s, s') {
      ChildAdvances(s, s');
    }
  }

  /** Every step that is not a repeated system call brings the end nearer: no run makes infinitely many of them. */
  lemma StepsAreFinite(s: State, s': State)
    requires Next(s, s')
    ensures Nearer(s', s) || Interrupted(s, s')
  {
    if ParentStep(s, s') { ParentStepsAreFinite(s, s'); }
    if ChildStep(s, s') { ChildStepsAreFinite(s, s'); }
  }

  /** Neither process has a next system call that can go through; that something may kill the child is no help. */
  ghost predicate Stuck(s: State) {
    (forall s' :: !ParentStep(s, s')) && (forall s' :: !ChildCode(s, s'))
  }

  /** The child's own code blocks nowhere but in an error report that finds the pipe full. */
  lemma ChildMoves(s: State) returns (s': State)
    requires Inv(s) && !s.child.Gone? && (s.child.Reporting? ==> s.child.rest == "" || |s.pipe| < s.capacity)
    ensures ChildCode(s, s')
  {
    match s.child
    case ClosingReadEndOfChild =>
      s' := s.(child := Executing, childReadOpen := false);
    case Executing =>
      s' := s.(child := WritingFlag(TEST_DID_NOT_DIE));
    case WritingFlag(reason) =>
      var flag := [FlagOf(reason)];
      s' := s.(child := ClosingWriteEndOfChild, pipe := s.pipe + flag, sent := s.sent + flag);
    case ClosingWriteEndOfChild =>
      s' := s.(child := Exiting, childWriteOpen := false);
    case Exiting =>
      s' := Die(s, 256);
    case Reporting(rest) =>
      s' := if rest == "" then Die(s, 256)
            else s.(child := Reporting(rest[1..]), pipe := s.pipe + rest[..1], sent := s.sent + rest[..1]);
  }

  /** While an error report waits for room in the pipe, the parent is about to read. */
  lemma FullPipeIsRead(s: State)
    requires Inv(s) && s.child.Reporting? && s.pipe != ""
    ensures s.parent.ClosingWriteEnd? || s.parent.Reading? || s.parent.ReadingMessage?
  {
    ReportIsNoFlag(s, TEST_DID_NOT_DIE);
    ReportIsNoFlag(s, TEST_ENCOUNTERED_RETURN_STATEMENT);
    assert s.sent == s.received + s.pipe != "";
  }

  /**
   * When neither process's own code can make a step any more, the parent has its verdict or the
   * child's error report: the two never wait for each other, however small the pipe.
   */
  lemma NoDeadlock(run: seq<State>)
    requires Run(run) && Stuck(run[|run| - 1])
    ensures run[|run| - 1].parent.Concluded? || run[|run| - 1].parent.Fatal?
  {
    var s := run[|run| - 1];
    RunKeepsInv(run, |run| - 1);
    if !s.child.Gone? {
      if s.child.Reporting? && s.child.rest != "" && |s.pipe| >= s.capacity {
        FullPipeIsRead(s);
      } else {
        var s' := ChildMoves(s);
      }
    }
    if !s.parent.Concluded? && !s.parent.Fatal? {
      var s' := ParentMoves(s);
    }
  }
}
