/**
  The stream adapter of connector-lib/halfconn/streamconn.go as a transition
  system: the two pump goroutines, the once-only fail, any number of Reads and
  Writes on the conn, and Close, interleaved step by step around a net.Pipe whose
  near half the caller has and whose far half the pumps have.
*/
module StreamConn {
  import opened Wrappers

  /** A failure of the underlying end, told apart by number. */
  type Cause = nat

  datatype Fault = Nothing | Eof | Failure(e: Cause)

  /** The goroutine copying e to the far half. */
  datatype InPc = InReading | InWriting(fault: Fault) | InRead(fault: Fault) | InFailing(e: Cause) | InClosing | InStopped

  /** The goroutine copying the far half to e. */
  datatype OutPc = OutReading | OutWriting | OutEnding | OutClosingWrite | OutFailing(e: Cause) | OutStopped

  /** fail's sync.Once, and how far whoever runs it has come. */
  datatype Once = Free | Recorded | Published | Aborted | Done

  /** What a Read or Write of the conn ends with. */
  datatype Ending = NoError | EndOfFile | ClosedPipe | Deadline | StreamFailed(e: Cause)

  /** A Read or Write in progress: inside net.Pipe, back from it, or returned. */
  datatype Call = InPipe(read: bool) | Back(r: Ending) | Returned(r: Ending)

  datatype State = State(
    inPc: InPc,
    outPc: OutPc,
    once: Once,
    err: Option<Cause>,
    failed: bool,
    aborts: nat,
    closeWrites: nat,
    cleanEnd: bool,
    nearClosed: bool,
    farClosed: bool,
    calls: map<nat, Call>)

  ghost predicate Init(s: State) {
    s == State(InReading, OutReading, Free, None, false, 0, 0, false, false, false, map[])
  }

  // ---------- The copy from e ----------

  /** e.Read: some bytes or none, and an error or none. */
  ghost predicate InReadStep(s: State, s': State, some: bool, fault: Fault) {
    && s.inPc == InReading
    && s' == s.(inPc := if some then InWriting(fault) else InRead(fault), cleanEnd := s.cleanEnd || fault == Eof)
  }

  /** far.Write: it completes, or fails because either half of the pipe is closed. */
  ghost predicate InWriteStep(s: State, s': State, ok: bool) {
    && s.inPc.InWriting?
    && (!ok ==> s.nearClosed || s.farClosed)
    && s' == s.(inPc := if ok then InRead(s.inPc.fault) else InClosing)
  }

  ghost predicate InAfterReadStep(s: State, s': State) {
    && s.inPc.InRead?
    && s' == s.(inPc :=
      match s.inPc.fault
      case Nothing => InReading
      case Eof => InClosing
      case Failure(e) => InFailing(e))
  }

  ghost predicate InCloseStep(s: State, s': State) {
    && s.inPc == InClosing
    && s' == s.(farClosed := true, inPc := InStopped)
  }

  // ---------- The copy to e ----------

  /** far.Read: bytes, or the end: the conn is closed, or far is. */
  ghost predicate OutReadStep(s: State, s': State, ended: bool) {
    && s.outPc == OutReading
    && (ended ==> s.nearClosed || s.farClosed)
    && s' == s.(outPc := if ended then OutEnding else OutWriting)
  }

  ghost predicate OutWriteStep(s: State, s': State, r: Option<Cause>) {
    && s.outPc == OutWriting
    && s' == s.(outPc := if r.None? then OutReading else OutFailing(r.value))
  }

  /** The second goroutine's switch: end e cleanly only if no failure has been published. */
  ghost predicate OutEndStep(s: State, s': State) {
    && s.outPc == OutEnding
    && s' == s.(outPc := if s.failed then OutStopped else OutClosingWrite)
  }

  ghost predicate OutCloseWriteStep(s: State, s': State, r: Option<Cause>) {
    && s.outPc == OutClosingWrite
    && s' == s.(closeWrites := s.closeWrites + 1, outPc := if r.None? then OutStopped else OutFailing(r.value))
  }

  // ---------- fail ----------

  /** A goroutine with a failure enters the once, or, once it is done, goes on. */
  ghost predicate FailStep(s: State, s': State) {
    || (s.once == Free && s.inPc.InFailing? && s' == s.(once := Recorded, err := Some(s.inPc.e)))
    || (s.once == Free && s.outPc.OutFailing? && s' == s.(once := Recorded, err := Some(s.outPc.e)))
    || (s.once == Done && s.inPc.InFailing? && s' == s.(inPc := InClosing))
    || (s.once == Done && s.outPc.OutFailing? && s' == s.(outPc := OutStopped))
  }

  /** The once's body after the error is recorded: publish it, abort e, close far. */
  ghost predicate OnceStep(s: State, s': State) {
    match s.once
    case Recorded => s' == s.(once := Published, failed := true)
    case Published => s' == s.(once := Aborted, aborts := s.aborts + 1)
    case Aborted => s' == s.(once := Done, farClosed := true)
    case _ => false
  }

  // ---------- The conn's user ----------

  ghost predicate CallStep(s: State, s': State, c: nat, read: bool) {
    c !in s.calls && s' == s.(calls := s.calls[c := InPipe(read)])
  }

  /** net.Pipe's own answer. A read ends with io.EOF only once the far half is closed. */
  ghost predicate PipeStep(s: State, s': State, c: nat, r: Ending) {
    && c in s.calls && s.calls[c].InPipe?
    && !r.StreamFailed?
    && (r == EndOfFile ==> s.calls[c].read && s.farClosed)
    && (r == ClosedPipe ==> s.nearClosed || (!s.calls[c].read && s.farClosed))
    && s' == s.(calls := s.calls[c := Back(r)])
  }

  /** orFailure. */
  ghost predicate ReturnStep(s: State, s': State, c: nat) {
    && c in s.calls && s.calls[c].Back?
    && (s.failed ==> s.err.Some?)
    && s' == s.(calls := s.calls[c := Returned(
      if s.calls[c].r != NoError && s.failed then StreamFailed(s.err.value) else s.calls[c].r)])
  }

  ghost predicate CloseStep(s: State, s': State) {
    s' == s.(nearClosed := true)
  }

  ghost predicate InStep(s: State, s': State) {
    || (exists some, fault :: InReadStep(s, s', some, fault))
    || (exists ok :: InWriteStep(s, s', ok))
    || InAfterReadStep(s, s')
    || InCloseStep(s, s')
  }

  ghost predicate OutStep(s: State, s': State) {
    || (exists ended :: OutReadStep(s, s', ended))
    || (exists r :: OutWriteStep(s, s', r))
    || OutEndStep(s, s')
    || (exists r :: OutCloseWriteStep(s, s', r))
  }

  ghost predicate UserStep(s: State, s': State) {
    || (exists c, read :: CallStep(s, s', c, read))
    || (exists c, r :: PipeStep(s, s', c, r))
    || (exists c :: ReturnStep(s, s', c))
    || CloseStep(s, s')
  }

  ghost predicate Step(s: State, s': State) {
    InStep(s, s') || OutStep(s, s') || FailStep(s, s') || OnceStep(s, s') || UserStep(s, s')
  }

  ghost predicate IsRun(run: seq<State>) {
    && run != []
    && Init(run[0])
    && forall i :: 0 <= i < |run| - 1 ==> Step(run[i], run[i + 1])
  }

  // ---------- What every step keeps ----------

  /** Why the far half may be closed: e ended cleanly, the caller closed the conn, or a failure is already published. */
  predicate Excused(s: State) { s.cleanEnd || s.nearClosed || s.failed }

  ghost predicate CallOk(s: State, c: Call) {
    match c
    case InPipe(_) => true
    case Back(r) => !r.StreamFailed? && (r == EndOfFile ==> s.farClosed)
    case Returned(r) =>
      && (r == EndOfFile ==> s.cleanEnd || s.nearClosed)
      && (r.StreamFailed? ==> s.failed && s.err == Some(r.e))
  }

  ghost predicate Core(s: State) {
    && (s.farClosed ==> Excused(s))
    && (s.inPc == InClosing ==> Excused(s))
    && ((s.inPc == InWriting(Eof) || s.inPc == InRead(Eof)) ==> s.cleanEnd)
    && (s.err.Some? <==> s.once != Free)
    && (s.failed <==> s.once.Published? || s.once.Aborted? || s.once.Done?)
    && s.aborts == (if s.once.Aborted? || s.once.Done? then 1 else 0)
    && (s.once.Done? ==> s.farClosed)
    && s.closeWrites <= 1
    && (s.outPc.OutReading? || s.outPc.OutWriting? || s.outPc.OutEnding? || s.outPc.OutClosingWrite? ==> s.closeWrites == 0)
    && (s.outPc.OutStopped? ==> s.failed || s.closeWrites == 1)
    && (s.inPc.InStopped? ==> s.farClosed)
  }

  ghost predicate Inv(s: State) {
    Core(s) && forall c :: c in s.calls ==> CallOk(s, s.calls[c])
  }

  /** Nothing recorded is forgotten or replaced. */
  ghost predicate Grows(s: State, s': State) {
    && (s.nearClosed ==> s'.nearClosed)
    && (s.farClosed ==> s'.farClosed)
    && (s.cleanEnd ==> s'.cleanEnd)
    && (s.failed ==> s'.failed)
    && (s.err.Some? ==> s'.err == s.err)
  }

  /** A call returned stays returned, and one returning after a failure is published returns that failure or none. */
  ghost predicate CallKeeps(s: State, s': State, c: nat) {
    var before := c in s.calls && s.calls[c].Returned?;
    && (before ==> c in s'.calls && s'.calls[c] == s.calls[c])
    && (s.failed && c in s'.calls && s'.calls[c].Returned? && !before ==>
      s'.calls[c].r == NoError || (s.err.Some? && s'.calls[c].r == StreamFailed(s.err.value)))
  }

  ghost predicate Keeps(s: State, s': State) {
    Grows(s, s') && forall c :: CallKeeps(s, s', c)
  }

  lemma InReadGrows(s: State, s': State, some: bool, fault: Fault)
    requires Core(s) && InReadStep(s, s', some, fault)
    ensures Core(s') && Grows(s, s') && s'.calls == s.calls
  {
  }

  lemma InWriteGrows(s: State, s': State, ok: bool)
    requires Core(s) && InWriteStep(s, s', ok)
    ensures Core(s') && Grows(s, s') && s'.calls == s.calls
  {
  }

  lemma InAfterReadGrows(s: State, s': State)
    requires Core(s) && (InAfterReadStep(s, s') || InCloseStep(s, s'))
    ensures Core(s') && Grows(s, s') && s'.calls == s.calls
  {
  }

  lemma InGrows(s: State, s': State)
    requires Core(s) && InStep(s, s')
    ensures Core(s') && Grows(s, s') && s'.calls == s.calls
  {
    if some, fault :| InReadStep(s, s', some, fault) {
      InReadGrows(s, s', some, fault);
    } else if ok :| InWriteStep(s, s', ok) {
      InWriteGrows(s, s', ok);
    } else {
      InAfterReadGrows(s, s');
    }
  }

  lemma OutCopyGrows(s: State, s': State)
    requires Core(s) && ((exists ended :: OutReadStep(s, s', ended)) || (exists r :: OutWriteStep(s, s', r)))
    ensures Core(s') && Grows(s, s') && s'.calls == s.calls
  {
  }

  lemma OutEndGrows(s: State, s': State)
    requires Core(s) && OutEndStep(s, s')
    ensures Core(s') && Grows(s, s') && s'.calls == s.calls
  {
  }

  lemma OutCloseWriteGrows(s: State, s': State, r: Option<Cause>)
    requires Core(s) && OutCloseWriteStep(s, s', r)
    ensures Core(s') && Grows(s, s') && s'.calls == s.calls
  {
  }

  lemma OutGrows(s: State, s': State)
    requires Core(s) && OutStep(s, s')
    ensures Core(s') && Grows(s, s') && s'.calls == s.calls
  {
    if OutEndStep(s, s') {
      OutEndGrows(s, s');
    } else if r :| OutCloseWriteStep(s, s', r) {
      OutCloseWriteGrows(s, s', r);
    } else {
      OutCopyGrows(s, s');
    }
  }

  lemma FailGrows(s: State, s': State)
    requires Core(s) && (FailStep(s, s') || OnceStep(s, s'))
    ensures Core(s') && Grows(s, s') && s'.calls == s.calls
  {
  }

  lemma OthersKeep(s: State, s': State)
    requires Inv(s) && Core(s') && Grows(s, s') && s'.calls == s.calls
    ensures Inv(s') && Keeps(s, s')
  {
    forall c | c in s'.calls ensures CallOk(s', s'.calls[c]) {
      assert CallOk(s, s.calls[c]);
    }
  }

  lemma ChangedCallKeeps(s: State, s': State, c: nat, call: Call)
    requires Inv(s) && s' == s.(calls := s.calls[c := call])
    requires CallOk(s, call) && CallKeeps(s, s', c)
    ensures Inv(s') && Keeps(s, s')
  {
    forall d | d in s'.calls ensures CallOk(s', s'.calls[d]) {
      if d != c {
        assert CallOk(s, s.calls[d]);
      }
    }
  }

  lemma UserKeeps(s: State, s': State)
    requires Inv(s) && UserStep(s, s')
    ensures Inv(s') && Keeps(s, s')
  {
    if CloseStep(s, s') {
      OthersKeep(s, s');
    } else if c, read :| CallStep(s, s', c, read) {
      ChangedCallKeeps(s, s', c, InPipe(read));
    } else if c, r :| PipeStep(s, s', c, r) {
      ChangedCallKeeps(s, s', c, Back(r));
    } else {
      var c :| ReturnStep(s, s', c);
      assert CallOk(s, s.calls[c]);
      ChangedCallKeeps(s, s', c, s'.calls[c]);
    }
  }

  lemma StepKeeps(s: State, s': State)
    requires Inv(s) && Step(s, s')
    ensures Inv(s') && Keeps(s, s')
  {
    if UserStep(s, s') {
      UserKeeps(s, s');
    } else {
      if InStep(s, s') {
        InGrows(s, s');
      } else if OutStep(s, s') {
        OutGrows(s, s');
      } else {
        FailGrows(s, s');
      }
      OthersKeep(s, s');
    }
  }

  lemma {:induction false} RunKeepsInv(run: seq<State>, i: nat)
    requires IsRun(run) && i < |run|
    ensures Inv(run[i])
  {
    if i > 0 {
      RunKeepsInv(run, i - 1);
      StepKeeps(run[i - 1], run[i - 1 + 1]);
    }
  }

  lemma RunKeepsAll(run: seq<State>)
    requires IsRun(run)
    ensures forall i :: 0 <= i < |run| - 1 ==> Keeps(run[i], run[i + 1])
  {
    forall i | 0 <= i < |run| - 1 ensures Keeps(run[i], run[i + 1]) {
      RunKeepsInv(run, i);
      StepKeeps(run[i], run[i + 1]);
    }
  }

  // ---------- What the conn promises ----------

  /** A conn its user has not closed reports the end of the stream only if the stream ended cleanly. */
  lemma EofMeansCleanEnd(run: seq<State>, i: nat, c: nat)
    requires IsRun(run) && i < |run|
    requires c in run[i].calls && run[i].calls[c] == Returned(EndOfFile)
    ensures run[i].nearClosed || run[i].cleanEnd
  {
    RunKeepsInv(run, i);
    assert CallOk(run[i], run[i].calls[c]);
  }

  /** Once a failure is published, every error returned from then on, by any Read or Write, is that first failure. */
  lemma FirstFailureForGood(run: seq<State>, i: nat, j: nat, c: nat)
    requires IsRun(run) && i <= j < |run|
    requires run[i].failed
    requires c in run[j].calls && run[j].calls[c].Returned? && run[j].calls[c].r != NoError
    requires !(c in run[i].calls && run[i].calls[c].Returned?)
    ensures run[i].err.Some? && run[j].calls[c].r == StreamFailed(run[i].err.value)
  {
    RunKeepsInv(run, i);
    RunKeepsAll(run);
    LaterErrors(run, i, j, c);
  }

  lemma {:induction false} LaterErrors(run: seq<State>, i: nat, j: nat, c: nat)
    requires forall k :: 0 <= k < |run| - 1 ==> Keeps(run[k], run[k + 1])
    requires i <= j < |run| && run[i].failed && run[i].err.Some?
    requires !(c in run[i].calls && run[i].calls[c].Returned?)
    ensures run[j].failed && run[j].err == run[i].err
    ensures c in run[j].calls && run[j].calls[c].Returned? && run[j].calls[c].r != NoError ==>
      run[j].calls[c].r == StreamFailed(run[i].err.value)
    decreases j - i
  {
    if i < j {
      LaterErrors(run, i, j - 1, c);
      assert Keeps(run[j - 1], run[j - 1 + 1]) && CallKeeps(run[j - 1], run[j], c);
    }
  }

  /**
    The end is aborted at most once and ended cleanly at most once; a failure in full
    always aborted it, a copy to it that is over without one always ended it, and once
    the copy from it is over the conn's reads can end.
  */
  lemma EndIsSettledOnce(run: seq<State>, i: nat)
    requires IsRun(run) && i < |run|
    ensures run[i].aborts <= 1 && run[i].closeWrites <= 1
    ensures run[i].once == Done ==> run[i].aborts == 1 && run[i].failed && run[i].farClosed
    ensures run[i].outPc == OutStopped ==> run[i].failed || run[i].closeWrites == 1
    ensures run[i].inPc == InStopped ==> run[i].farClosed
  {
    RunKeepsInv(run, i);
  }
}
