/**
  What the outcome of connector-lib/halfconn/splice.go names: the failure of whoever
  takes the once, and exactly when that is the first failure there was.
*/
module SpliceOutcome {
  import opened Wrappers
  import opened Splice

  /** The ends that failed under one copier, in order. */
  function EndsOf(failures: seq<Failure>, w: Way): seq<End> {
    if failures == [] then []
    else
      var rest := EndsOf(failures[1..], w);
      if failures[0].EndFailed? && failures[0].w == w then [failures[0].end] + rest else rest
  }

  lemma {:induction false} EndsOfOneMore(failures: seq<Failure>, f: Failure, w: Way)
    ensures EndsOf(failures + [f], w) == EndsOf(failures, w) + (if f.EndFailed? && f.w == w then [f.end] else [])
  {
    if failures == [] {
      assert [f][1..] == [];
    } else {
      assert (failures + [f])[1..] == failures[1..] + [f];
      EndsOfOneMore(failures[1..], f, w);
    }
  }

  predicate Untimed(failures: seq<Failure>) { forall f :: f in failures ==> f.EndFailed? }

  /** What a copier has failed at, by where it stands: its source, its sink, or its source and then its sink. */
  predicate Logged(pc: Pc, w: Way, ends: seq<End>) {
    match pc
    case Reading => ends == []
    case Writing(_, fault) => ends == if fault == Failure then [Source(w)] else []
    case Read(fault) => ends == if fault == Failure then [Source(w)] else []
    case Failing(o) => FailedAt(w, ends) && o == AbortedBy(ends[|ends| - 1])
    case Stopped => ends == []
  }

  predicate FailedAt(w: Way, ends: seq<End>) {
    ends == [Source(w)] || ends == [Sink(w)] || ends == [Source(w), Sink(w)]
  }

  /** The outcome names the last failure of whoever took the once. */
  predicate Taken(failures: seq<Failure>, taker: Who, outcome: Outcome, limits: Limits) {
    match taker
    case Timer =>
      && failures != [] && failures[|failures| - 1] == TimerFired && Untimed(failures[..|failures| - 1])
      && outcome == Limit && (limits.idle || limits.lifetime)
    case CopierOf(w) =>
      var ends := EndsOf(failures, w);
      Untimed(failures) && FailedAt(w, ends) && outcome == AbortedBy(ends[|ends| - 1])
  }

  ghost predicate LogInv(s: State, limits: Limits) {
    && (s.once == Free ==> s.taker.None?)
    && (s.once.Aborting? ==> s.taker.Some?)
    && (s.once == Done && s.taker.None? ==> s.up.pc == Stopped && s.down.pc == Stopped)
    && (s.taker.None? ==>
      && Untimed(s.failures)
      && Logged(s.up.pc, Up, EndsOf(s.failures, Up)) && Logged(s.down.pc, Down, EndsOf(s.failures, Down)))
    && (s.taker.Some? ==> Taken(s.failures, s.taker.value, s.outcome, limits))
  }

  lemma ReadKeepsLog(s: State, s': State, limits: Limits, w: Way, chunk: Bytes, fault: Fault)
    requires LogInv(s, limits) && ReadStep(s, s', w, chunk, fault)
    ensures LogInv(s', limits)
  {
    EndsOfOneMore(s.failures, EndFailed(w, Source(w)), Up);
    EndsOfOneMore(s.failures, EndFailed(w, Source(w)), Down);
  }

  lemma WriteKeepsLog(s: State, s': State, limits: Limits, w: Way)
    requires LogInv(s, limits) && WriteStep(s, s', w)
    ensures LogInv(s', limits)
  {
  }

  lemma WriteFailKeepsLog(s: State, s': State, limits: Limits, w: Way, taken: nat)
    requires LogInv(s, limits) && WriteFailStep(s, s', w, taken)
    ensures LogInv(s', limits)
  {
    EndsOfOneMore(s.failures, EndFailed(w, Sink(w)), Up);
    EndsOfOneMore(s.failures, EndFailed(w, Sink(w)), Down);
  }

  lemma AfterReadKeepsLog(s: State, s': State, limits: Limits, w: Way, closeFails: bool)
    requires LogInv(s, limits) && AfterReadStep(s, s', w, closeFails)
    ensures LogInv(s', limits)
  {
    EndsOfOneMore(s.failures, EndFailed(w, Sink(w)), Up);
    EndsOfOneMore(s.failures, EndFailed(w, Sink(w)), Down);
  }

  lemma FailKeepsLog(s: State, s': State, limits: Limits, w: Way)
    requires LogInv(s, limits) && FailStep(s, s', w)
    ensures LogInv(s', limits)
  {
  }

  lemma FireKeepsLog(s: State, s': State, limits: Limits)
    requires LogInv(s, limits) && FireStep(s, s', limits)
    ensures LogInv(s', limits)
  {
    assert (s.failures + [TimerFired])[..|s.failures|] == s.failures;
  }

  lemma SettleKeepsLog(s: State, s': State, limits: Limits)
    requires LogInv(s, limits) && (AbortStep(s, s') || SettleStep(s, s') || ReturnStep(s, s'))
    ensures LogInv(s', limits)
  {
  }

  lemma {:induction false} RunKeepsLog(run: seq<State>, limits: Limits, i: nat)
    requires IsRun(run, limits) && i < |run|
    ensures LogInv(run[i], limits)
  {
    if i > 0 {
      RunKeepsLog(run, limits, i - 1);
      var s, s' := run[i - 1], run[i - 1 + 1];
      assert Step(s, s', limits);
      if w, chunk, fault :| ReadStep(s, s', w, chunk, fault) {
        ReadKeepsLog(s, s', limits, w, chunk, fault);
      } else if w :| WriteStep(s, s', w) {
        WriteKeepsLog(s, s', limits, w);
      } else if w, taken :| WriteFailStep(s, s', w, taken) {
        WriteFailKeepsLog(s, s', limits, w, taken);
      } else if w, closeFails :| AfterReadStep(s, s', w, closeFails) {
        AfterReadKeepsLog(s, s', limits, w, closeFails);
      } else if w :| FailStep(s, s', w) {
        FailKeepsLog(s, s', limits, w);
      } else if FireStep(s, s', limits) {
        FireKeepsLog(s, s', limits);
      } else {
        SettleKeepsLog(s, s', limits);
      }
    }
  }

  // ---------- What the outcome names ----------

  /** The outcome of a splice that did not complete is the failure of whoever took the once, a timer's only if one was set. */
  lemma OutcomeIsTheTakers(run: seq<State>, limits: Limits, i: nat)
    requires IsRun(run, limits) && i < |run|
    requires run[i].result.Some? && run[i].result.value.2 != Completed
    ensures run[i].taker.Some? && Taken(run[i].failures, run[i].taker.value, run[i].result.value.2, limits)
  {
    RunKeepsInv(run, limits, i);
    RunKeepsLog(run, limits, i);
  }

  /**
    Who took the once failed first and not again, or the other copier failed first at
    the same end; a timer, only if no copier had failed.
  */
  predicate FirstWins(failures: seq<Failure>, taker: Who)
    requires failures != []
  {
    match taker
    case Timer => |failures| == 1
    case CopierOf(w) =>
      var ends := EndsOf(failures, w);
      failures[0].EndFailed? && ends != [] &&
      if failures[0].w == w then |ends| == 1 else ends[|ends| - 1] == failures[0].end
  }

  /** Exactly then does the outcome name the first failure there was. */
  lemma FirstFailureExactly(run: seq<State>, limits: Limits, i: nat)
    requires IsRun(run, limits) && i < |run|
    requires run[i].result.Some? && run[i].result.value.2 != Completed
    ensures run[i].failures != [] && run[i].taker.Some?
    ensures run[i].result.value.2 == NameOf(run[i].failures[0]) <==> FirstWins(run[i].failures, run[i].taker.value)
  {
    OutcomeIsTheTakers(run, limits, i);
    var failures, taker := run[i].failures, run[i].taker.value;
    if taker.Timer? && |failures| > 1 {
      assert failures[0] == failures[..|failures| - 1][0] && failures[0] in failures[..|failures| - 1];
    }
    if taker.CopierOf? {
      assert failures[0] in failures;
      assert failures[0].w == taker.w ==> EndsOf(failures, taker.w)[0] == failures[0].end;
    }
  }

  // ---------- A run in which it is not the first ----------

  function Stands(pc: Pc): Copier { Copier(pc, [], [], 0, 0, false, false) }

  const NONE_ABORTED := Aborts(0, 0)
  const BOTH_FAILED := [EndFailed(Up, Caller), EndFailed(Down, Dest)]

  /** Neither copier has reached the once; the failures so far are these. */
  function Racing(up: Pc, down: Pc, failures: seq<Failure>): State {
    State(Stands(up), Stands(down), Free, Completed, None, NONE_ABORTED, failures, None)
  }

  /** The copier from the destination has taken the once. */
  function Lost(up: Pc, down: Pc, once: Once, aborts: Aborts): State {
    State(Stands(up), Stands(down), once, DestAborted, Some(CopierOf(Down)), aborts, BOTH_FAILED, None)
  }

  function Late(i: nat): State {
    match i
    case 0 => Racing(Reading, Reading, [])
    case 1 => Racing(Read(Failure), Reading, [EndFailed(Up, Caller)])
    case 2 => Racing(Read(Failure), Read(Failure), BOTH_FAILED)
    case 3 => Racing(Read(Failure), Failing(DestAborted), BOTH_FAILED)
    case 4 => Racing(Failing(CallerAborted), Failing(DestAborted), BOTH_FAILED)
    case 5 => Lost(Failing(CallerAborted), Failing(DestAborted), Aborting(Caller), NONE_ABORTED)
    case 6 => Lost(Failing(CallerAborted), Failing(DestAborted), Aborting(Dest), Aborts(1, 0))
    case 7 => Lost(Failing(CallerAborted), Failing(DestAborted), Done, Aborts(1, 1))
    case 8 => Lost(Failing(CallerAborted), Stopped, Done, Aborts(1, 1))
    case 9 => Lost(Stopped, Stopped, Done, Aborts(1, 1))
    case _ => Lost(Stopped, Stopped, Done, Aborts(1, 1)).(result := Some((0, 0, DestAborted)))
  }

  lemma BothReadsFail(limits: Limits)
    ensures Step(Late(0), Late(1), limits) && Step(Late(1), Late(2), limits)
  {
    var one: Bytes := [];
    assert one + [] == one;
    assert [] + [EndFailed(Up, Caller)] == [EndFailed(Up, Caller)];
    assert [EndFailed(Up, Caller)] + [EndFailed(Down, Dest)] == BOTH_FAILED;
    assert ReadStep(Late(0), Late(1), Up, [], Failure);
    assert ReadStep(Late(1), Late(2), Down, [], Failure);
  }

  lemma BothCallFail(limits: Limits)
    ensures Step(Late(2), Late(3), limits) && Step(Late(3), Late(4), limits)
    ensures Step(Late(4), Late(5), limits)
  {
    assert AfterReadStep(Late(2), Late(3), Down, false);
    assert AfterReadStep(Late(3), Late(4), Up, false);
    assert FailStep(Late(4), Late(5), Down);
  }

  lemma BothAreAborted(limits: Limits)
    ensures Step(Late(5), Late(6), limits) && Step(Late(6), Late(7), limits)
  {
    assert AbortStep(Late(5), Late(6)) && AbortStep(Late(6), Late(7));
  }

  lemma BothReturn(limits: Limits)
    ensures Step(Late(7), Late(8), limits) && Step(Late(8), Late(9), limits)
    ensures Step(Late(9), Late(10), limits)
  {
    assert FailStep(Late(7), Late(8), Down) && FailStep(Late(8), Late(9), Up);
    assert ReturnStep(Late(9), Late(10));
  }

  lemma LateStep(limits: Limits, i: nat)
    requires i < 10
    ensures Step(Late(i), Late(i + 1), limits)
  {
    if i < 2 {
      BothReadsFail(limits);
    } else if i < 5 {
      BothCallFail(limits);
    } else if i < 7 {
      BothAreAborted(limits);
    } else {
      BothReturn(limits);
    }
  }

  /** The caller's read fails, then the destination's; the second reaches the once first, and the outcome is DestAborted. */
  lemma LaterFailureWins(limits: Limits) returns (run: seq<State>)
    ensures IsRun(run, limits)
    ensures run[|run| - 1].failures == [EndFailed(Up, Caller), EndFailed(Down, Dest)]
    ensures run[|run| - 1].result == Some((0, 0, DestAborted))
  {
    run := seq(11, i requires 0 <= i < 11 => Late(i));
    forall i | 0 <= i < 10 ensures Step(run[i], run[i + 1], limits) {
      LateStep(limits, i);
    }
    assert Init(Late(0));
  }
}
