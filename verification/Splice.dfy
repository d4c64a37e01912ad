/**
  The byte splice of connector-lib/halfconn/splice.go as a transition system:
  two copiers, any number of firings of the idle and lifetime timers, and the
  goroutine that waits for both, interleaved step by step. Reads, writes and
  timer firings may have any result at any step.
*/
module Splice {
  import opened Wrappers

  type Bytes = seq<bv8>

  datatype Outcome = Completed | Limit | CallerAborted | DestAborted

  datatype End = Caller | Dest

  /** The direction of a copier: Up copies caller to dest, Down the other way. */
  datatype Way = Up | Down

  datatype Fault = Nothing | Eof | Failure

  datatype Limits = Limits(idle: bool, lifetime: bool)

  /** Where a copier stands between two of its effects. */
  datatype Pc =
    | Reading
    | Writing(chunk: Bytes, fault: Fault)
    | Read(fault: Fault)
    | Failing(o: Outcome)
    | Stopped

  /**
    One copier: what it has read and written, its count, how much of a write that
    failed got through, and what it saw of its two ends.
  */
  datatype Copier = Copier(pc: Pc, read: Bytes, wrote: Bytes, n: nat, partial: nat, sawEof: bool, halfClosed: bool)

  /** The sync.Once: free, running the abort (next is the end to abort), or done. */
  datatype Once = Free | Aborting(next: End) | Done

  /** How often each end has been aborted. */
  datatype Aborts = Aborts(caller: nat, dest: nat)

  function OneMore(a: Aborts, e: End): Aborts {
    if e.Caller? then a.(caller := a.caller + 1) else a.(dest := a.dest + 1)
  }

  /** Who takes the once: a timer, or one of the copiers. */
  datatype Who = Timer | CopierOf(w: Way)

  /** A timer fired, or an end failed under one of the copiers. */
  datatype Failure = TimerFired | EndFailed(w: Way, end: End)

  /** The failures are those before anything was aborted, in the order they came. */
  datatype State = State(
    up: Copier,
    down: Copier,
    once: Once,
    outcome: Outcome,
    taker: Option<Who>,
    aborts: Aborts,
    failures: seq<Failure>,
    result: Option<(nat, nat, Outcome)>)

  function Source(w: Way): End { if w.Up? then Caller else Dest }

  function Sink(w: Way): End { if w.Up? then Dest else Caller }

  function AbortedBy(e: End): Outcome { if e.Caller? then CallerAborted else DestAborted }

  function NameOf(f: Failure): Outcome { if f.TimerFired? then Limit else AbortedBy(f.end) }

  function Get(s: State, w: Way): Copier { if w.Up? then s.up else s.down }

  function Set(s: State, w: Way, c: Copier): State { if w.Up? then s.(up := c) else s.(down := c) }

  // ---------- Steps ----------

  const FRESH := Copier(Reading, [], [], 0, 0, false, false)

  ghost predicate Init(s: State) {
    s == State(FRESH, FRESH, Free, Completed, None, Aborts(0, 0), [], None)
  }

  /** A failure somewhere; it counts as a cause only if nothing has been aborted yet. */
  function Noted(s: State, f: Failure): State {
    if s.once == Free then s.(failures := s.failures + [f]) else s
  }

  /** src.Read returned r bytes and an error, either of which may be absent. */
  ghost predicate ReadStep(s: State, s': State, w: Way, chunk: Bytes, fault: Fault) {
    var c := Get(s, w);
    && c.pc == Reading
    && var c' := c.(read := c.read + chunk, sawEof := fault == Eof,
                    pc := if chunk != [] then Writing(chunk, fault) else Read(fault));
       s' == (if fault == Failure then Noted(Set(s, w, c'), EndFailed(w, Source(w))) else Set(s, w, c'))
  }

  /** dst.Write took the whole chunk. */
  ghost predicate WriteStep(s: State, s': State, w: Way) {
    var c := Get(s, w);
    && c.pc.Writing?
    && s' == Set(s, w, c.(wrote := c.wrote + c.pc.chunk, n := c.n + |c.pc.chunk|, pc := Read(c.pc.fault)))
  }

  /** dst.Write failed after some of the chunk. */
  ghost predicate WriteFailStep(s: State, s': State, w: Way, taken: nat) {
    var c := Get(s, w);
    && c.pc.Writing?
    && taken <= |c.pc.chunk|
    && s' == Noted(Set(s, w, c.(wrote := c.wrote + c.pc.chunk[..taken], partial := taken, pc := Failing(AbortedBy(Sink(w))))),
                   EndFailed(w, Sink(w)))
  }

  /** The switch on the read's error: go on, half-close the destination, or fail. */
  ghost predicate AfterReadStep(s: State, s': State, w: Way, closeFails: bool) {
    var c := Get(s, w);
    && c.pc.Read?
    && s' ==
       match c.pc.fault
       case Nothing => Set(s, w, c.(pc := Reading))
       case Failure => Set(s, w, c.(pc := Failing(AbortedBy(Source(w)))))
       case Eof =>
         if closeFails then
           Noted(Set(s, w, c.(pc := Failing(AbortedBy(Sink(w))))), EndFailed(w, Sink(w)))
         else Set(s, w, c.(halfClosed := true, pc := Stopped))
  }

  /** A copier reaches fail's sync.Once: it starts the abort, or finds it done; while it runs it blocks. */
  ghost predicate FailStep(s: State, s': State, w: Way) {
    var c := Get(s, w);
    && c.pc.Failing?
    && !s.once.Aborting?
    && s' == (if s.once == Free
              then s.(once := Aborting(Caller), outcome := c.pc.o, taker := Some(CopierOf(w)))
              else Set(s, w, c.(pc := Stopped)))
  }

  /** A timer fires: it starts the abort, or changes nothing. */
  ghost predicate FireStep(s: State, s': State, limits: Limits) {
    && (limits.idle || limits.lifetime)
    && s' == (if s.once == Free
              then Noted(s, TimerFired).(once := Aborting(Caller), outcome := Limit, taker := Some(Timer))
              else s)
  }

  /** Whoever runs the once aborts caller, then dest, then leaves it done. */
  ghost predicate AbortStep(s: State, s': State) {
    && s.once.Aborting?
    && s' == s.(
      aborts := OneMore(s.aborts, s.once.next),
      once := if s.once.next == Caller then Aborting(Dest) else Done)
  }

  /** Both copiers have returned: settle the once, then read the outcome. */
  ghost predicate SettleStep(s: State, s': State) {
    && s.up.pc.Stopped? && s.down.pc.Stopped?
    && s.once == Free
    && s' == s.(once := Done)
  }

  ghost predicate ReturnStep(s: State, s': State) {
    && s.up.pc.Stopped? && s.down.pc.Stopped?
    && s.once == Done
    && s.result.None?
    && s' == s.(result := Some((s.up.n, s.down.n, s.outcome)))
  }

  ghost predicate Step(s: State, s': State, limits: Limits) {
    || (exists w, chunk, fault :: ReadStep(s, s', w, chunk, fault))
    || (exists w :: WriteStep(s, s', w))
    || (exists w, taken :: WriteFailStep(s, s', w, taken))
    || (exists w, closeFails :: AfterReadStep(s, s', w, closeFails))
    || (exists w :: FailStep(s, s', w))
    || FireStep(s, s', limits)
    || AbortStep(s, s')
    || SettleStep(s, s')
    || ReturnStep(s, s')
  }

  ghost predicate IsRun(run: seq<State>, limits: Limits) {
    && run != []
    && Init(run[0])
    && forall i :: 0 <= i < |run| - 1 ==> Step(run[i], run[i + 1], limits)
  }

  // ---------- What every step keeps ----------

  function Pending(pc: Pc): Bytes { if pc.Writing? then pc.chunk else [] }

  /** One copier's bytes: nothing lost or reordered, and the count is what was written in full. */
  ghost predicate CopierOk(c: Copier, s: State) {
    && (!c.pc.Failing? && !c.pc.Stopped? ==> c.wrote + Pending(c.pc) == c.read && c.partial == 0)
    && c.wrote <= c.read && c.n + c.partial == |c.wrote|
    && (c.sawEof ==> c.pc != Reading)
    && (c.pc.Writing? ==> c.sawEof == (c.pc.fault == Eof))
    && (c.pc.Read? ==> c.sawEof == (c.pc.fault == Eof))
    && (c.halfClosed ==> c.pc == Stopped && c.sawEof && c.wrote == c.read && c.partial == 0)
    && (c.pc.Stopped? && !c.halfClosed ==> s.once == Done && s.outcome != Completed)
    && (c.pc.Failing? ==> c.pc.o == CallerAborted || c.pc.o == DestAborted)
  }

  ghost predicate Inv(s: State) {
    && CopierOk(s.up, s) && CopierOk(s.down, s)
    && (s.outcome == Completed <==> s.once == Free || (s.once == Done && s.aborts.caller == 0))
    && (s.outcome == Completed <==> s.taker.None?)
    && (s.outcome == Completed ==> s.aborts == Aborts(0, 0))
    && (s.outcome == Completed && s.once == Done ==> s.up.halfClosed && s.down.halfClosed)
    && (s.once == Aborting(Caller) ==> s.aborts == Aborts(0, 0))
    && (s.once == Aborting(Dest) ==> s.aborts == Aborts(1, 0))
    && (s.once == Done && s.outcome != Completed ==> s.aborts == Aborts(1, 1))
    && (s.result.Some? ==>
      && s.once == Done
      && s.up.pc == Stopped && s.down.pc == Stopped
      && s.result.value == (s.up.n, s.down.n, s.outcome))
  }

  /** A step adds no abort once the once is done, and takes none back. */
  ghost predicate Settles(s: State, s': State) {
    && s.aborts.caller <= s'.aborts.caller && s.aborts.dest <= s'.aborts.dest
    && (s.once == Done ==>
      s'.once == Done && s'.aborts == s.aborts && s'.outcome == s.outcome && s'.failures == s.failures && s'.taker == s.taker)
  }

  lemma StepKeepsInv(s: State, s': State, limits: Limits)
    requires Inv(s) && Step(s, s', limits)
    ensures Inv(s') && Settles(s, s')
  {
    if w, chunk, fault :| ReadStep(s, s', w, chunk, fault) {
      ReadKeepsInv(s, s', limits, w, chunk, fault);
    } else if w :| WriteStep(s, s', w) {
      WriteKeepsInv(s, s', limits, w);
    } else if w, taken :| WriteFailStep(s, s', w, taken) {
      WriteFailKeepsInv(s, s', limits, w, taken);
    } else if w, closeFails :| AfterReadStep(s, s', w, closeFails) {
      AfterReadKeepsInv(s, s', limits, w, closeFails);
    } else if w :| FailStep(s, s', w) {
      FailKeepsInv(s, s', limits, w);
    } else if FireStep(s, s', limits) {
      FireKeepsInv(s, s', limits);
    } else {
      SettleKeepsInv(s, s', limits);
    }
  }

  lemma ReadKeepsInv(s: State, s': State, limits: Limits, w: Way, chunk: Bytes, fault: Fault)
    requires Inv(s) && ReadStep(s, s', w, chunk, fault)
    ensures Inv(s') && Settles(s, s')
  {
    var c := Get(s, w);
    assert c.wrote + [] == c.wrote;
  }

  lemma WriteKeepsInv(s: State, s': State, limits: Limits, w: Way)
    requires Inv(s) && WriteStep(s, s', w)
    ensures Inv(s') && Settles(s, s')
  {
    var c' := Get(s', w);
    assert c'.wrote + [] == c'.wrote;
  }

  lemma WriteFailKeepsInv(s: State, s': State, limits: Limits, w: Way, taken: nat)
    requires Inv(s) && WriteFailStep(s, s', w, taken)
    ensures Inv(s') && Settles(s, s')
  {
    var c := Get(s, w);
    assert c.pc.chunk == c.pc.chunk[..taken] + c.pc.chunk[taken..];
    assert (c.wrote + c.pc.chunk[..taken]) + c.pc.chunk[taken..] == c.read;
  }

  lemma GoingOnKeepsInv(s: State, s': State, w: Way)
    requires Inv(s) && AfterReadStep(s, s', w, false) && Get(s, w).pc == Read(Nothing)
    ensures Inv(s') && Settles(s, s')
  {
    var c := Get(s, w);
    assert c.wrote + [] == c.wrote;
  }

  lemma EndingKeepsInv(s: State, s': State, w: Way)
    requires Inv(s) && AfterReadStep(s, s', w, false) && Get(s, w).pc == Read(Eof)
    ensures Inv(s') && Settles(s, s')
  {
    var c := Get(s, w);
    assert c.wrote + [] == c.wrote;
  }

  /** A copier that stands failing keeps the invariant whatever it wrote; its bytes are still a prefix. */
  lemma BreakingKeepsInv(s: State, s': State, w: Way, closeFails: bool)
    requires Inv(s) && AfterReadStep(s, s', w, closeFails) && Get(s', w).pc.Failing?
    ensures Inv(s') && Settles(s, s')
  {
    var c, c' := Get(s, w), Get(s', w);
    assert c.wrote <= c.read && c' == c.(pc := c'.pc);
    assert c'.pc.o == CallerAborted || c'.pc.o == DestAborted;
  }

  lemma AfterReadKeepsInv(s: State, s': State, limits: Limits, w: Way, closeFails: bool)
    requires Inv(s) && AfterReadStep(s, s', w, closeFails)
    ensures Inv(s') && Settles(s, s')
  {
    match Get(s, w).pc.fault
    case Nothing => GoingOnKeepsInv(s, s', w);
    case Failure => BreakingKeepsInv(s, s', w, closeFails);
    case Eof =>
      if closeFails {
        BreakingKeepsInv(s, s', w, closeFails);
      } else {
        EndingKeepsInv(s, s', w);
      }
  }

  lemma FailKeepsInv(s: State, s': State, limits: Limits, w: Way)
    requires Inv(s) && FailStep(s, s', w)
    ensures Inv(s') && Settles(s, s')
  {
  }

  lemma FireKeepsInv(s: State, s': State, limits: Limits)
    requires Inv(s) && FireStep(s, s', limits)
    ensures Inv(s') && Settles(s, s')
  {
  }

  lemma SettleKeepsInv(s: State, s': State, limits: Limits)
    requires Inv(s) && (AbortStep(s, s') || SettleStep(s, s') || ReturnStep(s, s'))
    ensures Inv(s') && Settles(s, s')
  {
  }

  lemma StartsInv(s: State)
    requires Init(s)
    ensures Inv(s)
  {
  }

  lemma {:induction false} RunKeepsInv(run: seq<State>, limits: Limits, i: nat)
    requires IsRun(run, limits) && i < |run|
    ensures Inv(run[i])
  {
    if i == 0 {
      StartsInv(run[0]);
    } else {
      RunKeepsInv(run, limits, i - 1);
      var s, s' := run[i - 1], run[i - 1 + 1];
      StepKeepsInv(s, s', limits);
    }
  }

  // ---------- What the splice promises ----------

  /** At every instant, what a side was sent is a prefix of what the other side's reads gave, and the count is all of it but what a failed write let through. */
  lemma BytesArriveInOrder(run: seq<State>, limits: Limits, i: nat, w: Way)
    requires IsRun(run, limits) && i < |run|
    ensures Get(run[i], w).wrote <= Get(run[i], w).read
    ensures Get(run[i], w).n + Get(run[i], w).partial == |Get(run[i], w).wrote|
    ensures Get(run[i], w).partial > 0 ==> !Get(run[i], w).halfClosed && (Get(run[i], w).pc.Failing? || Get(run[i], w).pc.Stopped?)
  {
    RunKeepsInv(run, limits, i);
  }

  /** Completed: both sources ended, all their bytes were written and counted, both sinks were half-closed, and no end was ever aborted. */
  ghost predicate CleanEnd(s: State) {
    forall w :: var c := Get(s, w);
      c.sawEof && c.halfClosed && c.wrote == c.read && c.n == |c.read|
  }

  lemma CompletedMeansClean(run: seq<State>, limits: Limits, i: nat, j: nat)
    requires IsRun(run, limits) && i < |run| && j < |run|
    requires run[i].result.Some? && run[i].result.value.2 == Completed
    ensures CleanEnd(run[i])
    ensures run[i].result.value.0 == |run[i].up.read| && run[i].result.value.1 == |run[i].down.read|
    ensures run[j].aborts == Aborts(0, 0)
  {
    RunKeepsInv(run, limits, i);
    RunKeepsInv(run, limits, j);
    RunSettles(run, limits);
    if i < j {
      SettledStaysSettled(run, i, j);
    } else if j < i {
      SettledStaysSettled(run, j, i);
    }
  }

  /** Anything else: each end was aborted exactly once, and somebody took the once. */
  lemma FailedMeansBothAborted(run: seq<State>, limits: Limits, i: nat, j: nat)
    requires IsRun(run, limits) && i <= j < |run|
    requires run[i].result.Some? && run[i].result.value.2 != Completed
    ensures run[j].aborts == Aborts(1, 1)
    ensures run[j].taker.Some? && run[j].taker == run[i].taker
  {
    RunKeepsInv(run, limits, i);
    RunSettles(run, limits);
    if i < j {
      SettledStaysSettled(run, i, j);
    }
  }

  lemma RunSettles(run: seq<State>, limits: Limits)
    requires IsRun(run, limits)
    ensures forall i :: 0 <= i < |run| - 1 ==> Settles(run[i], run[i + 1])
  {
    forall i | 0 <= i < |run| - 1 ensures Settles(run[i], run[i + 1]) {
      RunKeepsInv(run, limits, i);
      StepKeepsInv(run[i], run[i + 1], limits);
    }
  }

  lemma {:induction false} SettledStaysSettled(run: seq<State>, i: nat, j: nat)
    requires forall k :: 0 <= k < |run| - 1 ==> Settles(run[k], run[k + 1])
    requires i < j < |run|
    ensures Settles(run[i], run[j])
    decreases j - i
  {
    assert Settles(run[j - 1], run[j - 1 + 1]);
    if i < j - 1 {
      SettledStaysSettled(run, i, j - 1);
    }
  }
}
