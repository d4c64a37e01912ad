/**
  Admission, release and shutdown of pipes: internal/pipeserver/server.go's open
  and serve, one goroutine a pipe, beside the goroutine of tunnels.go's Start that
  drains and then closes the tunnels. Every goroutine's steps interleave freely.
*/
module PipeServer {
  import opened Wrappers
  import opened Drain

  datatype Reason = ConnectorDraining | ProtocolError | BadCapability | Capacity

  /** A pipe's request, from arrival to its refusal or its release. */
  datatype Pipe =
    | Arrived
    | Checked
    | Cleared
    | Admitted
    | Serving
    | Ending
    | Refused(reason: Reason)
    | Released

  /** Start's goroutine: before ctx is done, stopping, in Wait, and past closeTunnels. */
  datatype Stopper =
    | Running
    | Stopping
    | InWait(w: Waiter)
    | Closed(drained: bool)

  /** What a request is: a CONNECT to a canonical authority or not, with a capability that will verify for it or not. */
  datatype Request = Request(wellFormed: bool, verified: bool)

  datatype Server = Server(
    tracker: View,
    draining: bool,
    requests: map<nat, Request>,
    pipes: map<nat, Pipe>,
    stopper: Stopper,
    graceOver: bool)

  /** Start's goroutine is blocked on the tracker's channel. */
  predicate Waiting(stopper: Stopper) { stopper.InWait? && stopper.w.Blocked? }

  predicate InFlight(p: Pipe) { p.Admitted? || p.Serving? || p.Ending? }

  ghost predicate Start(s: Server) {
    s == Server(ZERO, false, map[], map[], Running, false)
  }

  // ---------- A pipe's steps ----------

  ghost predicate ArriveStep(s: Server, s': Server, p: nat, request: Request) {
    p !in s.pipes && s' == s.(pipes := s.pipes[p := Arrived], requests := s.requests[p := request])
  }

  /** open's first look: draining refuses; so does anything but a CONNECT to a canonical authority. */
  ghost predicate CheckStep(s: Server, s': Server, p: nat) {
    && p in s.pipes && s.pipes[p] == Arrived && p in s.requests
    && s' == s.(pipes := s.pipes[p :=
      if s.draining then Refused(ConnectorDraining) else if !s.requests[p].wellFormed then Refused(ProtocolError) else Checked])
  }

  ghost predicate VerifyStep(s: Server, s': Server, p: nat) {
    && p in s.pipes && s.pipes[p] == Checked && p in s.requests
    && s' == s.(pipes := s.pipes[p := if s.requests[p].verified then Cleared else Refused(BadCapability)])
  }

  ghost predicate AdmitStep(s: Server, s': Server, p: nat, maxPipes: int) {
    && p in s.pipes && s.pipes[p] == Cleared
    && s' == (if Full(s.tracker, maxPipes) then s.(pipes := s.pipes[p := Refused(Capacity)])
              else s.(tracker := Added(s.tracker), pipes := s.pipes[p := Admitted]))
  }

  /** Accept fails, which ends the pipe, or the pipe is served until it ends however it does. */
  ghost predicate ServeStep(s: Server, s': Server, p: nat, accepted: bool) {
    && p in s.pipes
    && ((s.pipes[p] == Admitted && s' == s.(pipes := s.pipes[p := if accepted then Serving else Ending]))
        || (s.pipes[p] == Serving && s' == s.(pipes := s.pipes[p := Ending])))
  }

  /** The deferred Done. */
  ghost predicate ReleaseStep(s: Server, s': Server, p: nat) {
    && p in s.pipes && s.pipes[p] == Ending
    && s.tracker.n > 0 && (s.tracker.n == 1 ==> CloseFault(s.tracker).None?)
    && s' == s.(tracker := Ended(s.tracker), pipes := s.pipes[p := Released])
  }

  ghost predicate PipeStep(s: Server, s': Server, p: nat, maxPipes: int) {
    || (exists request :: ArriveStep(s, s', p, request))
    || CheckStep(s, s', p) || VerifyStep(s, s', p)
    || ServeStep(s, s', p, true) || ServeStep(s, s', p, false)
    || AdmitStep(s, s', p, maxPipes)
    || ReleaseStep(s, s', p)
  }

  // ---------- Shutdown's steps ----------

  ghost predicate StopperStep(s: Server, s': Server) {
    match s.stopper
    case Running => s' == s.(stopper := Stopping)
    case Stopping => s' == s.(draining := true, stopper := InWait(Looking))
    case InWait(Looking) => s' == s.(stopper := InWait(Looked(s.tracker)))
    case InWait(Blocked(_)) =>
      || (CanWake(s.tracker, s.stopper.w) && s' == s.(stopper := InWait(Looking)))
      || (s.graceOver && s' == s.(stopper := InWait(Returned(false))))
    case InWait(Returned(drained)) => s' == s.(stopper := Closed(drained))
    case Closed(_) => false
  }

  /** drainGrace passes. It starts only once the server is stopping. */
  ghost predicate GraceStep(s: Server, s': Server) {
    !s.stopper.Running? && s' == s.(graceOver := true)
  }

  ghost predicate Step(s: Server, s': Server, maxPipes: int) {
    (exists p :: PipeStep(s, s', p, maxPipes)) || StopperStep(s, s') || GraceStep(s, s')
  }

  ghost predicate IsRun(run: seq<Server>, maxPipes: int) {
    && run != []
    && Start(run[0])
    && forall i :: 0 <= i < |run| - 1 ==> Step(run[i], run[i + 1], maxPipes)
  }

  // ---------- What every step keeps ----------

  ghost function InFlightPipes(s: Server): set<nat> {
    set p | p in s.pipes && InFlight(s.pipes[p])
  }

  ghost predicate Inv(s: Server, maxPipes: int) {
    && Consistent(s.tracker)
    && s.tracker.n == |InFlightPipes(s)|
    && (maxPipes > 0 ==> s.tracker.n <= maxPipes)
    && (Waiting(s.stopper) ==> s.stopper.w.c.Some? && s.stopper.w.c.value < s.tracker.made)
    && (s.stopper.Running? || s.stopper.Stopping? ==> !s.draining)
    && (s.stopper == InWait(Returned(false)) || s.stopper == Closed(false) ==> s.graceOver)
  }

  lemma PipeBecomes(s: Server, s': Server, p: nat, stage: Pipe)
    requires s'.pipes == s.pipes[p := stage]
    ensures InFlightPipes(s') == if InFlight(stage) then InFlightPipes(s) + {p} else InFlightPipes(s) - {p}
  {
  }

  lemma AdmitKeepsInv(s: Server, s': Server, p: nat, maxPipes: int)
    requires Inv(s, maxPipes) && AdmitStep(s, s', p, maxPipes)
    ensures Inv(s', maxPipes)
  {
    PipeBecomes(s, s', p, s'.pipes[p]);
    assert p !in InFlightPipes(s);
    AddKeepsConsistent(s.tracker);
  }

  lemma ReleaseKeepsInv(s: Server, s': Server, p: nat, maxPipes: int)
    requires Inv(s, maxPipes) && ReleaseStep(s, s', p)
    ensures Inv(s', maxPipes)
  {
    PipeBecomes(s, s', p, Released);
    assert p in InFlightPipes(s);
    DoneKeepsConsistent(s.tracker);
  }

  /** A pipe moves, and is in flight, or released, after just if it was before. */
  ghost predicate Quiet(s: Server, s': Server, p: nat) {
    && p in s'.pipes && s' == s.(pipes := s.pipes[p := s'.pipes[p]], requests := s'.requests)
    && (p in s.pipes && InFlight(s.pipes[p]) <==> InFlight(s'.pipes[p]))
    && (p in s.pipes && s.pipes[p].Released? <==> s'.pipes[p].Released?)
  }

  lemma OtherStepsAreQuiet(s: Server, s': Server, p: nat, maxPipes: int)
    requires PipeStep(s, s', p, maxPipes) && s'.tracker.n == s.tracker.n && !ReleaseStep(s, s', p)
    ensures Quiet(s, s', p)
  {
  }

  ghost function ReleasedPipes(s: Server): set<nat> {
    set p | p in s.pipes && s.pipes[p].Released?
  }

  lemma QuietKeepsSets(s: Server, s': Server, p: nat)
    requires Quiet(s, s', p)
    ensures InFlightPipes(s') == InFlightPipes(s) && ReleasedPipes(s') == ReleasedPipes(s)
  {
  }

  lemma PipeStepKeepsInv(s: Server, s': Server, p: nat, maxPipes: int)
    requires Inv(s, maxPipes) && PipeStep(s, s', p, maxPipes)
    ensures Inv(s', maxPipes)
  {
    if AdmitStep(s, s', p, maxPipes) {
      AdmitKeepsInv(s, s', p, maxPipes);
    } else if ReleaseStep(s, s', p) {
      ReleaseKeepsInv(s, s', p, maxPipes);
    } else {
      OtherStepsAreQuiet(s, s', p, maxPipes);
      QuietKeepsSets(s, s', p);
    }
  }

  lemma {:induction false} RunKeepsInv(run: seq<Server>, maxPipes: int, i: nat)
    requires IsRun(run, maxPipes) && i < |run|
    ensures Inv(run[i], maxPipes)
  {
    if i == 0 {
      assert InFlightPipes(run[0]) == {};
    } else {
      RunKeepsInv(run, maxPipes, i - 1);
      var s, s' := run[i - 1], run[i - 1 + 1];
      assert Step(s, s', maxPipes);
      if p :| PipeStep(s, s', p, maxPipes) {
        PipeStepKeepsInv(s, s', p, maxPipes);
      } else {
        assert InFlightPipes(s') == InFlightPipes(s);
      }
    }
  }

  /** Slots in use are exactly the pipes admitted and not released, and never more than a positive limit. */
  lemma SlotsMatchPipes(run: seq<Server>, maxPipes: int, i: nat)
    requires IsRun(run, maxPipes) && i < |run|
    ensures run[i].tracker.n == |InFlightPipes(run[i])|
    ensures maxPipes > 0 ==> |InFlightPipes(run[i])| <= maxPipes
  {
    RunKeepsInv(run, maxPipes, i);
  }

  // ---------- How one goroutine moves, whatever the others do ----------

  function Stage(s: Server, p: nat): Option<Pipe> { if p in s.pipes then Some(s.pipes[p]) else None }

  /** A pipe's only moves. */
  ghost predicate PipeMoves(s: Server, s': Server, p: nat) {
    var from, to := Stage(s, p), Stage(s', p);
    || to == from
    || (from == None && to == Some(Arrived))
    || (from == Some(Arrived) && s.draining && to == Some(Refused(ConnectorDraining)))
    || (from == Some(Arrived) && !s.draining && (to == Some(Checked) || to == Some(Refused(ProtocolError))))
    || (from == Some(Checked) && (to == Some(Cleared) || to == Some(Refused(BadCapability))))
    || (from == Some(Cleared) && (to == Some(Admitted) || to == Some(Refused(Capacity))))
    || (from == Some(Admitted) && (to == Some(Serving) || to == Some(Ending)))
    || (from == Some(Serving) && to == Some(Ending))
    || (from == Some(Ending) && to == Some(Released))
  }

  ghost predicate StopperMoves(s: Server, s': Server) {
    && (s.draining ==> s'.draining)
    && (s'.stopper == s.stopper || StopperStep(s, s'))
  }

  ghost predicate Moves(s: Server, s': Server) {
    StopperMoves(s, s') && forall p :: PipeMoves(s, s', p)
  }

  lemma PipeStepMoves(s: Server, s': Server, q: nat, maxPipes: int)
    requires PipeStep(s, s', q, maxPipes)
    ensures StopperMoves(s, s') && PipeMoves(s, s', q)
    ensures forall p :: p != q ==> Stage(s', p) == Stage(s, p)
  {
  }

  lemma StepMoves(s: Server, s': Server, maxPipes: int)
    requires Step(s, s', maxPipes)
    ensures Moves(s, s')
  {
    if q :| PipeStep(s, s', q, maxPipes) {
      PipeStepMoves(s, s', q, maxPipes);
    }
  }

  ghost predicate Moving(run: seq<Server>) {
    && run != []
    && Start(run[0])
    && forall i :: 0 <= i < |run| - 1 ==> Moves(run[i], run[i + 1])
  }

  lemma RunIsMoving(run: seq<Server>, maxPipes: int)
    requires IsRun(run, maxPipes)
    ensures Moving(run)
  {
    forall i | 0 <= i < |run| - 1 ensures Moves(run[i], run[i + 1]) {
      StepMoves(run[i], run[i + 1], maxPipes);
    }
  }

  // ---------- Each admitted pipe is released once ----------

  /** The deferred Done of a pipe that is over never panics and can always be made. */
  lemma EndingCanRelease(run: seq<Server>, maxPipes: int, i: nat, p: nat)
    requires IsRun(run, maxPipes) && i < |run|
    requires p in run[i].pipes && run[i].pipes[p] == Ending
    ensures run[i].tracker.n > 0 && (run[i].tracker.n == 1 ==> CloseFault(run[i].tracker).None?)
    ensures exists s' :: ReleaseStep(run[i], s', p)
  {
    RunKeepsInv(run, maxPipes, i);
    var s := run[i];
    assert p in InFlightPipes(s);
    DoneKeepsConsistent(s.tracker);
    assert ReleaseStep(s, s.(tracker := Ended(s.tracker), pipes := s.pipes[p := Released]), p);
  }

  /** A step is the Add of a pipe never admitted before, the Done of one in flight, or leaves the tracker's count alone. */
  ghost predicate Effect(s: Server, s': Server) {
    || (s'.tracker.n == s.tracker.n && InFlightPipes(s') == InFlightPipes(s) && ReleasedPipes(s') == ReleasedPipes(s))
    || (exists p :: Admits(s, s', p))
    || (exists p :: Releases(s, s', p))
  }

  ghost predicate Admits(s: Server, s': Server, p: nat) {
    && s'.tracker.n == s.tracker.n + 1
    && p !in InFlightPipes(s) && p !in ReleasedPipes(s)
    && InFlightPipes(s') == InFlightPipes(s) + {p} && ReleasedPipes(s') == ReleasedPipes(s)
  }

  ghost predicate Releases(s: Server, s': Server, p: nat) {
    && s'.tracker.n == s.tracker.n - 1
    && p in InFlightPipes(s) && p !in ReleasedPipes(s)
    && InFlightPipes(s') == InFlightPipes(s) - {p} && ReleasedPipes(s') == ReleasedPipes(s) + {p}
  }

  lemma PipeStepEffect(s: Server, s': Server, p: nat, maxPipes: int)
    requires PipeStep(s, s', p, maxPipes)
    ensures Effect(s, s')
  {
    if ReleaseStep(s, s', p) {
      PipeBecomes(s, s', p, Released);
      assert Releases(s, s', p);
    } else if s'.tracker.n == s.tracker.n {
      OtherStepsAreQuiet(s, s', p, maxPipes);
      QuietKeepsSets(s, s', p);
    } else {
      PipeBecomes(s, s', p, Admitted);
      assert Admits(s, s', p);
    }
  }

  lemma RunHasEffects(run: seq<Server>, maxPipes: int)
    requires IsRun(run, maxPipes)
    ensures forall i :: 0 <= i < |run| - 1 ==> Effect(run[i], run[i + 1])
  {
    forall i | 0 <= i < |run| - 1 ensures Effect(run[i], run[i + 1]) {
      var s, s' := run[i], run[i + 1];
      assert Step(s, s', maxPipes);
      if p :| PipeStep(s, s', p, maxPipes) {
        PipeStepEffect(s, s', p, maxPipes);
      } else {
        assert InFlightPipes(s') == InFlightPipes(s) && ReleasedPipes(s') == ReleasedPipes(s);
      }
    }
  }

  /** Adds that succeeded so far. */
  ghost function Adds(run: seq<Server>, i: nat): nat
    requires i < |run|
  {
    if i == 0 then 0 else Adds(run, i - 1) + (if run[i - 1].tracker.n < run[i].tracker.n then 1 else 0)
  }

  /** Calls of Done so far. */
  ghost function Dones(run: seq<Server>, i: nat): nat
    requires i < |run|
  {
    if i == 0 then 0 else Dones(run, i - 1) + (if run[i].tracker.n < run[i - 1].tracker.n then 1 else 0)
  }

  /** Every Done so far is one released pipe's, and every Add one that is in flight or released. */
  lemma AddsAndDones(run: seq<Server>, maxPipes: int, i: nat)
    requires IsRun(run, maxPipes) && i < |run|
    ensures Dones(run, i) == |ReleasedPipes(run[i])|
    ensures Adds(run, i) == |InFlightPipes(run[i])| + |ReleasedPipes(run[i])|
  {
    RunHasEffects(run, maxPipes);
    EffectsAddUp(run, i);
  }

  lemma EffectAdds(s: Server, s': Server)
    requires Effect(s, s')
    ensures |ReleasedPipes(s')| == |ReleasedPipes(s)| + (if s'.tracker.n < s.tracker.n then 1 else 0)
    ensures |InFlightPipes(s')| + |ReleasedPipes(s')|
         == |InFlightPipes(s)| + |ReleasedPipes(s)| + (if s.tracker.n < s'.tracker.n then 1 else 0)
  {
    if p :| Releases(s, s', p) {
      assert |InFlightPipes(s) - {p}| == |InFlightPipes(s)| - 1;
    }
  }

  lemma {:induction false} EffectsAddUp(run: seq<Server>, i: nat)
    requires i < |run| && Start(run[0])
    requires forall k :: 0 <= k < |run| - 1 ==> Effect(run[k], run[k + 1])
    ensures Dones(run, i) == |ReleasedPipes(run[i])|
    ensures Adds(run, i) == |InFlightPipes(run[i])| + |ReleasedPipes(run[i])|
  {
    if i == 0 {
      assert InFlightPipes(run[0]) == {} && ReleasedPipes(run[0]) == {};
    } else {
      EffectsAddUp(run, i - 1);
      var s, s' := run[i - 1], run[i - 1 + 1];
      EffectAdds(s, s');
    }
  }

  /** A Done is one pipe's, and that pipe is never in flight again. */
  lemma EachPipeReleasedOnce(run: seq<Server>, maxPipes: int, i: nat, j: nat)
    requires IsRun(run, maxPipes) && i + 1 <= j < |run| && run[i + 1].tracker.n < run[i].tracker.n
    ensures exists p :: Releases(run[i], run[i + 1], p) && p in ReleasedPipes(run[j]) && p !in InFlightPipes(run[j])
  {
    RunHasEffects(run, maxPipes);
    assert Effect(run[i], run[i + 1]);
    var p :| Releases(run[i], run[i + 1], p);
    StaysReleased(run, i + 1, j, p);
  }

  lemma {:induction false} StaysReleased(run: seq<Server>, i: nat, j: nat, p: nat)
    requires forall k :: 0 <= k < |run| - 1 ==> Effect(run[k], run[k + 1])
    requires i <= j < |run| && p in ReleasedPipes(run[i])
    ensures p in ReleasedPipes(run[j]) && p !in InFlightPipes(run[j])
    decreases j - i
  {
    if i < j {
      StaysReleased(run, i, j - 1, p);
      assert Effect(run[j - 1], run[j - 1 + 1]);
    }
  }

  // ---------- Who is admitted ----------

  /** What a pipe's stage says of its request. */
  ghost predicate StageOk(s: Server, p: nat)
    requires p in s.pipes
  {
    && p in s.requests
    && match s.pipes[p]
       case Arrived => true
       case Checked => s.requests[p].wellFormed
       case Refused(ConnectorDraining) => s.draining
       case Refused(ProtocolError) => !s.requests[p].wellFormed
       case Refused(BadCapability) => s.requests[p].wellFormed && !s.requests[p].verified
       case _ => s.requests[p].wellFormed && s.requests[p].verified
  }

  ghost predicate StagesOk(s: Server) { forall p :: p in s.pipes ==> StageOk(s, p) }

  lemma OwnStage(s: Server, s': Server, q: nat, maxPipes: int)
    requires (q in s.pipes ==> StageOk(s, q)) && PipeStep(s, s', q, maxPipes)
    ensures q in s'.pipes && StageOk(s', q)
  {
  }

  /** A pipe's step leaves every other pipe and request alone. */
  ghost predicate Touches(s: Server, s': Server, q: nat) {
    && q in s'.pipes && s'.pipes == s.pipes[q := s'.pipes[q]]
    && (s'.requests == s.requests || (q !in s.pipes && q in s'.requests && s'.requests == s.requests[q := s'.requests[q]]))
    && s'.draining == s.draining
  }

  lemma PipeStepTouches(s: Server, s': Server, q: nat, maxPipes: int)
    requires PipeStep(s, s', q, maxPipes)
    ensures Touches(s, s', q)
  {
  }

  lemma OthersStage(s: Server, s': Server, q: nat, p: nat)
    requires Touches(s, s', q) && p != q && p in s'.pipes
    ensures p in s.pipes && (StageOk(s, p) ==> StageOk(s', p))
  {
  }

  lemma PipeStepKeepsStages(s: Server, s': Server, q: nat, maxPipes: int)
    requires StagesOk(s) && PipeStep(s, s', q, maxPipes)
    ensures StagesOk(s')
  {
    PipeStepTouches(s, s', q, maxPipes);
    forall p | p in s'.pipes ensures StageOk(s', p) {
      if p != q {
        OthersStage(s, s', q, p);
        assert StageOk(s, p);
      } else {
        OwnStage(s, s', q, maxPipes);
      }
    }
  }

  /** A pipe is admitted only for a well-formed request whose capability verifies, and refused only for what is so. */
  lemma {:induction false} AdmittedIsEntitled(run: seq<Server>, maxPipes: int, i: nat)
    requires IsRun(run, maxPipes) && i < |run|
    ensures StagesOk(run[i])
  {
    if i > 0 {
      AdmittedIsEntitled(run, maxPipes, i - 1);
      var s, s' := run[i - 1], run[i - 1 + 1];
      assert Step(s, s', maxPipes);
      if p :| PipeStep(s, s', p, maxPipes) {
        PipeStepKeepsStages(s, s', p, maxPipes);
      } else {
        forall p | p in s'.pipes ensures StageOk(s', p) {
          assert StageOk(s, p);
        }
      }
    }
  }

  // ---------- Shutdown ----------

  /** The tunnels close only if the grace period is over, or at some instant after draining began no pipe was in flight. */
  lemma TunnelsCloseDrainedOrLate(run: seq<Server>, maxPipes: int, i: nat) returns (j: nat)
    requires IsRun(run, maxPipes) && i < |run| && run[i].stopper.Closed?
    ensures run[i].graceOver || (j <= i && run[j].draining && InFlightPipes(run[j]) == {})
  {
    j := 0;
    RunKeepsInv(run, maxPipes, i);
    if run[i].stopper.drained {
      RunIsMoving(run, maxPipes);
      j := SawNoPipes(run, i);
      RunKeepsInv(run, maxPipes, j);
    }
  }

  lemma {:induction false} SawNoPipes(run: seq<Server>, i: nat) returns (j: nat)
    requires Moving(run) && i < |run|
    requires run[i].stopper == Closed(true) || run[i].stopper == InWait(Returned(true))
    ensures j <= i && run[j].draining && run[j].tracker.n == 0
  {
    assert i > 0;
    assert Moves(run[i - 1], run[i - 1 + 1]);
    if run[i - 1].stopper == InWait(Looking) {
      j := i - 1;
      DrainingSinceWait(run, j);
    } else {
      j := SawNoPipes(run, i - 1);
    }
  }

  lemma {:induction false} DrainingSinceWait(run: seq<Server>, i: nat)
    requires Moving(run) && i < |run|
    ensures !run[i].stopper.Running? && !run[i].stopper.Stopping? ==> run[i].draining
  {
    if i > 0 {
      DrainingSinceWait(run, i - 1);
      assert Moves(run[i - 1], run[i - 1 + 1]);
    }
  }

  /** A blocked Start always sees the last pipe go: once none is in flight it can look again. */
  lemma DrainWakes(run: seq<Server>, maxPipes: int, i: nat)
    requires IsRun(run, maxPipes) && i < |run|
    requires Waiting(run[i].stopper) && InFlightPipes(run[i]) == {}
    ensures StopperStep(run[i], run[i].(stopper := InWait(Looking)))
  {
    RunKeepsInv(run, maxPipes, i);
  }

  /**
    Draining does not close admission at once: a pipe may be admitted afterwards,
    but only one whose own check came before. From then on every check refuses.
  */
  lemma CheckedWhileDrainingIsRefused(run: seq<Server>, maxPipes: int, j: nat, i: nat, p: nat)
    requires IsRun(run, maxPipes) && j <= i < |run|
    requires run[j].draining && (p !in run[j].pipes || run[j].pipes[p] == Arrived)
    ensures p in run[i].pipes ==> run[i].pipes[p] == Arrived || run[i].pipes[p] == Refused(ConnectorDraining)
  {
    RunIsMoving(run, maxPipes);
    LateArrivals(run, j, i, p);
  }

  lemma {:induction false} LateArrivals(run: seq<Server>, j: nat, i: nat, p: nat)
    requires Moving(run) && j <= i < |run|
    requires run[j].draining && (p !in run[j].pipes || run[j].pipes[p] == Arrived)
    ensures run[i].draining
    ensures p in run[i].pipes ==> run[i].pipes[p] == Arrived || run[i].pipes[p] == Refused(ConnectorDraining)
    decreases i - j
  {
    if j < i {
      LateArrivals(run, j, i - 1, p);
      assert Moves(run[i - 1], run[i - 1 + 1]) && PipeMoves(run[i - 1], run[i], p);
    }
  }

  predicate PassedCheck(p: Pipe) { p.Checked? || p.Cleared? || InFlight(p) || p.Released? }

  lemma AdmittedWasCheckedBeforeDraining(run: seq<Server>, maxPipes: int, i: nat, p: nat) returns (j: nat)
    requires IsRun(run, maxPipes) && i < |run|
    requires p in run[i].pipes && PassedCheck(run[i].pipes[p])
    ensures j < i && p in run[j].pipes && run[j].pipes[p] == Arrived && !run[j].draining
  {
    RunIsMoving(run, maxPipes);
    j := CheckedAt(run, i, p);
  }

  lemma {:induction false} CheckedAt(run: seq<Server>, i: nat, p: nat) returns (j: nat)
    requires Moving(run) && i < |run|
    requires p in run[i].pipes && PassedCheck(run[i].pipes[p])
    ensures j < i && p in run[j].pipes && run[j].pipes[p] == Arrived && !run[j].draining
  {
    assert i > 0;
    assert Moves(run[i - 1], run[i - 1 + 1]) && PipeMoves(run[i - 1], run[i], p);
    if run[i - 1].pipes[p] == Arrived {
      j := i - 1;
    } else {
      j := CheckedAt(run, i - 1, p);
    }
  }

  /** Such a late admission does happen, even after Start has found no pipe and closed the tunnels. */
  lemma LateAdmission(maxPipes: int) returns (run: seq<Server>)
    ensures IsRun(run, maxPipes)
    ensures var last := run[|run| - 1];
      last.draining && last.stopper == Closed(true) && last.pipes == map[0 := Admitted]
  {
    var s0 := Server(ZERO, false, map[], map[], Running, false);
    var s1 := s0.(pipes := map[0 := Arrived], requests := map[0 := Request(true, true)]);
    var s2 := s1.(pipes := map[0 := Checked]);
    var s3 := s1.(pipes := map[0 := Cleared]);
    var s4 := s3.(stopper := Stopping);
    var s5 := s3.(draining := true, stopper := InWait(Looking));
    var s6 := s5.(stopper := InWait(Returned(true)));
    var s7 := s6.(stopper := Closed(true));
    var s8 := s7.(tracker := Added(ZERO), pipes := map[0 := Admitted]);
    assert ArriveStep(s0, s1, 0, Request(true, true)) && CheckStep(s1, s2, 0) && VerifyStep(s2, s3, 0);
    assert AdmitStep(s7, s8, 0, maxPipes);
    run := [s0, s1, s2, s3, s4, s5, s6, s7, s8];
    assert PipeStep(s0, s1, 0, maxPipes) && PipeStep(s1, s2, 0, maxPipes) && PipeStep(s2, s3, 0, maxPipes)
        && PipeStep(s7, s8, 0, maxPipes);
  }
}
