/**
  Redaction slots of internal/upstream/redact.go: a buffered channel as a
  semaphore, sent to in acquire and received from when buffering fails or by the
  once-only release of a redacted body, over every interleaving of responses and of
  the goroutines that close their bodies.
*/
module Slots {
  /** The release's OnceFunc: not run, being run by a closer (its receive still to come, or done), or run. */
  datatype Once = Unrun | Running(closer: nat, received: bool) | Ran

  /** A covered response: waiting for a slot, being buffered, failed and about to give the slot back, being sent, or refused. */
  datatype Response = Waiting | Buffering | Failing | Sending(once: Once) | Refused(held: bool)

  /** A call of Close on a response's body: about to call release, inside it, or back. */
  datatype Closer = Calling(r: nat) | Releasing(r: nat) | Finishing(r: nat) | Returned(r: nat)

  datatype State = State(used: nat, responses: map<nat, Response>, closers: map<nat, Closer>)

  predicate Holds(r: Response) {
    r.Buffering? || r.Failing? || (r.Sending? && (r.once.Unrun? || (r.once.Running? && !r.once.received)))
  }

  /** Its slot has been received back. */
  predicate GaveBack(r: Response) {
    r == Refused(true) || (r.Sending? && (r.once.Ran? || (r.once.Running? && r.once.received)))
  }

  ghost predicate Init(s: State) { s == State(0, map[], map[]) }

  // ---------- Steps ----------

  ghost predicate ArriveStep(s: State, s': State, r: nat) {
    r !in s.responses && s' == s.(responses := s.responses[r := Waiting])
  }

  /** A send on the channel, which has room. */
  ghost predicate AcquireStep(s: State, s': State, r: nat, capacity: nat) {
    && r in s.responses && s.responses[r] == Waiting && s.used < capacity
    && s' == s.(used := s.used + 1, responses := s.responses[r := Buffering])
  }

  /** The wait's timer fires, or the request is cancelled. */
  ghost predicate GiveUpStep(s: State, s': State, r: nat) {
    && r in s.responses && s.responses[r] == Waiting
    && s' == s.(responses := s.responses[r := Refused(false)])
  }

  ghost predicate BufferStep(s: State, s': State, r: nat, ok: bool) {
    && r in s.responses && s.responses[r] == Buffering
    && s' == s.(responses := s.responses[r := if ok then Sending(Unrun) else Failing])
  }

  /** The failed response's own release: a receive, which needs something to receive. */
  ghost predicate FailReleaseStep(s: State, s': State, r: nat) {
    && r in s.responses && s.responses[r] == Failing && s.used > 0
    && s' == s.(used := s.used - 1, responses := s.responses[r := Refused(true)])
  }

  /** Some goroutine closes the body, again or for the first time. */
  ghost predicate CloseStep(s: State, s': State, c: nat, r: nat) {
    && c !in s.closers && r in s.responses && s.responses[r].Sending?
    && s' == s.(closers := s.closers[c := Calling(r)])
  }

  /** It calls the OnceFunc: the first to come runs it, one that comes after it has run returns, and one in between waits. */
  ghost predicate EnterStep(s: State, s': State, c: nat) {
    && c in s.closers && s.closers[c].Calling? && s.closers[c].r in s.responses
    && var r := s.closers[c].r;
    && s.responses[r].Sending?
    && ((s.responses[r].once == Unrun
         && s' == s.(responses := s.responses[r := Sending(Running(c, false))], closers := s.closers[c := Releasing(r)]))
        || (s.responses[r].once == Ran && s' == s.(closers := s.closers[c := Returned(r)])))
  }

  /** Inside the OnceFunc: a receive, of whatever the channel holds. */
  ghost predicate ReceiveStep(s: State, s': State, c: nat) {
    && c in s.closers && s.closers[c].Releasing? && s.used > 0
    && var r := s.closers[c].r;
    s' == State(s.used - 1, s.responses[r := Sending(Running(c, true))], s.closers[c := Finishing(r)])
  }

  ghost predicate FinishStep(s: State, s': State, c: nat) {
    && c in s.closers && s.closers[c].Finishing?
    && var r := s.closers[c].r;
    s' == s.(responses := s.responses[r := Sending(Ran)], closers := s.closers[c := Returned(r)])
  }

  ghost predicate ResponseStep(s: State, s': State, r: nat, capacity: nat) {
    || ArriveStep(s, s', r) || AcquireStep(s, s', r, capacity) || GiveUpStep(s, s', r)
    || BufferStep(s, s', r, true) || BufferStep(s, s', r, false) || FailReleaseStep(s, s', r)
  }

  ghost predicate CloserStep(s: State, s': State, c: nat) {
    || (exists r :: CloseStep(s, s', c, r)) || EnterStep(s, s', c) || ReceiveStep(s, s', c) || FinishStep(s, s', c)
  }

  ghost predicate Step(s: State, s': State, capacity: nat) {
    (exists r :: ResponseStep(s, s', r, capacity)) || (exists c :: CloserStep(s, s', c))
  }

  ghost predicate IsRun(run: seq<State>, capacity: nat) {
    && run != []
    && Init(run[0])
    && forall i :: 0 <= i < |run| - 1 ==> Step(run[i], run[i + 1], capacity)
  }

  // ---------- What every step keeps ----------

  ghost function Holders(s: State): set<nat> {
    set r | r in s.responses && Holds(s.responses[r])
  }

  ghost function GivenBack(s: State): set<nat> {
    set r | r in s.responses && GaveBack(s.responses[r])
  }

  /** A goroutine inside a response's OnceFunc is the one running it. */
  ghost predicate CloserOk(s: State, c: nat)
    requires c in s.closers
  {
    match s.closers[c]
    case Releasing(r) => r in s.responses && s.responses[r] == Sending(Running(c, false))
    case Finishing(r) => r in s.responses && s.responses[r] == Sending(Running(c, true))
    case _ => true
  }

  ghost predicate ClosersOk(s: State) {
    forall c :: c in s.closers ==> CloserOk(s, c)
  }

  ghost predicate Inv(s: State, capacity: nat) {
    s.used == |Holders(s)| && s.used <= capacity && ClosersOk(s)
  }

  /** A step takes a slot for a response that never had one, gives one response's slot back, or moves none. */
  ghost predicate Effect(s: State, s': State) {
    || (s'.used == s.used && Holders(s') == Holders(s) && GivenBack(s') == GivenBack(s))
    || (exists r :: Takes(s, s', r))
    || (exists r :: Returns(s, s', r))
  }

  ghost predicate Takes(s: State, s': State, r: nat) {
    && s'.used == s.used + 1
    && r !in Holders(s) && r !in GivenBack(s)
    && Holders(s') == Holders(s) + {r} && GivenBack(s') == GivenBack(s)
  }

  ghost predicate Returns(s: State, s': State, r: nat) {
    && s'.used == s.used - 1
    && r in Holders(s) && r !in GivenBack(s)
    && Holders(s') == Holders(s) - {r} && GivenBack(s') == GivenBack(s) + {r}
  }

  lemma Becomes(s: State, s': State, r: nat, x: Response)
    requires s'.responses == s.responses[r := x]
    ensures Holders(s') == if Holds(x) then Holders(s) + {r} else Holders(s) - {r}
    ensures GivenBack(s') == if GaveBack(x) then GivenBack(s) + {r} else GivenBack(s) - {r}
  {
  }

  lemma ResponseStepEffect(s: State, s': State, r: nat, capacity: nat)
    requires ResponseStep(s, s', r, capacity)
    ensures Effect(s, s')
  {
    Becomes(s, s', r, s'.responses[r]);
    if AcquireStep(s, s', r, capacity) {
      assert Takes(s, s', r);
    } else if FailReleaseStep(s, s', r) {
      assert Returns(s, s', r);
    } else {
      assert r in Holders(s) <==> r in Holders(s');
      assert Holders(s') == Holders(s) && GivenBack(s') == GivenBack(s);
    }
  }

  lemma CloserStepEffect(s: State, s': State, c: nat)
    requires ClosersOk(s) && CloserStep(s, s', c)
    ensures Effect(s, s')
  {
    assert c in s.closers ==> CloserOk(s, c);
    if s'.responses == s.responses {
      assert Holders(s') == Holders(s) && GivenBack(s') == GivenBack(s);
    } else {
      var r := s.closers[c].r;
      Becomes(s, s', r, s'.responses[r]);
      if ReceiveStep(s, s', c) {
        assert Returns(s, s', r);
      } else {
        assert Holders(s') == Holders(s) && GivenBack(s') == GivenBack(s);
      }
    }
  }

  lemma ResponseStepKeepsClosers(s: State, s': State, r: nat, capacity: nat)
    requires ClosersOk(s) && ResponseStep(s, s', r, capacity)
    ensures ClosersOk(s')
  {
    forall d | d in s'.closers ensures CloserOk(s', d) {
      assert CloserOk(s, d);
    }
  }

  lemma CloserStepKeepsClosers(s: State, s': State, c: nat)
    requires ClosersOk(s) && CloserStep(s, s', c)
    ensures ClosersOk(s')
  {
    assert c in s.closers ==> CloserOk(s, c);
    forall d | d in s'.closers ensures CloserOk(s', d) {
      assert d != c ==> CloserOk(s, d);
    }
  }

  lemma StepKeepsClosers(s: State, s': State, capacity: nat)
    requires ClosersOk(s) && Step(s, s', capacity)
    ensures ClosersOk(s')
  {
    if r :| ResponseStep(s, s', r, capacity) {
      ResponseStepKeepsClosers(s, s', r, capacity);
    } else {
      var c :| CloserStep(s, s', c);
      CloserStepKeepsClosers(s, s', c);
    }
  }

  lemma StepHasEffect(s: State, s': State, capacity: nat)
    requires ClosersOk(s) && Step(s, s', capacity)
    ensures Effect(s, s')
    ensures s'.used <= s.used || s'.used <= capacity
  {
    if r :| ResponseStep(s, s', r, capacity) {
      ResponseStepEffect(s, s', r, capacity);
    } else {
      var c :| CloserStep(s, s', c);
      CloserStepEffect(s, s', c);
    }
  }

  lemma EffectKeepsCount(s: State, s': State)
    requires Effect(s, s') && s.used == |Holders(s)|
    ensures s'.used == |Holders(s')|
  {
  }

  lemma {:induction false} RunKeepsInv(run: seq<State>, capacity: nat, i: nat)
    requires IsRun(run, capacity) && i < |run|
    ensures Inv(run[i], capacity)
  {
    if i == 0 {
      assert Holders(run[0]) == {};
    } else {
      RunKeepsInv(run, capacity, i - 1);
      assert Step(run[i - 1], run[i - 1 + 1], capacity);
      StepKeepsClosers(run[i - 1], run[i], capacity);
      StepHasEffect(run[i - 1], run[i], capacity);
      EffectKeepsCount(run[i - 1], run[i]);
    }
  }

  lemma RunHasEffects(run: seq<State>, capacity: nat)
    requires IsRun(run, capacity)
    ensures forall i :: 0 <= i < |run| - 1 ==> Effect(run[i], run[i + 1])
  {
    forall i | 0 <= i < |run| - 1 ensures Effect(run[i], run[i + 1]) {
      RunKeepsInv(run, capacity, i);
      StepHasEffect(run[i], run[i + 1], capacity);
    }
  }

  /**
    Slots in use are exactly the responses past acquire whose slot has not been
    received back, never more than there are; so neither receive ever blocks.
  */
  lemma SlotsAreConserved(run: seq<State>, capacity: nat, i: nat)
    requires IsRun(run, capacity) && i < |run|
    ensures run[i].used == |Holders(run[i])| && run[i].used <= capacity
    ensures forall r :: r in run[i].responses && run[i].responses[r] == Failing ==>
      exists s' :: FailReleaseStep(run[i], s', r)
    ensures forall c :: c in run[i].closers && run[i].closers[c].Releasing? ==> exists s' :: ReceiveStep(run[i], s', c)
  {
    RunKeepsInv(run, capacity, i);
    var s := run[i];
    forall r | r in s.responses && Holds(s.responses[r]) ensures s.used > 0 {
      assert r in Holders(s);
    }
    forall r | r in s.responses && s.responses[r] == Failing ensures exists s' :: FailReleaseStep(s, s', r) {
      assert FailReleaseStep(s, s.(used := s.used - 1, responses := s.responses[r := Refused(true)]), r);
    }
    forall c | c in s.closers && s.closers[c].Releasing? ensures exists s' :: ReceiveStep(s, s', c) {
      assert CloserOk(s, c);
      var r := s.closers[c].r;
      assert ReceiveStep(s, State(s.used - 1, s.responses[r := Sending(Running(c, true))], s.closers[c := Finishing(r)]), c);
    }
  }

  // ---------- No slot is returned twice ----------

  /** Sends on the channel so far. */
  ghost function Sends(run: seq<State>, i: nat): nat
    requires i < |run|
  {
    if i == 0 then 0 else Sends(run, i - 1) + (if run[i - 1].used < run[i].used then 1 else 0)
  }

  /** Receives from the channel so far. */
  ghost function Receives(run: seq<State>, i: nat): nat
    requires i < |run|
  {
    if i == 0 then 0 else Receives(run, i - 1) + (if run[i].used < run[i - 1].used then 1 else 0)
  }

  /** Every send is a response's that holds a slot or held one, and every receive is a response's that held one: one each. */
  lemma SendsAndReceives(run: seq<State>, capacity: nat, i: nat)
    requires IsRun(run, capacity) && i < |run|
    ensures Receives(run, i) == |GivenBack(run[i])|
    ensures Sends(run, i) == |Holders(run[i])| + |GivenBack(run[i])|
  {
    RunHasEffects(run, capacity);
    EffectsAddUp(run, i);
  }

  lemma EffectAdds(s: State, s': State)
    requires Effect(s, s')
    ensures |GivenBack(s')| == |GivenBack(s)| + (if s'.used < s.used then 1 else 0)
    ensures |Holders(s')| + |GivenBack(s')| == |Holders(s)| + |GivenBack(s)| + (if s.used < s'.used then 1 else 0)
  {
    if r :| Returns(s, s', r) {
      assert |Holders(s) - {r}| == |Holders(s)| - 1;
    }
  }

  lemma {:induction false} EffectsAddUp(run: seq<State>, i: nat)
    requires i < |run| && Init(run[0])
    requires forall k :: 0 <= k < |run| - 1 ==> Effect(run[k], run[k + 1])
    ensures Receives(run, i) == |GivenBack(run[i])|
    ensures Sends(run, i) == |Holders(run[i])| + |GivenBack(run[i])|
  {
    if i == 0 {
      assert Holders(run[0]) == {} && GivenBack(run[0]) == {};
    } else {
      EffectsAddUp(run, i - 1);
      var s, s' := run[i - 1], run[i - 1 + 1];
      EffectAdds(s, s');
    }
  }

  /** However often a body is closed, a receive is one response's, and that response holds no slot again. */
  lemma EachSlotReturnedOnce(run: seq<State>, capacity: nat, i: nat, j: nat)
    requires IsRun(run, capacity) && i + 1 <= j < |run| && run[i + 1].used < run[i].used
    ensures exists r :: Returns(run[i], run[i + 1], r) && r in GivenBack(run[j]) && r !in Holders(run[j])
  {
    RunHasEffects(run, capacity);
    assert Effect(run[i], run[i + 1]);
    var r :| Returns(run[i], run[i + 1], r);
    StaysGivenBack(run, i + 1, j, r);
  }

  lemma {:induction false} StaysGivenBack(run: seq<State>, i: nat, j: nat, r: nat)
    requires forall k :: 0 <= k < |run| - 1 ==> Effect(run[k], run[k + 1])
    requires i <= j < |run| && r in GivenBack(run[i])
    ensures r in GivenBack(run[j]) && r !in Holders(run[j])
    decreases j - i
  {
    if i < j {
      StaysGivenBack(run, i, j - 1, r);
      assert Effect(run[j - 1], run[j - 1 + 1]);
    }
  }
}
