/**
  The in-flight tracker of connector-lib/drain/drain.go: a counter and the
  channel of its current busy spell, with any number of goroutines adding,
  finishing and waiting. Channels are numbered in the order they are made.
*/
module Drain {
  import opened Wrappers

  /** The tracker's fields, with which channels exist and which are closed. */
  datatype View = View(n: nat, idle: Option<nat>, made: nat, closed: set<nat>)

  datatype Panic = DoneWithoutAdd | CloseOfNil | CloseOfClosed

  const ZERO := View(0, None, 0, {})

  function Full(v: View, limit: int): bool { limit > 0 && v.n >= limit }

  function Added(v: View): View {
    if v.n == 0 then v.(n := 1, idle := Some(v.made), made := v.made + 1) else v.(n := v.n + 1)
  }

  /** What closing the current channel runs into, if anything. */
  function CloseFault(v: View): Option<Panic> {
    match v.idle
    case None => Some(CloseOfNil)
    case Some(c) => if c in v.closed then Some(CloseOfClosed) else None
  }

  function Ended(v: View): View
    requires v.n > 0 && (v.n == 1 ==> CloseFault(v).None?)
  {
    if v.n == 1 then v.(n := 0, closed := v.closed + {v.idle.value}) else v.(n := v.n - 1)
  }

  /** Zero exactly when the idle channel is nil or closed; every earlier channel is closed. */
  ghost predicate Consistent(v: View) {
    && (v.n == 0 <==> v.idle.None? || v.idle.value in v.closed)
    && (v.idle.Some? ==> v.idle.value + 1 == v.made)
    && (v.idle.None? ==> v.made == 0)
    && (forall c :: c in v.closed ==> c < v.made)
    && (forall c: nat :: c < v.made && c !in v.closed ==> v.idle == Some(c))
  }

  lemma AddKeepsConsistent(v: View)
    requires Consistent(v)
    ensures Consistent(Added(v)) && Added(v).n == v.n + 1
  {
  }

  /** Done never closes a channel that is nil or already closed. */
  lemma DoneKeepsConsistent(v: View)
    requires Consistent(v) && v.n > 0
    ensures CloseFault(v).None? && Consistent(Ended(v)) && Ended(v).n == v.n - 1
  {
  }

  class Tracker {
    var draining: bool
    var n: nat
    var idle: Option<nat>
    var made: nat
    var closed: set<nat>

    function Now(): View
      reads this
    {
      View(n, idle, made, closed)
    }

    constructor ()
      ensures Now() == ZERO && !draining
    {
      draining, n, idle, made, closed := false, 0, None, 0, {};
    }

    method Add(limit: int) returns (ok: bool)
      modifies this
      ensures ok == !Full(old(Now()), limit)
      ensures Now() == (if ok then Added(old(Now())) else old(Now())) && draining == old(draining)
    {
      if limit > 0 && n >= limit {
        return false;
      }
      if n == 0 {
        idle, made := Some(made), made + 1;
      }
      n := n + 1;
      return true;
    }

    /** One Add ended: the only way it panics is being called more often than Add succeeded. */
    method Done() returns (panic: Option<Panic>)
      requires Consistent(Now())
      modifies this
      ensures panic == if old(n) == 0 then Some(DoneWithoutAdd) else None
      ensures Consistent(Now()) && draining == old(draining)
      ensures Now() == if old(n) == 0 then old(Now()) else Ended(old(Now()))
    {
      if n == 0 {
        return Some(DoneWithoutAdd);
      }
      DoneKeepsConsistent(Now());
      n := n - 1;
      if n == 0 {
        if idle.None? {
          return Some(CloseOfNil);
        }
        if idle.value in closed {
          return Some(CloseOfClosed);
        }
        closed := closed + {idle.value};
      }
      return None;
    }

    method Drain()
      modifies this`draining
      ensures draining
    {
      draining := true;
    }
  }

  // ---------- Waiting, among everything else ----------

  /** A goroutine in Wait: about to look, blocked on the channel it saw (nil blocks for good), or returned. */
  datatype Waiter = Looking | Blocked(c: Option<nat>) | Returned(drained: bool)

  /** Under the lock, n and idle together: return if nothing is in flight, else block on idle. */
  function Looked(v: View): Waiter { if v.n == 0 then Returned(true) else Blocked(v.idle) }

  predicate CanWake(v: View, w: Waiter) { w.Blocked? && w.c.Some? && w.c.value in v.closed }

  datatype State = State(tracker: View, draining: bool, waiters: map<nat, Waiter>)

  ghost predicate Init(s: State) {
    s == State(ZERO, false, map[])
  }

  ghost predicate AddStep(s: State, s': State, limit: int) {
    s' == s.(tracker := if Full(s.tracker, limit) then s.tracker else Added(s.tracker))
  }

  ghost predicate DoneStep(s: State, s': State) {
    && s.tracker.n > 0 && (s.tracker.n == 1 ==> CloseFault(s.tracker).None?)
    && s' == s.(tracker := Ended(s.tracker))
  }

  ghost predicate DrainStep(s: State, s': State) {
    s' == s.(draining := true)
  }

  ghost predicate WaitStep(s: State, s': State, w: nat) {
    w !in s.waiters && s' == s.(waiters := s.waiters[w := Looking])
  }

  ghost predicate LookStep(s: State, s': State, w: nat) {
    && w in s.waiters && s.waiters[w] == Looking
    && s' == s.(waiters := s.waiters[w := Looked(s.tracker)])
  }

  ghost predicate WakeStep(s: State, s': State, w: nat) {
    && w in s.waiters && CanWake(s.tracker, s.waiters[w])
    && s' == s.(waiters := s.waiters[w := Looking])
  }

  ghost predicate CancelStep(s: State, s': State, w: nat) {
    && w in s.waiters && s.waiters[w].Blocked?
    && s' == s.(waiters := s.waiters[w := Returned(false)])
  }

  ghost predicate Step(s: State, s': State) {
    || (exists limit :: AddStep(s, s', limit))
    || DoneStep(s, s')
    || DrainStep(s, s')
    || (exists w :: WaitStep(s, s', w) || LookStep(s, s', w) || WakeStep(s, s', w) || CancelStep(s, s', w))
  }

  ghost predicate IsRun(run: seq<State>) {
    && run != []
    && Init(run[0])
    && forall i :: 0 <= i < |run| - 1 ==> Step(run[i], run[i + 1])
  }

  ghost predicate Inv(s: State) {
    && Consistent(s.tracker)
    && forall w :: w in s.waiters && s.waiters[w].Blocked? ==>
      s.waiters[w].c.Some? && s.waiters[w].c.value < s.tracker.made
  }

  lemma {:induction false} RunKeepsInv(run: seq<State>, i: nat)
    requires IsRun(run) && i < |run|
    ensures Inv(run[i])
  {
    if i > 0 {
      RunKeepsInv(run, i - 1);
      assert Step(run[i - 1], run[i - 1 + 1]);
    }
  }

  /**
    No wakeup is lost: a waiter whose channel is open is waiting for work that is in
    flight, on the channel that work will close; once nothing is in flight every
    blocked waiter can wake.
  */
  lemma NoLostWakeup(run: seq<State>, i: nat, w: nat)
    requires IsRun(run) && i < |run|
    requires w in run[i].waiters && run[i].waiters[w].Blocked?
    ensures run[i].waiters[w].c.Some?
    ensures run[i].waiters[w].c.value !in run[i].tracker.closed ==>
      run[i].tracker.n > 0 && run[i].tracker.idle == run[i].waiters[w].c
    ensures run[i].tracker.n == 0 ==> exists s' :: WakeStep(run[i], s', w)
  {
    RunKeepsInv(run, i);
    var s := run[i];
    if s.tracker.n == 0 {
      assert WakeStep(s, s.(waiters := s.waiters[w := Looking]), w);
    }
  }

  /** The work that ends last closes a channel that was open until then, and no other is touched. */
  lemma ChannelsCloseOnce(run: seq<State>, i: nat)
    requires IsRun(run) && i < |run| - 1
    ensures run[i].tracker.closed <= run[i + 1].tracker.closed
    ensures run[i].tracker.n > 0 ==> exists s' :: DoneStep(run[i], s')
    ensures run[i].tracker.closed != run[i + 1].tracker.closed ==>
      && run[i].tracker.n == 1 && run[i].tracker.idle.Some?
      && run[i].tracker.idle.value !in run[i].tracker.closed
      && run[i + 1].tracker.closed == run[i].tracker.closed + {run[i].tracker.idle.value}
  {
    RunKeepsInv(run, i);
    assert Step(run[i], run[i + 1]);
    if run[i].tracker.n > 0 {
      DoneKeepsConsistent(run[i].tracker);
      assert DoneStep(run[i], run[i].(tracker := Ended(run[i].tracker)));
    }
  }

  /** Wait returned nil only if its own look, at some earlier instant, found nothing in flight. */
  lemma {:induction false} WaitSawZero(run: seq<State>, i: nat, w: nat) returns (j: nat)
    requires IsRun(run) && i < |run|
    requires w in run[i].waiters && run[i].waiters[w] == Returned(true)
    ensures j < i && run[j].tracker.n == 0 && w in run[j].waiters && run[j].waiters[w] == Looking
  {
    assert i > 0;
    assert Step(run[i - 1], run[i - 1 + 1]);
    if w in run[i - 1].waiters && run[i - 1].waiters[w] == Returned(true) {
      j := WaitSawZero(run, i - 1, w);
    } else {
      j := i - 1;
    }
  }
}
