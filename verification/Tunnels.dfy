/**
  Holding tunnels: internal/pipeserver/tunnels.go's hold, serveOne, tracked and
  Ready, with the drain request of server.go's ServeConn. Holders, tunnels and the
  stopping goroutine interleave freely.
*/
module Tunnels {
  /** One hold loop. Tracking is between the two writes of tracked(1), Launching between it and the goroutine that serves. */
  datatype Holder =
    | Deciding
    | Dialing
    | Tracking
    | Launching
    | Watching(tunnel: nat)
    | BackingOff
    | Parked

  /** One tunnel's goroutine: begun, in ServeConn, back from it, past tracked(-1), and past closing its channel. */
  datatype Phase = Begun | Serving | Ended | Uncounted | Over

  datatype Tunnel = Tunnel(holder: nat, phase: Phase, asked: bool)

  datatype State = State(
    holders: seq<Holder>,
    tunnels: seq<Tunnel>,
    up: int,
    everUp: bool,
    stopping: bool,
    closing: bool)

  ghost predicate Init(s: State, count: nat) {
    s == State(seq(count, _ => Deciding), [], 0, false, false, false)
  }

  // ---------- Steps ----------

  /** The loop's condition, with the two loads it reads. */
  ghost predicate DecideStep(s: State, s': State, h: nat) {
    && h < |s.holders| && s.holders[h] == Deciding
    && s' == s.(holders := s.holders[h := if s.closing || s.stopping then Parked else Dialing])
  }

  /** The dial, the ALPN check or the preface failed. */
  ghost predicate DialFailStep(s: State, s': State, h: nat) {
    && h < |s.holders| && s.holders[h] == Dialing
    && s' == s.(holders := s.holders[h := BackingOff])
  }

  /** tracked(1), first write: everUp, before up. */
  ghost predicate EverUpStep(s: State, s': State, h: nat) {
    && h < |s.holders| && s.holders[h] == Dialing
    && s' == s.(holders := s.holders[h := Tracking], everUp := true)
  }

  /** tracked(1), second write. */
  ghost predicate UpStep(s: State, s': State, h: nat) {
    && h < |s.holders| && s.holders[h] == Tracking
    && s' == s.(holders := s.holders[h := Launching], up := s.up + 1)
  }

  /** The goroutine that serves the tunnel is started. */
  ghost predicate LaunchStep(s: State, s': State, h: nat) {
    && h < |s.holders| && s.holders[h] == Launching
    && s' == s.(
      holders := s.holders[h := Watching(|s.tunnels|)],
      tunnels := s.tunnels + [Tunnel(h, Begun, false)])
  }

  /** A drain request on a tunnel closes its replaced channel, the first time. */
  ghost predicate AskStep(s: State, s': State, t: nat) {
    && t < |s.tunnels| && s.tunnels[t].phase == Serving
    && s' == s.(tunnels := s.tunnels[t := s.tunnels[t].(asked := true)])
  }

  /** A tunnel's goroutine goes on: into ServeConn, out of it, through tracked(-1), and to closing its channel. */
  ghost predicate TunnelStep(s: State, s': State, t: nat) {
    && t < |s.tunnels| && s.tunnels[t].phase != Over
    && var phase := s.tunnels[t].phase;
       s' == s.(
         tunnels := s.tunnels[t := s.tunnels[t].(phase := NextPhase(phase))],
         up := if phase == Ended then s.up - 1 else s.up)
  }

  function NextPhase(phase: Phase): Phase {
    match phase
    case Begun => Serving
    case Serving => Ended
    case Ended => Uncounted
    case Uncounted => Over
    case Over => Over
  }

  /** serveOne's select: its tunnel was asked to be replaced, or is over. */
  ghost predicate NoticeStep(s: State, s': State, h: nat) {
    && h < |s.holders| && s.holders[h].Watching? && s.holders[h].tunnel < |s.tunnels|
    && (s.tunnels[s.holders[h].tunnel].asked || s.tunnels[s.holders[h].tunnel].phase == Over)
    && s' == s.(holders := s.holders[h := BackingOff])
  }

  ghost predicate RetryStep(s: State, s': State, h: nat) {
    && h < |s.holders| && s.holders[h] == BackingOff
    && s' == s.(holders := s.holders[h := Deciding])
  }

  ghost predicate StopStep(s: State, s': State) {
    s' == s.(stopping := true) || (s.stopping && s' == s.(closing := true))
  }

  ghost predicate HolderStep(s: State, s': State, h: nat) {
    || DecideStep(s, s', h) || DialFailStep(s, s', h) || EverUpStep(s, s', h)
    || NoticeStep(s, s', h) || RetryStep(s, s', h)
  }

  ghost predicate Step(s: State, s': State) {
    || (exists h :: HolderStep(s, s', h))
    || (exists h :: UpStep(s, s', h))
    || (exists h :: LaunchStep(s, s', h))
    || (exists t :: AskStep(s, s', t))
    || (exists t :: TunnelStep(s, s', t))
    || StopStep(s, s')
  }

  ghost predicate IsRun(run: seq<State>, count: nat) {
    && run != []
    && Init(run[0], count)
    && forall i :: 0 <= i < |run| - 1 ==> Step(run[i], run[i + 1])
  }

  /** Ready's two loads, in one instant. */
  predicate Ready(s: State) { s.up > 0 || s.everUp }

  // ---------- What every step keeps ----------

  predicate Counts(t: Tunnel) { t.phase.Begun? || t.phase.Serving? || t.phase.Ended? }

  /** How many members of a list there are of a kind. */
  function Number<T>(list: seq<T>, kind: T -> bool): nat {
    if list == [] then 0
    else Number(list[..|list| - 1], kind) + (if kind(list[|list| - 1]) then 1 else 0)
  }

  lemma {:induction false} NumberAfter<T>(list: seq<T>, i: nat, x: T, kind: T -> bool)
    requires i < |list|
    ensures Number(list[i := x], kind)
         == Number(list, kind) - (if kind(list[i]) then 1 else 0) + (if kind(x) then 1 else 0)
  {
    var n := |list| - 1;
    if i == n {
      assert list[i := x][..n] == list[..n];
    } else {
      assert list[i := x][..n] == list[..n][i := x];
      NumberAfter(list[..n], i, x, kind);
    }
  }

  lemma NumberOneMore<T>(list: seq<T>, x: T, kind: T -> bool)
    ensures Number(list + [x], kind) == Number(list, kind) + (if kind(x) then 1 else 0)
  {
    assert (list + [x])[..|list|] == list;
  }

  function Counted(tunnels: seq<Tunnel>): nat { Number(tunnels, (t: Tunnel) => Counts(t)) }

  function Served(tunnels: seq<Tunnel>): nat { Number(tunnels, (t: Tunnel) => t.phase.Serving?) }

  /** Tunnels counted before ServeConn has them or after it has let them go. */
  function Between(tunnels: seq<Tunnel>): nat { Number(tunnels, (t: Tunnel) => t.phase.Begun? || t.phase.Ended?) }

  function Launches(holders: seq<Holder>): nat { Number(holders, (h: Holder) => h.Launching?) }

  lemma {:induction false} CountedIsServedAndBetween(tunnels: seq<Tunnel>)
    ensures Counted(tunnels) == Served(tunnels) + Between(tunnels)
  {
    if tunnels != [] {
      CountedIsServedAndBetween(tunnels[..|tunnels| - 1]);
    }
  }

  /** A tunnel its holder has had no reason to leave. */
  predicate Held(t: Tunnel) { !t.asked && t.phase != Over }

  ghost predicate TunnelOk(s: State, t: nat)
    requires t < |s.tunnels|
  {
    var x := s.tunnels[t];
    && x.holder < |s.holders|
    && (Held(x) ==> s.holders[x.holder] == Watching(t))
  }

  ghost predicate Inv(s: State, count: nat) {
    && |s.holders| == count
    && s.up == Counted(s.tunnels) + Launches(s.holders)
    && (forall t :: 0 <= t < |s.tunnels| ==> TunnelOk(s, t))
    && (forall h :: 0 <= h < |s.holders| && s.holders[h].Watching? ==> s.holders[h].tunnel < |s.tunnels|)
    && (s.up > 0 || s.tunnels != [] || (exists h :: 0 <= h < |s.holders| && Everup(s.holders[h])) ==> s.everUp)
    && (s.closing ==> s.stopping)
  }

  predicate Everup(h: Holder) { h.Tracking? || h.Launching? }

  lemma LaunchKeepsInv(s: State, s': State, count: nat, h: nat)
    requires Inv(s, count) && LaunchStep(s, s', h)
    ensures Inv(s', count)
  {
    NumberAfter(s.holders, h, s'.holders[h], (x: Holder) => x.Launching?);
    NumberOneMore(s.tunnels, Tunnel(h, Begun, false), (t: Tunnel) => Counts(t));
    forall t | 0 <= t < |s'.tunnels| ensures TunnelOk(s', t) {
      if t < |s.tunnels| { assert TunnelOk(s, t); }
    }
  }

  /** How many moves a holder has left once the connector is stopping. */
  function Left(h: Holder): nat {
    match h
    case Dialing => 6
    case Tracking => 5
    case Launching => 4
    case Watching(_) => 3
    case BackingOff => 2
    case Deciding => 1
    case Parked => 0
  }

  /** On its way to a tunnel. */
  predicate Rising(h: Holder) { h.Dialing? || h.Tracking? || h.Launching? }

  /** A holder's own move, with what it does to the count; while stopping it is one towards rest. */
  ghost predicate HolderMoves(s: State, s': State, h: nat) {
    && h < |s.holders| == |s'.holders|
    && s'.holders == s.holders[h := s'.holders[h]] && s'.tunnels == s.tunnels
    && s'.up == s.up + (if s'.holders[h].Launching? then 1 else 0)
    && !s.holders[h].Launching? && !s'.holders[h].Watching?
    && (s.holders[h].Watching? ==>
      s.holders[h].tunnel < |s.tunnels| && !Held(s.tunnels[s.holders[h].tunnel]))
    && s'.everUp == (s.everUp || s'.holders[h].Tracking?)
    && (s'.holders[h].Launching? ==> s.holders[h].Tracking?)
    && s'.stopping == s.stopping && s'.closing == s.closing
    && (s.stopping ==> Left(s'.holders[h]) < Left(s.holders[h]) && (Rising(s'.holders[h]) ==> Rising(s.holders[h])))
  }

  lemma StepIsHolderMove(s: State, s': State, h: nat)
    requires HolderStep(s, s', h) || UpStep(s, s', h)
    ensures HolderMoves(s, s', h)
  {
  }

  lemma HolderKeepsInv(s: State, s': State, count: nat, h: nat)
    requires Inv(s, count) && HolderMoves(s, s', h)
    ensures Inv(s', count)
  {
    NumberAfter(s.holders, h, s'.holders[h], (x: Holder) => x.Launching?);
    forall t | 0 <= t < |s'.tunnels| ensures TunnelOk(s', t) {
      assert TunnelOk(s, t);
    }
    forall g | 0 <= g < |s'.holders| && Everup(s'.holders[g]) ensures s'.everUp {
      assert g != h ==> s'.holders[g] == s.holders[g];
    }
  }

  lemma TunnelKeepsInv(s: State, s': State, count: nat, t: nat)
    requires Inv(s, count) && (AskStep(s, s', t) || TunnelStep(s, s', t))
    ensures Inv(s', count)
  {
    NumberAfter(s.tunnels, t, s'.tunnels[t], (x: Tunnel) => Counts(x));
    forall u | 0 <= u < |s'.tunnels| ensures TunnelOk(s', u) {
      assert TunnelOk(s, u);
    }
  }

  lemma StopKeepsInv(s: State, s': State, count: nat)
    requires Inv(s, count) && StopStep(s, s')
    ensures Inv(s', count)
  {
    forall t | 0 <= t < |s'.tunnels| ensures TunnelOk(s', t) {
      assert TunnelOk(s, t);
    }
  }

  lemma {:induction false} NoneOfAKind<T>(n: nat, x: T, kind: T -> bool)
    requires !kind(x)
    ensures Number(seq(n, _ => x), kind) == 0
  {
    if n > 0 {
      assert seq(n, _ => x)[..n - 1] == seq(n - 1, _ => x);
      NoneOfAKind(n - 1, x, kind);
    }
  }

  lemma {:induction false} RunKeepsInv(run: seq<State>, count: nat, i: nat)
    requires IsRun(run, count) && i < |run|
    ensures Inv(run[i], count)
  {
    if i == 0 {
      NoneOfAKind(count, Deciding, (h: Holder) => h.Launching?);
    } else {
      RunKeepsInv(run, count, i - 1);
      var s, s' := run[i - 1], run[i - 1 + 1];
      assert Step(s, s');
      if h :| HolderStep(s, s', h) || UpStep(s, s', h) {
        StepIsHolderMove(s, s', h);
        HolderKeepsInv(s, s', count, h);
      } else if h :| LaunchStep(s, s', h) {
        LaunchKeepsInv(s, s', count, h);
      } else if t :| AskStep(s, s', t) || TunnelStep(s, s', t) {
        TunnelKeepsInv(s, s', count, t);
      } else {
        StopKeepsInv(s, s', count);
      }
    }
  }

  // ---------- What the connector reports ----------

  /**
    Up is the tunnels being served and those in the two gaps around them: counted and
    not yet in ServeConn, or back from it and not yet uncounted. So it is never less
    than the tunnels served, and in no gap it is just those.
  */
  lemma UpBoundsServedTunnels(run: seq<State>, count: nat, i: nat)
    requires IsRun(run, count) && i < |run|
    ensures run[i].up == Served(run[i].tunnels) + Between(run[i].tunnels) + Launches(run[i].holders)
    ensures run[i].up >= Served(run[i].tunnels)
  {
    RunKeepsInv(run, count, i);
    CountedIsServedAndBetween(run[i].tunnels);
  }

  /** Once ready, ready for good: tunnels coming and going never make the connector unready. */
  lemma {:induction false} ReadyForGood(run: seq<State>, count: nat, i: nat, j: nat)
    requires IsRun(run, count) && i <= j < |run| && Ready(run[i])
    ensures Ready(run[j]) && run[j].everUp
    decreases j - i
  {
    RunKeepsInv(run, count, i);
    if i < j {
      ReadyForGood(run, count, i, j - 1);
      assert Step(run[j - 1], run[j - 1 + 1]);
    }
  }

  /** Ready is late by nothing: from a tunnel's first count on, the connector is ready. */
  lemma ReadyFromFirstTunnel(run: seq<State>, count: nat, i: nat)
    requires IsRun(run, count) && i < |run| && (run[i].tunnels != [] || run[i].up > 0)
    ensures Ready(run[i])
  {
    RunKeepsInv(run, count, i);
  }

  // ---------- How many tunnels ----------

  ghost function HeldTunnels(s: State): set<nat> {
    set t: nat | t < |s.tunnels| && Held(s.tunnels[t])
  }

  /** The tunnels not asked to be replaced and not over are at most one per holder. */
  lemma AtMostCountHeld(run: seq<State>, count: nat, i: nat)
    requires IsRun(run, count) && i < |run|
    ensures |HeldTunnels(run[i])| <= count
  {
    RunKeepsInv(run, count, i);
    var s := run[i];
    forall t | t in HeldTunnels(s) ensures s.tunnels[t].holder < count && s.holders[s.tunnels[t].holder] == Watching(t) {
      assert TunnelOk(s, t);
    }
    InjectionBound(HeldTunnels(s), s, count);
  }

  lemma {:induction false} InjectionBound(held: set<nat>, s: State, bound: nat)
    requires bound <= |s.holders|
    requires forall t :: t in held ==>
      t < |s.tunnels| && s.tunnels[t].holder < bound && s.holders[s.tunnels[t].holder] == Watching(t)
    ensures |held| <= bound
    decreases bound
  {
    if held != {} {
      assert bound > 0 by { var t :| t in held; }
      var h := bound - 1;
      var fewer := held - (if s.holders[h].Watching? then {s.holders[h].tunnel} else {});
      InjectionBound(fewer, s, h);
    }
  }

  // ---------- Stopping ----------

  function Rises(holders: seq<Holder>): nat { Number(holders, (h: Holder) => Rising(h)) }

  /** While stopping, a step moves at most one holder, downwards, and a tunnel comes only of one that was rising. */
  ghost predicate Winds(s: State, s': State) {
    s.stopping ==>
      && s'.stopping && |s'.holders| == |s.holders|
      && (forall h :: 0 <= h < |s.holders| ==> s'.holders[h] == s.holders[h] || Left(s'.holders[h]) < Left(s.holders[h]))
      && |s'.tunnels| + Rises(s'.holders) <= |s.tunnels| + Rises(s.holders)
  }

  lemma HolderWinds(s: State, s': State, h: nat)
    requires HolderMoves(s, s', h)
    ensures Winds(s, s')
  {
    NumberAfter(s.holders, h, s'.holders[h], (x: Holder) => Rising(x));
  }

  lemma LaunchWinds(s: State, s': State, h: nat)
    requires LaunchStep(s, s', h)
    ensures Winds(s, s')
  {
    NumberAfter(s.holders, h, s'.holders[h], (x: Holder) => Rising(x));
  }

  lemma StepWinds(s: State, s': State)
    requires Step(s, s')
    ensures Winds(s, s')
  {
    if h: nat :| HolderStep(s, s', h) || UpStep(s, s', h) {
      StepIsHolderMove(s, s', h);
      HolderWinds(s, s', h);
    } else if h: nat :| LaunchStep(s, s', h) {
      LaunchWinds(s, s', h);
    } else {
      assert s'.holders == s.holders && |s'.tunnels| == |s.tunnels|;
    }
  }

  lemma RunWinds(run: seq<State>, count: nat)
    requires IsRun(run, count)
    ensures forall k :: 0 <= k < |run| - 1 ==> Winds(run[k], run[k + 1])
  {
    forall k | 0 <= k < |run| - 1 ensures Winds(run[k], run[k + 1]) {
      StepWinds(run[k], run[k + 1]);
    }
  }

  /** How often a holder moved between two instants. */
  ghost function MovesOf(run: seq<State>, j: nat, i: nat, h: nat): nat
    requires j <= i < |run| && forall k :: j <= k <= i ==> h < |run[k].holders|
    decreases i - j
  {
    if i == j then 0
    else MovesOf(run, j, i - 1, h) + (if run[i - 1].holders[h] != run[i].holders[h] then 1 else 0)
  }

  /**
    Once stopping, a holder moves at most six times more, so that from some instant on
    every holder is at rest; and one that is dialing has dialed since before.
  */
  lemma StoppingWindsDown(run: seq<State>, count: nat, j: nat, i: nat, h: nat)
    requires IsRun(run, count) && j <= i < |run| && run[j].stopping && h < |run[j].holders|
    ensures forall k :: j <= k <= i ==> h < |run[k].holders|
    ensures MovesOf(run, j, i, h) + Left(run[i].holders[h]) <= Left(run[j].holders[h]) <= 6
    ensures run[i].holders[h] == Dialing ==> run[j].holders[h] == Dialing && MovesOf(run, j, i, h) == 0
  {
    RunWinds(run, count);
    WindsDown(run, j, i, h);
  }

  lemma {:induction false} WindsDown(run: seq<State>, j: nat, i: nat, h: nat)
    requires forall k :: 0 <= k < |run| - 1 ==> Winds(run[k], run[k + 1])
    requires j <= i < |run| && run[j].stopping && h < |run[j].holders|
    ensures run[i].stopping
    ensures forall k :: j <= k <= i ==> h < |run[k].holders|
    ensures MovesOf(run, j, i, h) + Left(run[i].holders[h]) <= Left(run[j].holders[h])
    decreases i - j
  {
    if j < i {
      WindsDown(run, j, i - 1, h);
      assert Winds(run[i - 1], run[i - 1 + 1]);
    }
  }

  /** And no more tunnels come up than there were holders then on their way to one. */
  lemma TunnelsAfterStopping(run: seq<State>, count: nat, j: nat, i: nat)
    requires IsRun(run, count) && j <= i < |run| && run[j].stopping
    ensures |run[i].tunnels| + Rises(run[i].holders) <= |run[j].tunnels| + Rises(run[j].holders)
  {
    RunWinds(run, count);
    FewerRise(run, j, i);
  }

  lemma {:induction false} FewerRise(run: seq<State>, j: nat, i: nat)
    requires forall k :: 0 <= k < |run| - 1 ==> Winds(run[k], run[k + 1])
    requires j <= i < |run| && run[j].stopping
    ensures run[i].stopping
    ensures |run[i].tunnels| + Rises(run[i].holders) <= |run[j].tunnels| + Rises(run[j].holders)
    decreases i - j
  {
    if j < i {
      FewerRise(run, j, i - 1);
      assert Winds(run[i - 1], run[i - 1 + 1]);
    }
  }
}
