/**
  Exactly when a capability opens more than four pipes: the limiter of
  connector-lib/capability/capability.go against the history of its calls, over
  every run, with nothing assumed of the clock or of the capabilities.
*/
module OpenBound {
  import opened Wrappers
  import opened OpenLimiter
  import opened OpenHistory

  ghost function EventOf(cfg: Config, call: Call, jti: string): Event {
    var reaches := Refusal(cfg, call).None?;
    var tries := reaches && Names(call, jti);
    Event(call.now, reaches, tries, if tries then Expiry(call.claims.value) else 0)
  }

  ghost function Events(cfg: Config, calls: seq<Call>, jti: string): (r: seq<Event>)
    ensures |r| == |calls|
    ensures forall i :: 0 <= i < |calls| ==> r[i] == EventOf(cfg, calls[i], jti)
  {
    seq(|calls|, i requires 0 <= i < |calls| => EventOf(cfg, calls[i], jti))
  }

  /** What the limiter holds for a jti with these spells, and how often it has accepted it. */
  ghost predicate Explains(s: Spells, o: Opens, jti: string, accepts: nat) {
    && accepts == OpensOf(s)
    && match s.last
       case None => jti !in o.counts && jti !in o.expiries
       case Some(spell) =>
         && spell.tries > 0
         && jti in o.counts && o.counts[jti] == AtMost4(spell.tries)
         && jti in o.expiries && o.expiries[jti] == spell.expires
  }

  lemma TakeExplains(o: Opens, jti: string, expires: int, now: int, s: Spells, accepts: nat)
    requires o.Valid() && Explains(s, o, jti, accepts)
    ensures
      var (o', ok) := Take(o, jti, expires, now);
      Explains(NextSpells(s, Event(now, true, true, expires)), o', jti, accepts + (if ok then 1 else 0))
  {
  }

  lemma OtherTakeExplains(o: Opens, other: string, expires: int, now: int, jti: string, s: Spells, accepts: nat)
    requires o.Valid() && other != jti && Explains(s, o, jti, accepts)
    ensures Explains(NextSpells(s, Event(now, true, false, 0)), Take(o, other, expires, now).0, jti, accepts)
  {
  }

  lemma VerifyExplains(cfg: Config, o: Opens, call: Call, jti: string, s: Spells, accepts: nat)
    requires o.Valid() && Explains(s, o, jti, accepts)
    ensures
      var (o', refused) := VerifyCall(cfg, o, call);
      Explains(NextSpells(s, EventOf(cfg, call, jti)), o', jti, accepts + (if refused == None && Names(call, jti) then 1 else 0))
  {
    if Refusal(cfg, call).None? {
      var c := call.claims.value;
      if c.jti == jti {
        TakeExplains(o, jti, Expiry(c), call.now, s, accepts);
      } else {
        OtherTakeExplains(o, c.jti, Expiry(c), call.now, jti, s, accepts);
      }
    }
  }

  /** After every run the limiter holds for a jti exactly its last spell, and has accepted it four times at most in each. */
  lemma {:induction false} RunExplains(cfg: Config, calls: seq<Call>, jti: string)
    ensures Explains(SpellsOf(Events(cfg, calls, jti)), Run(cfg, calls), jti, Accepts(cfg, calls, jti))
    decreases |calls|
  {
    if calls != [] {
      var n := |calls| - 1;
      var before := calls[..n];
      RunExplains(cfg, before, jti);
      RunIsValid(cfg, before);
      assert Events(cfg, calls, jti)[..n] == Events(cfg, before, jti);
      VerifyExplains(cfg, Run(cfg, before), calls[n], jti, SpellsOf(Events(cfg, before, jti)), Accepts(cfg, before, jti));
    }
  }

  /** How often a jti is accepted, exactly: four times at most in each of its spells. */
  lemma AcceptsBySpells(cfg: Config, calls: seq<Call>, jti: string)
    ensures Accepts(cfg, calls, jti) == OpensOf(SpellsOf(Events(cfg, calls, jti)))
  {
    RunExplains(cfg, calls, jti);
  }

  /**
    The bound of four, exactly: a jti is accepted more than four times just when more
    than four calls for it reach the limiter and one of them does so with, or after, a
    reading past the first's expiry.
  */
  lemma MoreThanFourOpens(cfg: Config, calls: seq<Call>, jti: string)
    ensures Accepts(cfg, calls, jti) > MAX_OPENS <==>
      TriesIn(Events(cfg, calls, jti)) > MAX_OPENS && TriedAgain(Events(cfg, calls, jti))
  {
    AcceptsBySpells(cfg, calls, jti);
    MoreThanOneSpell(Events(cfg, calls, jti));
  }
}
