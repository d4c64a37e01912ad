/**
  What a run of calls means for one capability, from the calls alone: the spells its
  tries fall into, and whether any reading went past its expiry between two of them.
  OpenBound ties it to what the limiter does.
*/
module OpenHistory {
  import opened Wrappers

  /** What one call is to a jti: whether it is left to the open limit, whether for this jti, and with what expiry. */
  datatype Event = Event(now: int, reaches: bool, tries: bool, expires: int)

  ghost function TriesIn(events: seq<Event>): nat
    decreases |events|
  {
    if events == [] then 0
    else TriesIn(events[..|events| - 1]) + (if events[|events| - 1].tries then 1 else 0)
  }

  /**
    What a run has meant for one jti, from its calls alone: never tried; tried, and no
    reading since past the first try's expiry; or tried before and after such a reading.
  */
  datatype History = Untried | Held(expires: int, tries: nat) | Dropped(before: nat, after: nat)

  ghost function After(h: History, e: Event): History {
    var one := if e.tries then 1 else 0;
    match h
    case Untried => if e.tries then Held(e.expires, 1) else Untried
    case Held(expires, n) => if e.reaches && expires < e.now then Dropped(n, one) else Held(expires, n + one)
    case Dropped(n, m) => Dropped(n, m + one)
  }

  ghost function HistoryOf(events: seq<Event>): History
    decreases |events|
  {
    if events == [] then Untried else After(HistoryOf(events[..|events| - 1]), events[|events| - 1])
  }

  ghost predicate FirstTry(events: seq<Event>, f: int) {
    0 <= f < |events| && events[f].tries && forall i :: 0 <= i < f ==> !events[i].tries
  }

  /** f is the first try, and at j, later, some call reached the limiter with a reading past f's expiry. */
  ghost predicate DroppedAt(events: seq<Event>, f: int, j: int) {
    FirstTry(events, f) && f < j < |events| && events[j].reaches && events[f].expires < events[j].now
  }

  /** A try that comes with, or after, a reading past the first try's expiry. */
  ghost predicate TriedAgain(events: seq<Event>) {
    exists f, j, k :: DroppedAt(events, f, j) && j <= k < |events| && events[k].tries
  }

  /** A history says of its run what it says it does. */
  ghost predicate Tells(h: History, events: seq<Event>) {
    match h
    case Untried => forall i :: 0 <= i < |events| ==> !events[i].tries
    case Held(e, _) =>
      && (exists f :: FirstTry(events, f) && events[f].expires == e)
      && (forall f, j :: !DroppedAt(events, f, j))
    case Dropped(_, m) =>
      && (exists f, j :: DroppedAt(events, f, j))
      && (m > 0 <==> TriedAgain(events))
  }

  lemma {:induction false} HistoryTells(events: seq<Event>)
    ensures Tells(HistoryOf(events), events)
    decreases |events|
  {
    if events != [] {
      var n := |events| - 1;
      HistoryTells(events[..n]);
      OneEventMore(HistoryOf(events[..n]), events[..n], events[n]);
      assert events[..n] + [events[n]] == events;
    }
  }

  lemma OneEventMore(h: History, before: seq<Event>, e: Event)
    requires Tells(h, before)
    ensures Tells(After(h, e), before + [e])
  {
    match h
    case Untried => UntriedThen(before, e);
    case Held(expires, n) => HeldThen(expires, n, before, e);
    case Dropped(n, m) => DroppedThen(n, m, before, e);
  }

  lemma SameFirst(before: seq<Event>, e: Event, f: int)
    ensures f < |before| ==> (FirstTry(before + [e], f) <==> FirstTry(before, f))
  {
    var events := before + [e];
    assert forall i :: 0 <= i < |before| ==> events[i] == before[i];
  }

  lemma UntriedThen(before: seq<Event>, e: Event)
    requires Tells(Untried, before)
    ensures Tells(After(Untried, e), before + [e])
  {
    var events := before + [e];
    if e.tries {
      assert FirstTry(events, |before|);
    }
  }

  lemma HeldThen(expires: int, n: nat, before: seq<Event>, e: Event)
    requires Tells(Held(expires, n), before)
    ensures Tells(After(Held(expires, n), e), before + [e])
  {
    var events, last := before + [e], |before|;
    var f :| FirstTry(before, f) && before[f].expires == expires;
    SameFirst(before, e, f);
    forall g, j | DroppedAt(events, g, j) ensures g == f && j == last {
      SameFirst(before, e, g);
      assert j < last ==> DroppedAt(before, g, j);
    }
    if e.reaches && expires < e.now {
      assert DroppedAt(events, f, last);
      assert e.tries ==> events[last].tries;
    }
  }

  lemma DroppedThen(n: nat, m: nat, before: seq<Event>, e: Event)
    requires Tells(Dropped(n, m), before)
    ensures Tells(After(Dropped(n, m), e), before + [e])
  {
    var events, last := before + [e], |before|;
    var f, j :| DroppedAt(before, f, j);
    SameFirst(before, e, f);
    assert DroppedAt(events, f, j);
    if g, l, k :| DroppedAt(before, g, l) && l <= k < last && before[k].tries {
      SameFirst(before, e, g);
      assert DroppedAt(events, g, l) && events[k].tries;
    }
    if g, l, k :| DroppedAt(events, g, l) && l <= k < last && events[k].tries {
      SameFirst(before, e, g);
      assert DroppedAt(before, g, l) && before[k].tries;
    }
    if e.tries {
      assert events[last].tries;
    }
  }

  lemma OnlyDroppedIsTriedAgain(h: History, events: seq<Event>)
    requires Tells(h, events)
    ensures TriedAgain(events) <==> h.Dropped? && h.after > 0
  {
  }

  // ---------- Spells ----------

  function AtMost4(n: nat): nat { if n <= 4 then n else 4 }

  /** The tries since the capability was last forgotten: the first one's expiry, and how many. */
  datatype Spell = Spell(expires: int, tries: nat)

  /** The opens of the spells that are over, four at most in each, and the spell there is. */
  datatype Spells = Spells(opens: nat, last: Option<Spell>)

  /** A reading past a spell's expiry ends it; a try goes into the spell there is, or begins one. */
  function NextSpells(s: Spells, e: Event): Spells {
    var ended :=
      if s.last.Some? && e.reaches && s.last.value.expires < e.now then Spells(s.opens + AtMost4(s.last.value.tries), None)
      else s;
    if !e.tries then ended
    else match ended.last
      case None => ended.(last := Some(Spell(e.expires, 1)))
      case Some(spell) => ended.(last := Some(spell.(tries := spell.tries + 1)))
  }

  ghost function SpellsOf(events: seq<Event>): Spells
    decreases |events|
  {
    if events == [] then Spells(0, None) else NextSpells(SpellsOf(events[..|events| - 1]), events[|events| - 1])
  }

  /** Four opens a spell, at most. */
  function OpensOf(s: Spells): nat { s.opens + (if s.last.None? then 0 else AtMost4(s.last.value.tries)) }

  ghost predicate Matches(h: History, s: Spells, tries: nat) {
    match h
    case Untried => s == Spells(0, None) && tries == 0
    case Held(e, n) => n > 0 && tries == n && s == Spells(0, Some(Spell(e, n)))
    case Dropped(n, m) =>
      && n > 0 && tries == n + m
      && AtMost4(n) + AtMost4(m) <= OpensOf(s) <= tries
      && (m == 0 ==> OpensOf(s) == AtMost4(n))
      && (s.last.Some? ==> s.last.value.tries <= m)
  }

  lemma NextMatches(h: History, s: Spells, tries: nat, e: Event)
    requires Matches(h, s, tries) && (e.tries ==> e.reaches)
    ensures Matches(After(h, e), NextSpells(s, e), tries + (if e.tries then 1 else 0))
  {
  }

  ghost predicate TriesReach(events: seq<Event>) {
    forall i :: 0 <= i < |events| && events[i].tries ==> events[i].reaches
  }

  lemma {:induction false} HistoryMatchesSpells(events: seq<Event>)
    requires TriesReach(events)
    ensures Matches(HistoryOf(events), SpellsOf(events), TriesIn(events))
    decreases |events|
  {
    if events != [] {
      var n := |events| - 1;
      HistoryMatchesSpells(events[..n]);
      NextMatches(HistoryOf(events[..n]), SpellsOf(events[..n]), TriesIn(events[..n]), events[n]);
    }
  }

  /** The spells give more than four opens exactly when there are more than four tries, one with or after a reading past the first's expiry. */
  lemma MoreThanOneSpell(events: seq<Event>)
    requires TriesReach(events)
    ensures OpensOf(SpellsOf(events)) > 4 <==> TriesIn(events) > 4 && TriedAgain(events)
  {
    HistoryMatchesSpells(events);
    HistoryTells(events);
    OnlyDroppedIsTriedAgain(HistoryOf(events), events);
  }
}
