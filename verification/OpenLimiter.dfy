/**
  The open limiter of connector-lib/capability/capability.go: a binary min-heap
  of expiries and a map of counts, pruned lazily, against the plain map of
  unexpired capabilities it stands for; and what it guarantees over whole runs.

  Times are nanoseconds. A token's signature and structure are checked
  elsewhere: a call carries the claims they yielded, if any.
*/
module OpenLimiter {
  import opened Wrappers

  const SECOND := 1_000_000_000
  const MAX_LIFETIME := 300
  const MAX_CLOCK_SKEW := 30 * SECOND
  const MAX_OPENS := 4

  datatype Seen = Seen(jti: string, expires: int)

  // ---------- What the limiter stands for ----------

  /** The capabilities opened and not yet forgotten: how often, and until when. */
  datatype Opens = Opens(counts: map<string, nat>, expiries: map<string, int>)
  {
    ghost predicate Valid() {
      && counts.Keys == expiries.Keys
      && forall jti :: jti in counts ==> 1 <= counts[jti] <= MAX_OPENS
    }

    function Count(jti: string): nat { if jti in counts then counts[jti] else 0 }
  }

  ghost function Unexpired(o: Opens, now: int): Opens {
    Opens(
      map jti | jti in o.counts && jti in o.expiries && now <= o.expiries[jti] :: o.counts[jti],
      map jti | jti in o.expiries && now <= o.expiries[jti] :: o.expiries[jti])
  }

  ghost function Opened(o: Opens, jti: string, expires: int): Opens {
    Opens(
      o.counts[jti := o.Count(jti) + 1],
      if o.Count(jti) == 0 then o.expiries[jti := expires] else o.expiries)
  }

  /** Forget exactly what has expired at now, then count one more open unless four are counted. */
  ghost function Take(o: Opens, jti: string, expires: int, now: int): (Opens, bool) {
    var live := Unexpired(o, now);
    if live.Count(jti) >= MAX_OPENS then (live, false) else (Opened(live, jti, expires), true)
  }

  ghost function Entries(expiries: map<string, int>): set<Seen> {
    set jti | jti in expiries :: Seen(jti, expiries[jti])
  }

  // ---------- The heap, on sequences ----------

  ghost predicate Ordered(h: seq<Seen>, j: int)
    requires 1 <= j < |h|
  {
    h[(j - 1) / 2].expires <= h[j].expires
  }

  ghost predicate IsHeap(h: seq<Seen>) {
    forall j :: 1 <= j < |h| ==> Ordered(h, j)
  }

  lemma {:induction false} RootIsEarliest(h: seq<Seen>, j: nat)
    requires IsHeap(h) && j < |h|
    ensures h[0].expires <= h[j].expires
    decreases j
  {
    if j > 0 {
      assert Ordered(h, j);
      RootIsEarliest(h, (j - 1) / 2);
    }
  }

  ghost function Swapped(h: seq<Seen>, i: nat, j: nat): (r: seq<Seen>)
    requires i < |h| && j < |h|
    ensures multiset(r) == multiset(h)
  {
    h[i := h[j]][j := h[i]]
  }

  /** No child of k is earlier than k's parent. */
  ghost predicate Spans(h: seq<Seen>, k: nat, i: nat)
    requires k < |h| && i < |h|
  {
    k >= 1 && (i - 1) / 2 == k ==> h[(k - 1) / 2].expires <= h[i].expires
  }

  /** A heap but for k, which may be earlier than its parent. */
  ghost predicate HeapButAbove(h: seq<Seen>, k: nat)
    requires k < |h|
  {
    && (forall i :: 1 <= i < |h| && i != k ==> Ordered(h, i))
    && (forall i :: 1 <= i < |h| ==> Spans(h, k, i))
  }

  /** A heap but for k, which may be later than its children. */
  ghost predicate HeapButBelow(h: seq<Seen>, k: nat)
    requires k < |h|
  {
    && (forall i :: 1 <= i < |h| && (i - 1) / 2 != k ==> Ordered(h, i))
    && (forall i :: 1 <= i < |h| ==> Spans(h, k, i))
  }

  lemma StepUp(h: seq<Seen>, k: nat)
    requires 0 < k < |h| && HeapButAbove(h, k) && !Ordered(h, k)
    ensures HeapButAbove(Swapped(h, (k - 1) / 2, k), (k - 1) / 2)
  {
    var p := (k - 1) / 2;
    var s := Swapped(h, p, k);
    forall i | 1 <= i < |h| ensures i != p ==> Ordered(s, i) {
      if i != k { assert Ordered(h, i); }
      assert Spans(h, k, i);
    }
    forall i | 1 <= i < |h| ensures Spans(s, p, i) {
      if i != k { assert Ordered(h, i); }
      if p > 0 { assert Ordered(h, p); }
    }
  }

  lemma StepDown(h: seq<Seen>, k: nat, c: nat)
    requires k < |h| && HeapButBelow(h, k)
    requires 0 < c < |h| && (c - 1) / 2 == k && !Ordered(h, c)
    requires forall i :: 1 <= i < |h| && (i - 1) / 2 == k ==> h[c].expires <= h[i].expires
    ensures HeapButBelow(Swapped(h, k, c), c)
  {
    var s := Swapped(h, k, c);
    forall i | 1 <= i < |h| ensures (i - 1) / 2 != c ==> Ordered(s, i) {
      if (i - 1) / 2 != k { assert Ordered(h, i); }
      assert Spans(h, k, c);
    }
    forall i | 1 <= i < |h| ensures Spans(s, c, i) {
      if (i - 1) / 2 != k { assert Ordered(h, i); }
    }
  }

  /** s is h with its root last, and a heap of the others before it but for the new root. */
  ghost predicate RootGone(h: seq<Seen>, s: seq<Seen>) {
    && |s| == |h| > 0
    && s[|h| - 1] == h[0]
    && multiset(s[..|h| - 1]) == multiset(h) - multiset{h[0]}
    && (|h| > 1 ==> HeapButBelow(s[..|h| - 1], 0))
  }

  /** The last entry in the root's place. */
  lemma LastToRoot(h: seq<Seen>)
    requires h != [] && IsHeap(h)
    ensures RootGone(h, Swapped(h, 0, |h| - 1))
  {
    var n, s := |h| - 1, Swapped(h, 0, |h| - 1);
    var rest := s[..n];
    assert s == rest + [h[0]];
    forall j | 1 <= j < n && (j - 1) / 2 != 0 ensures Ordered(rest, j) {
      assert Ordered(h, j);
    }
  }

  // ---------- The heap, in its array ----------

  method Swap(a: array<Seen>, n: nat, i: nat, j: nat)
    requires i < n && j < n && n <= a.Length
    modifies a
    ensures a[..n] == Swapped(old(a[..n]), i, j) && a[n..] == old(a[n..])
  {
    a[i], a[j] := a[j], a[i];
  }

  /** container/heap's up from the last entry, which alone may be earlier than its parent. */
  method SiftUp(a: array<Seen>, n: nat)
    requires 0 < n <= a.Length && HeapButAbove(a[..n], n - 1)
    modifies a
    ensures IsHeap(a[..n]) && multiset(a[..n]) == old(multiset(a[..n])) && a[n..] == old(a[n..])
  {
    var j := n - 1;
    while true
      invariant j < n && HeapButAbove(a[..n], j)
      invariant multiset(a[..n]) == old(multiset(a[..n])) && a[n..] == old(a[n..])
      decreases j
    {
      var parent := if j == 0 then 0 else (j - 1) / 2;
      if parent == j || !(a[j].expires < a[parent].expires) {
        break;
      }
      StepUp(a[..n], j);
      Swap(a, n, parent, j);
      j := parent;
    }
    assert j > 0 ==> Ordered(a[..n], j);
  }

  /** container/heap's down from the root, which alone may be later than its children. */
  method SiftDown(a: array<Seen>, n: nat)
    requires n <= a.Length && (n > 0 ==> HeapButBelow(a[..n], 0))
    modifies a
    ensures IsHeap(a[..n]) && multiset(a[..n]) == old(multiset(a[..n])) && a[n..] == old(a[n..])
  {
    var i := 0;
    while true
      invariant n > 0 ==> i < n && HeapButBelow(a[..n], i)
      invariant multiset(a[..n]) == old(multiset(a[..n])) && a[n..] == old(a[n..])
      decreases n - i
    {
      var child := 2 * i + 1;
      if child >= n {
        break;
      }
      if child + 1 < n && a[child + 1].expires < a[child].expires {
        child := child + 1;
      }
      if !(a[child].expires < a[i].expires) {
        assert forall j :: 1 <= j < n && (j - 1) / 2 == i ==> Ordered(a[..n], j);
        break;
      }
      StepDown(a[..n], i, child);
      Swap(a, n, i, child);
      i := child;
    }
  }

  // ---------- Claims ----------

  datatype Claims = Claims(
    issuer: string, audience: string, subject: string, organization: string, integration: string,
    connector: string, consumer: string, session: string, host: string, port: nat, jti: string,
    issuedAt: int, expiresAt: int)

  const AUDIENCE := "traversal-raw-tunnel"
  const ISSUER_PREFIX := "traversal-raw-tunnel/"

  predicate Named(s: string) { 0 < |s| <= 256 }

  predicate ValidClaims(c: Claims, canonical: string -> bool) {
    && Named(c.issuer) && Named(c.audience) && Named(c.subject) && Named(c.organization) && Named(c.integration)
    && Named(c.connector) && Named(c.consumer) && Named(c.session) && Named(c.jti)
    && ISSUER_PREFIX <= c.issuer && c.audience == AUDIENCE
    && canonical(c.host) && c.port != 0
    && 0 < c.issuedAt < c.expiresAt && c.expiresAt - c.issuedAt <= MAX_LIFETIME
  }

  datatype Reason = InvalidCapability | WrongConnector | WrongDestination | Exhausted

  /** One call of Verify: the claims a well-formed, well-signed token carried, the issuer they must carry, and the pipe asked for. */
  datatype Call = Call(now: int, claims: Option<Claims>, mustIssue: string, connector: string, host: string, port: nat)

  datatype Config = Config(issuer: string, subject: string, canonical: string -> bool)

  function Expiry(c: Claims): int { c.expiresAt * SECOND + MAX_CLOCK_SKEW }

  /** Verify's checks in order; None is a capability left to the open limit. */
  function Refusal(cfg: Config, call: Call): Option<Reason> {
    match call.claims
    case None => Some(InvalidCapability)
    case Some(c) =>
      if !ValidClaims(c, cfg.canonical) then Some(InvalidCapability)
      else if c.issuer != call.mustIssue || (cfg.issuer != "" && c.issuer != cfg.issuer)
        || c.audience != AUDIENCE || c.subject != cfg.subject then Some(InvalidCapability)
      else if call.now + MAX_CLOCK_SKEW < c.issuedAt * SECOND
        || !(call.now - MAX_CLOCK_SKEW < c.expiresAt * SECOND) then Some(InvalidCapability)
      else if c.connector != call.connector then Some(WrongConnector)
      else if c.host != call.host || c.port != call.port then Some(WrongDestination)
      else None
  }

  /** valid: every claim there and not too long, then the rest of them in order. */
  method CheckClaims(c: Claims, canonical: string -> bool) returns (ok: bool)
    ensures ok == ValidClaims(c, canonical)
  {
    var names := [c.issuer, c.audience, c.subject, c.organization, c.integration, c.connector, c.consumer, c.session, c.jti];
    for i := 0 to |names|
      invariant forall j :: 0 <= j < i ==> Named(names[j])
    {
      if names[i] == "" || |names[i]| > 256 {
        return false;
      }
    }
    assert forall s :: s in names ==> Named(s);
    if !(ISSUER_PREFIX <= c.issuer) || c.audience != AUDIENCE {
      return false;
    }
    if !canonical(c.host) || c.port == 0 {
      return false;
    }
    return !(c.issuedAt <= 0 || c.expiresAt <= c.issuedAt || c.expiresAt - c.issuedAt > MAX_LIFETIME);
  }

  /** Verify's checks, before the limit. */
  method CheckCall(cfg: Config, call: Call) returns (refused: Option<Reason>)
    ensures refused == Refusal(cfg, call)
  {
    if call.claims.None? {
      return Some(InvalidCapability);
    }
    var c := call.claims.value;
    var valid := CheckClaims(c, cfg.canonical);
    if !valid {
      return Some(InvalidCapability);
    }
    if c.issuer != call.mustIssue || (cfg.issuer != "" && c.issuer != cfg.issuer)
      || c.audience != AUDIENCE || c.subject != cfg.subject {
      return Some(InvalidCapability);
    } else if call.now + MAX_CLOCK_SKEW < c.issuedAt * SECOND
      || !(call.now - MAX_CLOCK_SKEW < c.expiresAt * SECOND) {
      return Some(InvalidCapability);
    } else if c.connector != call.connector {
      return Some(WrongConnector);
    } else if c.host != call.host || c.port != call.port {
      return Some(WrongDestination);
    }
    return None;
  }

  // ---------- The verifier ----------

  class Verifier {
    const cfg: Config
    var opens: map<string, nat>
    var expiry: array<Seen>
    var size: nat
    ghost var expiries: map<string, int>

    ghost predicate Valid()
      reads this, expiry
    {
      HeapValid() && View().Valid()
    }

    /** The array is a heap of exactly the entries, each once. */
    ghost predicate HeapValid()
      reads this`expiry, this`size, this`expiries, expiry
    {
      && size <= expiry.Length
      && IsHeap(expiry[..size])
      && multiset(expiry[..size]) == multiset(Entries(expiries))
    }

    ghost function View(): Opens
      reads this
    {
      Opens(opens, expiries)
    }

    constructor (cfg: Config)
      ensures Valid() && fresh(expiry) && this.cfg == cfg && View() == Opens(map[], map[])
    {
      this.cfg := cfg;
      opens, expiries, size := map[], map[], 0;
      expiry := new Seen[0];
      new;
      assert expiry[..0] == [] && Entries(map[]) == {};
    }

    /** heap.Push: append, growing the array when it is full, and sift up. */
    method Push(s: Seen)
      requires size <= expiry.Length && IsHeap(expiry[..size])
      modifies this`expiry, this`size, expiry
      ensures size == old(size) + 1 && size <= expiry.Length && IsHeap(expiry[..size])
      ensures multiset(expiry[..size]) == old(multiset(expiry[..size])) + multiset{s}
      ensures expiry == old(expiry) || fresh(expiry)
    {
      ghost var before := expiry[..size];
      if size == expiry.Length {
        var bigger := new Seen[2 * size + 1](_ => s);
        forall i | 0 <= i < size { bigger[i] := expiry[i]; }
        expiry := bigger;
      }
      expiry[size] := s;
      size := size + 1;
      assert expiry[..size] == before + [s];
      forall j | 1 <= j < size - 1 ensures Ordered(expiry[..size], j) {
        assert Ordered(before, j);
      }
      SiftUp(expiry, size);
    }

    /** heap.Pop's swap. */
    method RootToEnd()
      requires 0 < size <= expiry.Length && IsHeap(expiry[..size])
      modifies expiry
      ensures RootGone(old(expiry[..size]), expiry[..size])
    {
      LastToRoot(expiry[..size]);
      Swap(expiry, size, 0, size - 1);
    }

    /** heap.Pop: swap the root last, sift the new root down, and cut the last entry off. */
    method Pop() returns (s: Seen)
      requires 0 < size <= expiry.Length && IsHeap(expiry[..size])
      modifies this`size, expiry
      ensures size == old(size) - 1 && size <= expiry.Length && IsHeap(expiry[..size])
      ensures s == old(expiry[0])
      ensures multiset(expiry[..size]) == old(multiset(expiry[..size])) - multiset{s}
    {
      RootToEnd();
      ghost var all := expiry[..size];
      size := size - 1;
      assert expiry[..size] == all[..size] && expiry[size] == all[size];
      ghost var tail := expiry[size..];
      SiftDown(expiry, size);
      assert expiry[size] == tail[0];
      s := expiry[size];
    }

    /** Pruning stops at the root, yet forgets exactly what has expired. */
    method Prune(now: int)
      requires Valid()
      modifies this`opens, this`size, this`expiries, expiry
      ensures Valid() && View() == Unexpired(old(View()), now)
    {
      ghost var o := View();
      while size > 0 && expiry[0].expires < now
        invariant Valid() && PartlyPruned(o, View(), now)
        decreases size
      {
        ForgetRoot();
      }
      NothingExpiredIsLeft(now);
      assert expiries == Unexpired(o, now).expiries;
      assert opens == Unexpired(o, now).counts;
    }

    method ForgetRoot()
      requires Valid() && size > 0
      modifies this`opens, this`size, this`expiries, expiry
      ensures Valid() && size == old(size) - 1
      ensures
        var jti := old(expiry[0].jti);
        && jti in old(expiries) && old(expiries)[jti] == old(expiry[0].expires)
        && opens == old(opens) - {jti} && expiries == old(expiries) - {jti}
    {
      RootIsAnEntry();
      var s := Pop();
      RemoveEntry(expiries, s);
      opens := opens - {s.jti};
      expiries := expiries - {s.jti};
    }

    lemma RootIsAnEntry()
      requires Valid() && size > 0
      ensures expiry[0].jti in expiries && expiries[expiry[0].jti] == expiry[0].expires
    {
      assert expiry[0] in multiset(expiry[..size]);
      assert expiry[0] in Entries(expiries);
    }

    lemma NothingExpiredIsLeft(now: int)
      requires Valid() && (size > 0 ==> now <= expiry[0].expires)
      ensures forall jti :: jti in expiries ==> now <= expiries[jti]
    {
      forall jti | jti in expiries ensures now <= expiries[jti] {
        var s := Seen(jti, expiries[jti]);
        assert s in Entries(expiries);
        assert s in multiset(expiry[..size]);
        var j :| 0 <= j < size && expiry[..size][j] == s;
        RootIsEarliest(expiry[..size], j);
      }
    }

    /** A first open is remembered with its expiry. */
    method Remember(jti: string, expires: int)
      requires HeapValid() && jti !in expiries
      modifies this`expiry, this`size, this`expiries, expiry
      ensures HeapValid() && (expiry == old(expiry) || fresh(expiry))
      ensures expiries == old(expiries)[jti := expires]
    {
      AddEntry(expiries, Seen(jti, expires));
      Push(Seen(jti, expires));
      expiries := expiries[jti := expires];
    }

    /** One more open is counted, and remembered if it is the first. */
    method CountOpen(jti: string, expires: int, count: nat)
      requires Valid() && count == View().Count(jti) < MAX_OPENS
      modifies this`opens, this`expiry, this`size, this`expiries, expiry
      ensures Valid() && (expiry == old(expiry) || fresh(expiry))
      ensures View() == Opened(old(View()), jti, expires)
    {
      OpenedIsValid(View(), jti, expires);
      if count == 0 {
        Remember(jti, expires);
      }
      opens := opens[jti := count + 1];
    }

    method TakeOpen(jti: string, expires: int, now: int) returns (ok: bool)
      requires Valid()
      modifies this`opens, this`expiry, this`size, this`expiries, expiry
      ensures Valid() && (expiry == old(expiry) || fresh(expiry))
      ensures (View(), ok) == Take(old(View()), jti, expires, now)
    {
      Prune(now);
      var count := if jti in opens then opens[jti] else 0;
      if count >= MAX_OPENS {
        return false;
      }
      CountOpen(jti, expires, count);
      return true;
    }

    method Verify(call: Call) returns (refused: Option<Reason>)
      requires Valid()
      modifies this`opens, this`expiry, this`size, this`expiries, expiry
      ensures Valid() && (expiry == old(expiry) || fresh(expiry))
      ensures (View(), refused) == VerifyCall(cfg, old(View()), call)
    {
      refused := CheckCall(cfg, call);
      if refused.Some? {
        return;
      }
      var c := call.claims.value;
      var ok := TakeOpen(c.jti, c.expiresAt * SECOND + MAX_CLOCK_SKEW, call.now);
      return if ok then None else Some(Exhausted);
    }
  }

  lemma OpenedIsValid(o: Opens, jti: string, expires: int)
    requires o.Valid() && o.Count(jti) < MAX_OPENS
    ensures Opened(o, jti, expires).Valid()
  {
  }

  /** Only expired entries are gone, and the rest are as they were. */
  ghost predicate PartlyPruned(o: Opens, v: Opens, now: int) {
    && (forall jti :: jti in v.expiries ==> jti in o.expiries && v.expiries[jti] == o.expiries[jti])
    && (forall jti :: jti in v.counts ==> jti in o.counts && v.counts[jti] == o.counts[jti])
    && (forall jti :: jti in o.expiries && jti !in v.expiries ==> o.expiries[jti] < now)
  }

  lemma EntryOf(expiries: map<string, int>, s: Seen)
    ensures s in Entries(expiries) <==> s.jti in expiries && expiries[s.jti] == s.expires
  {
    if s.jti in expiries && expiries[s.jti] == s.expires {
      assert s == Seen(s.jti, expiries[s.jti]);
    }
  }

  lemma RemoveEntry(expiries: map<string, int>, s: Seen)
    requires s.jti in expiries && expiries[s.jti] == s.expires
    ensures multiset(Entries(expiries - {s.jti})) == multiset(Entries(expiries)) - multiset{s}
  {
    var fewer := expiries - {s.jti};
    forall t ensures t in Entries(fewer) <==> t in Entries(expiries) && t != s {
      EntryOf(fewer, t);
      EntryOf(expiries, t);
    }
    assert Entries(fewer) == Entries(expiries) - {s};
    EntryOf(expiries, s);
  }

  lemma AddEntry(expiries: map<string, int>, s: Seen)
    requires s.jti !in expiries
    ensures multiset(Entries(expiries[s.jti := s.expires])) == multiset(Entries(expiries)) + multiset{s}
  {
    var more := expiries[s.jti := s.expires];
    forall t ensures t in Entries(more) <==> t in Entries(expiries) || t == s {
      EntryOf(more, t);
      EntryOf(expiries, t);
    }
    assert Entries(more) == Entries(expiries) + {s};
    EntryOf(expiries, s);
  }

  // ---------- Runs ----------

  ghost function VerifyCall(cfg: Config, o: Opens, call: Call): (Opens, Option<Reason>) {
    match Refusal(cfg, call)
    case Some(r) => (o, Some(r))
    case None =>
      var c := call.claims.value;
      var (o', ok) := Take(o, c.jti, Expiry(c), call.now);
      (o', if ok then None else Some(Exhausted))
  }

  ghost function Run(cfg: Config, calls: seq<Call>): Opens
    decreases |calls|
  {
    if calls == [] then Opens(map[], map[])
    else VerifyCall(cfg, Run(cfg, calls[..|calls| - 1]), calls[|calls| - 1]).0
  }

  ghost predicate Accepted(cfg: Config, calls: seq<Call>, i: nat)
    requires i < |calls|
  {
    VerifyCall(cfg, Run(cfg, calls[..i]), calls[i]).1 == None
  }

  predicate Names(call: Call, jti: string) { call.claims.Some? && call.claims.value.jti == jti }

  /** How many calls of the run accepted a capability with this jti. */
  ghost function Accepts(cfg: Config, calls: seq<Call>, jti: string): nat
    decreases |calls|
  {
    if calls == [] then 0
    else
      var n := |calls| - 1;
      Accepts(cfg, calls[..n], jti) + (if Accepted(cfg, calls, n) && Names(calls[n], jti) then 1 else 0)
  }

  ghost predicate OneExpiry(calls: seq<Call>, jti: string, expires: int) {
    forall i :: 0 <= i < |calls| && Names(calls[i], jti) ==> Expiry(calls[i].claims.value) == expires
  }

  /** Once a call has read the clock past expires, no later call for jti reads it before expires. */
  ghost predicate NoReturnBefore(calls: seq<Call>, jti: string, expires: int) {
    forall i, j :: 0 <= i < j < |calls| && expires < calls[i].now && Names(calls[j], jti) ==> expires <= calls[j].now
  }

  ghost predicate ClockNeverGoesBack(calls: seq<Call>) {
    forall i, j :: 0 <= i < j < |calls| ==> calls[i].now <= calls[j].now
  }

  lemma {:induction false} RunIsValid(cfg: Config, calls: seq<Call>)
    ensures Run(cfg, calls).Valid()
    decreases |calls|
  {
    if calls != [] {
      RunIsValid(cfg, calls[..|calls| - 1]);
    }
  }

  /** While a jti is remembered its count is all its acceptances; once forgotten it is past reopening. */
  ghost predicate Remembers(cfg: Config, calls: seq<Call>, jti: string, expires: int) {
    var o := Run(cfg, calls);
    && Accepts(cfg, calls, jti) <= MAX_OPENS
    && (jti in o.counts ==>
      jti in o.expiries && o.expiries[jti] == expires && o.counts[jti] == Accepts(cfg, calls, jti))
    && (jti !in o.counts && Accepts(cfg, calls, jti) > 0 ==> exists i :: 0 <= i < |calls| && expires < calls[i].now)
  }

  /** One capability opens at most four pipes in the whole run. */
  lemma {:induction false} AtMostFourOpens(cfg: Config, calls: seq<Call>, jti: string, expires: int)
    requires OneExpiry(calls, jti, expires) && NoReturnBefore(calls, jti, expires)
    ensures Remembers(cfg, calls, jti, expires)
    ensures Accepts(cfg, calls, jti) <= MAX_OPENS
    decreases |calls|
  {
    if calls != [] {
      var n := |calls| - 1;
      var before, call := calls[..n], calls[n];
      assert forall i :: 0 <= i < n ==> before[i] == calls[i];
      AtMostFourOpens(cfg, before, jti, expires);
      RunIsValid(cfg, before);
      var o := Run(cfg, before);
      if Refusal(cfg, call).None? {
        if jti in o.counts && jti !in Unexpired(o, call.now).counts {
          assert expires < calls[n].now;
        } else if jti !in o.counts && Accepts(cfg, before, jti) > 0 {
          var i :| 0 <= i < n && expires < before[i].now;
          assert expires < calls[i].now;
        }
      } else if jti !in o.counts && Accepts(cfg, before, jti) > 0 {
        var i :| 0 <= i < n && expires < before[i].now;
        assert expires < calls[i].now;
      }
    }
  }

  lemma AtMostFourOpensByTheClock(cfg: Config, calls: seq<Call>, jti: string, expires: int)
    requires OneExpiry(calls, jti, expires) && ClockNeverGoesBack(calls)
    ensures Accepts(cfg, calls, jti) <= MAX_OPENS
  {
    AtMostFourOpens(cfg, calls, jti, expires);
  }

  /** Where a remembered expiry came from: an accepted call at most 360 s before it. */
  ghost predicate OpenedBy(cfg: Config, calls: seq<Call>, i: int, jti: string, expires: int) {
    && 0 <= i < |calls|
    && Names(calls[i], jti)
    && Accepted(cfg, calls, i)
    && expires <= calls[i].now + MAX_LIFETIME * SECOND + 2 * MAX_CLOCK_SKEW
  }

  lemma {:induction false} EveryEntryWasOpened(cfg: Config, calls: seq<Call>, jti: string)
    requires jti in Run(cfg, calls).expiries
    ensures exists i :: OpenedBy(cfg, calls, i, jti, Run(cfg, calls).expiries[jti])
    decreases |calls|
  {
    if calls != [] {
      var n := |calls| - 1;
      var before := calls[..n];
      var o := Run(cfg, before);
      RunIsValid(cfg, before);
      if jti in o.expiries && Run(cfg, calls).expiries[jti] == o.expiries[jti] {
        EveryEntryWasOpened(cfg, before, jti);
        var i :| OpenedBy(cfg, before, i, jti, o.expiries[jti]);
        assert before[..i] == calls[..i];
        assert OpenedBy(cfg, calls, i, jti, o.expiries[jti]);
      } else {
        assert calls[..n] == before;
        assert OpenedBy(cfg, calls, n, jti, Run(cfg, calls).expiries[jti]);
      }
    }
  }

  /** After a call that reached the limit at now, every entry kept was opened within the last 360 s. */
  lemma EntriesAreRecent(cfg: Config, calls: seq<Call>, jti: string)
    requires calls != [] && Refusal(cfg, calls[|calls| - 1]).None?
    requires jti in Run(cfg, calls).expiries
    ensures exists i :: OpenedBy(cfg, calls, i, jti, Run(cfg, calls).expiries[jti])
                     && calls[|calls| - 1].now - calls[i].now <= 360 * SECOND
  {
    var n := |calls| - 1;
    EveryEntryWasOpened(cfg, calls, jti);
    RunIsValid(cfg, calls[..n]);
    var i :| OpenedBy(cfg, calls, i, jti, Run(cfg, calls).expiries[jti]);
    assert calls[n].now <= Run(cfg, calls).expiries[jti];
  }

  // ---------- Why both conditions are needed ----------

  lemma RunOf(cfg: Config, calls: seq<Call>, call: Call)
    ensures Run(cfg, calls + [call]) == VerifyCall(cfg, Run(cfg, calls), call).0
    ensures forall jti :: Accepts(cfg, calls + [call], jti) ==
              Accepts(cfg, calls, jti) + (if VerifyCall(cfg, Run(cfg, calls), call).1 == None && Names(call, jti) then 1 else 0)
  {
    assert (calls + [call])[..|calls|] == calls;
  }

  function Repeat(call: Call, n: nat): seq<Call> {
    if n == 0 then [] else Repeat(call, n - 1) + [call]
  }

  /** jti stands at n opens under this expiry; at none it is not, or no longer, remembered. */
  ghost predicate Stands(o: Opens, jti: string, n: nat, expires: int, now: int) {
    if n == 0 then jti !in Unexpired(o, now).counts && jti !in Unexpired(o, now).expiries
    else jti in o.counts && o.counts[jti] == n && jti in o.expiries && o.expiries[jti] == expires
  }

  lemma OneMoreOpen(cfg: Config, o: Opens, call: Call, n: nat)
    requires Refusal(cfg, call).None? && n < MAX_OPENS
    requires Stands(o, call.claims.value.jti, n, Expiry(call.claims.value), call.now)
    ensures VerifyCall(cfg, o, call).1 == None
    ensures Stands(VerifyCall(cfg, o, call).0, call.claims.value.jti, n + 1, Expiry(call.claims.value), call.now)
  {
  }

  lemma OneMoreAccepted(cfg: Config, calls: seq<Call>, call: Call, n: nat)
    requires Refusal(cfg, call).None? && n < MAX_OPENS
    requires Stands(Run(cfg, calls), call.claims.value.jti, n, Expiry(call.claims.value), call.now)
    ensures
      var c := call.claims.value;
      && Accepts(cfg, calls + [call], c.jti) == Accepts(cfg, calls, c.jti) + 1
      && Stands(Run(cfg, calls + [call]), c.jti, n + 1, Expiry(c), call.now)
  {
    OneMoreOpen(cfg, Run(cfg, calls), call, n);
    RunOf(cfg, calls, call);
  }

  /** Calls for one capability while it is forgotten: the first four are accepted. */
  lemma {:induction false} FourAreAccepted(cfg: Config, calls: seq<Call>, call: Call, n: nat)
    requires Refusal(cfg, call).None? && n <= MAX_OPENS
    requires Stands(Run(cfg, calls), call.claims.value.jti, 0, Expiry(call.claims.value), call.now)
    ensures
      var c := call.claims.value;
      && Accepts(cfg, calls + Repeat(call, n), c.jti) == Accepts(cfg, calls, c.jti) + n
      && Stands(Run(cfg, calls + Repeat(call, n)), c.jti, n, Expiry(c), call.now)
  {
    var all := calls + Repeat(call, n);
    if n == 0 {
      assert all == calls;
    } else {
      var shorter := calls + Repeat(call, n - 1);
      assert all == shorter + [call];
      FourAreAccepted(cfg, calls, call, n - 1);
      OneMoreAccepted(cfg, shorter, call, n - 1);
    }
  }

  lemma FourMore(cfg: Config, calls: seq<Call>, call: Call, n: nat)
    requires Refusal(cfg, call).None? && n == MAX_OPENS
    requires Stands(Run(cfg, calls), call.claims.value.jti, 0, Expiry(call.claims.value), call.now)
    ensures
      var jti := call.claims.value.jti;
      Accepts(cfg, calls + Repeat(call, n), jti) == Accepts(cfg, calls, jti) + 4
  {
    FourAreAccepted(cfg, calls, call, n);
  }

  /**
    A clock reading that goes back reopens a forgotten capability: four opens, one
    call for another capability past its expiry, and four more opens.
  */
  lemma ClockGoingBackReopens(cfg: Config, call: Call, other: Call)
    requires Refusal(cfg, call).None? && Refusal(cfg, other).None?
    requires !Names(other, call.claims.value.jti)
    requires Expiry(call.claims.value) < other.now
    ensures Accepts(cfg, Repeat(call, MAX_OPENS) + [other] + Repeat(call, MAX_OPENS), call.claims.value.jti) == 8
  {
    var jti := call.claims.value.jti;
    var four := Repeat(call, MAX_OPENS);
    FourAreAccepted(cfg, [], call, MAX_OPENS);
    assert [] + four == four;
    ForgottenAfter(cfg, four, other, jti);
    FourMore(cfg, four + [other], call, MAX_OPENS);
  }

  lemma ForgottenAfter(cfg: Config, calls: seq<Call>, other: Call, jti: string)
    requires Refusal(cfg, other).None? && !Names(other, jti)
    requires jti in Run(cfg, calls).expiries && Run(cfg, calls).expiries[jti] < other.now
    ensures jti !in Run(cfg, calls + [other]).counts && jti !in Run(cfg, calls + [other]).expiries
    ensures Accepts(cfg, calls + [other], jti) == Accepts(cfg, calls, jti)
  {
    RunOf(cfg, calls, other);
  }

  /** A capability past its expiry no longer stands. */
  lemma ExpiredIsForgotten(o: Opens, jti: string, n: nat, expires: int, before: int, later: int, now: int)
    requires n > 0 && Stands(o, jti, n, expires, before) && expires < now
    ensures Stands(o, jti, 0, later, now)
  {
  }

  /** So do two capabilities that share a jti and differ in expiry, with the clock only advancing. */
  lemma SecondExpiryReopens(cfg: Config, first: Call, second: Call)
    requires Refusal(cfg, first).None? && Refusal(cfg, second).None?
    requires Names(second, first.claims.value.jti)
    requires first.now <= second.now && Expiry(first.claims.value) < second.now
    ensures Accepts(cfg, Repeat(first, MAX_OPENS) + Repeat(second, MAX_OPENS), first.claims.value.jti) == 8
  {
    var jti, four := first.claims.value.jti, Repeat(first, MAX_OPENS);
    FourAreAccepted(cfg, [], first, MAX_OPENS);
    assert [] + four == four;
    ExpiredIsForgotten(Run(cfg, four), jti, MAX_OPENS, Expiry(first.claims.value), first.now, Expiry(second.claims.value), second.now);
    FourMore(cfg, four, second, MAX_OPENS);
  }
}
