/**
  Exactly which capabilities connector-lib/capability/capability.go accepts, and the
  reason each of the others is given, in terms of the claims, the pipe asked for, the
  clock and the opens still counted.
*/
module OpenVerdict {
  import opened Wrappers
  import opened OpenLimiter

  predicate Short(s: string) { s != "" && |s| <= 256 }

  /** Every claim is there and no longer than 256 bytes, the destination is canonical, and the window is at most five minutes. */
  ghost predicate WellFormed(c: Claims, canonical: string -> bool) {
    && Short(c.issuer) && Short(c.audience) && Short(c.subject) && Short(c.organization) && Short(c.integration)
    && Short(c.connector) && Short(c.consumer) && Short(c.session) && Short(c.jti)
    && |c.issuer| >= 21 && c.issuer[..21] == "traversal-raw-tunnel/"
    && c.audience == "traversal-raw-tunnel"
    && canonical(c.host) && c.port > 0
    && c.issuedAt > 0 && c.expiresAt > c.issuedAt && c.expiresAt - c.issuedAt <= 300
  }

  /** The signer's issuer, the configured one if there is one, and the configured subject. */
  ghost predicate FromTheSigner(cfg: Config, call: Call, c: Claims) {
    && c.issuer == call.mustIssue
    && (cfg.issuer == "" || c.issuer == cfg.issuer)
    && c.subject == cfg.subject
  }

  /** The clock, in nanoseconds, is at most 30 s before the claims begin and less than 30 s past their end. */
  ghost predicate InTime(now: int, c: Claims) {
    && c.issuedAt * 1_000_000_000 <= now + 30_000_000_000
    && now - 30_000_000_000 < c.expiresAt * 1_000_000_000
  }

  /** The call carries claims that are good now, whatever pipe they are for. */
  ghost predicate Good(cfg: Config, call: Call) {
    && call.claims.Some?
    && WellFormed(call.claims.value, cfg.canonical)
    && FromTheSigner(cfg, call, call.claims.value)
    && InTime(call.now, call.claims.value)
  }

  ghost predicate ForTheConnector(call: Call) {
    call.claims.Some? && call.claims.value.connector == call.connector
  }

  ghost predicate ForTheDestination(call: Call) {
    call.claims.Some? && call.claims.value.host == call.host && call.claims.value.port == call.port
  }

  /** Opens counted for a capability that has not expired. */
  ghost function LiveOpens(o: Opens, jti: string, now: int): nat {
    if jti in o.counts && jti in o.expiries && o.expiries[jti] >= now then o.counts[jti] else 0
  }

  ghost predicate OpensLeft(o: Opens, call: Call) {
    call.claims.Some? && LiveOpens(o, call.claims.value.jti, call.now) < 4
  }

  lemma GoodIsNotInvalid(cfg: Config, call: Call)
    ensures Refusal(cfg, call) == Some(InvalidCapability) <==> !Good(cfg, call)
  {
    if call.claims.Some? {
      var c := call.claims.value;
      assert ISSUER_PREFIX <= c.issuer <==> |c.issuer| >= 21 && c.issuer[..21] == "traversal-raw-tunnel/" by {
        assert |ISSUER_PREFIX| == 21;
      }
      assert WellFormed(c, cfg.canonical) <==> ValidClaims(c, cfg.canonical);
    }
  }

  lemma RefusalInOrder(cfg: Config, call: Call)
    ensures Refusal(cfg, call) == Some(WrongConnector) <==> Good(cfg, call) && !ForTheConnector(call)
    ensures Refusal(cfg, call) == Some(WrongDestination) <==>
      Good(cfg, call) && ForTheConnector(call) && !ForTheDestination(call)
    ensures Refusal(cfg, call) == None <==> Good(cfg, call) && ForTheConnector(call) && ForTheDestination(call)
  {
    GoodIsNotInvalid(cfg, call);
  }

  lemma TakeIfLeft(o: Opens, jti: string, expires: int, now: int)
    requires o.Valid()
    ensures Take(o, jti, expires, now).1 <==> LiveOpens(o, jti, now) < 4
  {
  }

  /** A capability is accepted exactly when it is good, for this connector, host and port, and has opens left. */
  lemma AcceptedExactly(cfg: Config, o: Opens, call: Call)
    requires o.Valid()
    ensures VerifyCall(cfg, o, call).1 == None <==>
      Good(cfg, call) && ForTheConnector(call) && ForTheDestination(call) && OpensLeft(o, call)
  {
    RefusalInOrder(cfg, call);
    if call.claims.Some? {
      TakeIfLeft(o, call.claims.value.jti, Expiry(call.claims.value), call.now);
    }
  }

  /** Any other is refused for the first thing wrong with it. */
  lemma RefusedInOrder(cfg: Config, o: Opens, call: Call)
    requires o.Valid()
    ensures
      var reason := VerifyCall(cfg, o, call).1;
      && (reason == Some(InvalidCapability) <==> !Good(cfg, call))
      && (reason == Some(WrongConnector) <==> Good(cfg, call) && !ForTheConnector(call))
      && (reason == Some(WrongDestination) <==> Good(cfg, call) && ForTheConnector(call) && !ForTheDestination(call))
      && (reason == Some(Exhausted) <==>
        Good(cfg, call) && ForTheConnector(call) && ForTheDestination(call) && !OpensLeft(o, call))
  {
    RefusalInOrder(cfg, call);
    if call.claims.Some? {
      TakeIfLeft(o, call.claims.value.jti, Expiry(call.claims.value), call.now);
    }
  }

  /** An accepted call counts one open of its capability, until 30 s past its end if it is the first; a call refused for anything else leaves the opens alone. */
  lemma AcceptedIsCounted(cfg: Config, o: Opens, call: Call)
    requires o.Valid()
    ensures
      var (o', reason) := VerifyCall(cfg, o, call);
      && (reason == None ==>
        var c := call.claims.value;
        && LiveOpens(o', c.jti, call.now) == LiveOpens(o, c.jti, call.now) + 1
        && (LiveOpens(o, c.jti, call.now) == 0 ==>
          c.jti in o'.expiries && o'.expiries[c.jti] == c.expiresAt * 1_000_000_000 + 30_000_000_000)
        && forall jti :: jti != c.jti ==> LiveOpens(o', jti, call.now) == LiveOpens(o, jti, call.now))
      && (reason.Some? && reason != Some(Exhausted) ==> o' == o)
  {
    RefusalInOrder(cfg, call);
  }
}
