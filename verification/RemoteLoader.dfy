/**
  The over-the-air config loader of internal/redact/remote.go: fetching,
  accepting and applying redaction documents, with its ETag and hash caches and
  its anti-rollback rules, against a loader that remembers no cache at all.

  TOML decoding, hashing and signatures are a `World` of arbitrary functions;
  the caches need the hash to be injective, and nothing else needs anything.
*/
module RemoteLoader {
  import opened Wrappers
  import opened RedactWalk
  import opened RedactRules

  type Digest = int

  const MAX_CONFIG_BYTES := 1024 * 1024

  datatype Section = Section(defaultReplacement: string, rules: Option<seq<RuleSpec>>)

  datatype Document = Document(schemaVersion: int, redaction: Option<Section>)

  /** What a signed object says: its document, and the claims it is signed with. */
  datatype Signed = Signed(document: string, version: nat, issued: int)

  datatype World = World(
    lib: Library,
    decode: string -> Option<Document>,
    hash: string -> Digest,
    signed: string -> Signed,
    verifies: (string, int) -> bool)

  ghost predicate Injective(hash: string -> Digest) {
    forall a, b :: hash(a) == hash(b) ==> a == b
  }

  // ---------- ParseConfig ----------

  datatype ConfigError = TooLarge | BadToml | Incomplete | NameOrPattern | UnknownKind | FiltersNeedStructured

  function RuleError(rule: RuleSpec, names: set<string>): Option<ConfigError> {
    if rule.name == "" || rule.name in names || rule.pattern == "" then Some(NameOrPattern)
    else if rule.kind != REGEX && rule.kind != REGEX_STRUCTURED then Some(UnknownKind)
    else if rule.kind == REGEX && (rule.redactFields.Some? || rule.skipFields.Some?) then Some(FiltersNeedStructured)
    else None
  }

  function RulesError(rules: seq<RuleSpec>, names: set<string>): Option<ConfigError>
    decreases |rules|
  {
    if rules == [] then None
    else match RuleError(rules[0], names)
      case Some(e) => Some(e)
      case None => RulesError(rules[1..], names + {rules[0].name})
  }

  function Parse(world: World, data: string): Result<RulesFile, ConfigError> {
    if |data| > MAX_CONFIG_BYTES then Err(TooLarge)
    else match world.decode(data)
      case None => Err(BadToml)
      case Some(doc) =>
        if doc.schemaVersion != 1 || doc.redaction.None? || doc.redaction.value.rules.None? then Err(Incomplete)
        else match RulesError(doc.redaction.value.rules.value, {})
          case Some(e) => Err(e)
          case None => Ok(RulesFile(doc.redaction.value.defaultReplacement, doc.redaction.value.rules.value))
  }

  method ParseConfig(world: World, data: string) returns (r: Result<RulesFile, ConfigError>)
    ensures r == Parse(world, data)
  {
    if |data| > MAX_CONFIG_BYTES {
      return Err(TooLarge);
    }
    var doc := world.decode(data);
    if doc.None? {
      return Err(BadToml);
    }
    if doc.value.schemaVersion != 1 || doc.value.redaction.None? || doc.value.redaction.value.rules.None? {
      return Err(Incomplete);
    }
    var rules := doc.value.redaction.value.rules.value;
    var names := {};
    assert rules[0..] == rules;
    for i := 0 to |rules|
      invariant RulesError(rules, {}) == RulesError(rules[i..], names)
    {
      assert rules[i..][1..] == rules[i + 1..];
      var rule := rules[i];
      if rule.name == "" || rule.name in names || rule.pattern == "" {
        return Err(NameOrPattern);
      }
      names := names + {rule.name};
      if rule.kind != REGEX && rule.kind != REGEX_STRUCTURED {
        return Err(UnknownKind);
      }
      if rule.kind == REGEX && (rule.redactFields.Some? || rule.skipFields.Some?) {
        return Err(FiltersNeedStructured);
      }
    }
    return Ok(RulesFile(doc.value.redaction.value.defaultReplacement, rules));
  }

  /** The rules of an accepted document: named, all differently, each of a kind that its filters suit. */
  ghost predicate Acceptable(rules: seq<RuleSpec>) {
    && (forall i :: 0 <= i < |rules| ==> rules[i].name != "" && rules[i].pattern != "")
    && (forall i, j :: 0 <= i < j < |rules| ==> rules[i].name != rules[j].name)
    && (forall i :: 0 <= i < |rules| ==>
      rules[i].kind == REGEX_STRUCTURED
      || (rules[i].kind == REGEX && rules[i].redactFields.None? && rules[i].skipFields.None?))
  }

  lemma {:induction false} RulesErrorMeans(rules: seq<RuleSpec>, names: set<string>)
    ensures RulesError(rules, names) == None <==>
      Acceptable(rules) && forall i :: 0 <= i < |rules| ==> rules[i].name !in names
    decreases |rules|
  {
    if rules != [] {
      var rest := rules[1..];
      RulesErrorMeans(rest, names + {rules[0].name});
      assert forall i :: 1 <= i < |rules| ==> rules[i] == rest[i - 1];
      if RulesError(rules, names) == None {
        forall i, j | 0 <= i < j < |rules| ensures rules[i].name != rules[j].name {
          assert rest[j - 1].name !in names + {rules[0].name};
        }
      }
    }
  }

  /** A document is accepted exactly when it is within the size, complete, and its rules are acceptable. */
  lemma ParseAccepts(world: World, data: string)
    ensures Parse(world, data).Ok? <==>
      && |data| <= MAX_CONFIG_BYTES
      && world.decode(data).Some?
      && var doc := world.decode(data).value;
         && doc.schemaVersion == 1 && doc.redaction.Some? && doc.redaction.value.rules.Some?
         && Acceptable(doc.redaction.value.rules.value)
  {
    if world.decode(data).Some? && world.decode(data).value.redaction.Some?
      && world.decode(data).value.redaction.value.rules.Some? {
      RulesErrorMeans(world.decode(data).value.redaction.value.rules.value, {});
    }
  }

  // ---------- One refresh ----------

  /** The answer to a fetch; a 200 may fail as it is read. */
  datatype Fetch = Failed | NotFound | NotModified | Success(body: Option<string>, etag: string) | OtherStatus

  datatype Outcome = Applied | Unchanged | Error | Unsigned | RolledBack

  datatype State = State(
    rules: seq<Rule>,
    etag: string,
    hash: Digest,
    loaded: bool,
    version: nat,
    issued: int,
    document: Digest)

  function Limited(body: string): string {
    if |body| <= MAX_CONFIG_BYTES + 1 then body else body[..MAX_CONFIG_BYTES + 1]
  }

  /** Parsed and compiled, or not at all. */
  function Compiled(world: World, document: string): Option<seq<Rule>> {
    match Parse(world, document)
    case Err(_) => None
    case Ok(f) => match Compile(world.lib, f) case Err(_) => None case Ok(rules) => Some(rules)
  }

  function Refreshed(world: World, needSigned: bool, s: State, fetch: Fetch, now: int): (State, Outcome) {
    match fetch
    case Failed => (s, Error)
    case NotFound => (s, Error)
    case OtherStatus => (s, Error)
    case NotModified => (s, if s.loaded && s.etag != "" then Unchanged else Error)
    case Success(None, _) => (s, Error)
    case Success(Some(body), etag) => Received(world, needSigned, s, Limited(body), etag, now)
  }

  function Received(world: World, needSigned: bool, s: State, data: string, etag: string, now: int): (State, Outcome) {
    var hash := world.hash(data);
    var cached := s.(etag := etag, hash := hash, loaded := true);
    if s.loaded && hash == s.hash then (cached, Unchanged)
    else if !needSigned then
      match Compiled(world, data)
      case None => (s, Error)
      case Some(rules) => (cached.(rules := rules), Applied)
    else if !world.verifies(data, now) then (s, Unsigned)
    else
      var claims := world.signed(data);
      var document := world.hash(claims.document);
      var claimed := cached.(version := claims.version, issued := claims.issued, document := document);
      if s.loaded && claims.issued < s.issued then (s, RolledBack)
      else if s.loaded && claims.version == s.version && document == s.document then (claimed, Unchanged)
      else if s.loaded && claims.version <= s.version then (s, RolledBack)
      else match Compiled(world, claims.document)
        case None => (s, Error)
        case Some(rules) => (claimed.(rules := rules), Applied)
  }

  class Loader {
    const world: World
    const needSigned: bool
    const redactor: Redactor
    var etag: string
    var hash: Digest
    var loaded: bool
    var version: nat
    var issued: int
    var document: Digest

    function View(): State
      reads this, redactor
    {
      State(redactor.rules, etag, hash, loaded, version, issued, document)
    }

    constructor (world: World, needSigned: bool, redactor: Redactor)
      ensures this.world == world && this.needSigned == needSigned && this.redactor == redactor
      ensures View() == State(redactor.rules, "", 0, false, 0, 0, 0)
    {
      this.world, this.needSigned, this.redactor := world, needSigned, redactor;
      etag, hash, loaded, version, issued, document := "", 0, false, 0, 0, 0;
    }

    method Refresh(fetch: Fetch, now: int) returns (outcome: Outcome)
      requires redactor.lib == world.lib
      modifies this, redactor
      ensures (View(), outcome) == Refreshed(world, needSigned, old(View()), fetch, now)
    {
      outcome := Error;
      match fetch {
        case NotModified =>
          if !loaded || etag == "" {
            return;
          }
          outcome := Unchanged;
        case Success(body, newEtag) =>
          if body.None? {
            return;
          }
          var data := Limited(body.value);
          var newHash := world.hash(data);
          var newVersion, newIssued, newDocument := version, issued, document;
          var changed := !loaded || newHash != hash;
          if changed && needSigned {
            if !world.verifies(data, now) {
              return Unsigned;
            }
            var claims := world.signed(data);
            data := claims.document;
            newVersion, newIssued, newDocument := claims.version, claims.issued, world.hash(data);
            if loaded && newIssued < issued {
              return RolledBack;
            } else if loaded && newVersion == version && newDocument == document {
              changed := false;
            } else if loaded && newVersion <= version {
              return RolledBack;
            }
          }
          if changed {
            var rules := ParseConfig(world, data);
            if rules.Err? {
              return;
            }
            var updated := redactor.Update(rules.value);
            if updated.Err? {
              return;
            }
            outcome := Applied;
          } else {
            outcome := Unchanged;
          }
          hash, etag, loaded := newHash, newEtag, true;
          version, issued, document := newVersion, newIssued, newDocument;
        case _ =>
          return;
      }
    }
  }

  /** A refresh that fails, for whatever reason, changes nothing at all: not the rules, nor anything it remembers. */
  lemma FailureChangesNothing(world: World, needSigned: bool, s: State, fetch: Fetch, now: int)
    ensures
      var (s', outcome) := Refreshed(world, needSigned, s, fetch, now);
      && (outcome != Applied && outcome != Unchanged ==> s' == s)
      && (outcome == Unchanged ==> s'.rules == s.rules && s.loaded && s'.loaded)
      && (outcome == Applied ==> s'.loaded)
  {
  }

  // ---------- Runs ----------

  datatype Poll = Poll(fetch: Fetch, now: int)

  /** The loader's state before each poll and after the last. */
  ghost predicate IsRun(world: World, needSigned: bool, polls: seq<Poll>, states: seq<State>) {
    && |states| == |polls| + 1
    && !states[0].loaded
    && forall i :: 0 <= i < |polls| ==>
      states[i + 1] == Refreshed(world, needSigned, states[i], polls[i].fetch, polls[i].now).0
  }

  ghost predicate AppliesAt(world: World, needSigned: bool, polls: seq<Poll>, states: seq<State>, i: nat)
    requires i < |polls| && |states| == |polls| + 1
  {
    Refreshed(world, needSigned, states[i], polls[i].fetch, polls[i].now).1 == Applied
  }

  /** What the loader holds only moves forward. */
  ghost predicate Forward(s: State, s': State) {
    s.loaded ==> s'.loaded && s.version <= s'.version && s.issued <= s'.issued
  }

  lemma {:induction false} OnlyForward(world: World, polls: seq<Poll>, states: seq<State>, i: nat, j: nat)
    requires IsRun(world, true, polls, states) && i <= j < |states|
    ensures Forward(states[i], states[j])
    decreases j - i
  {
    if i < j {
      OnlyForward(world, polls, states, i, j - 1);
      assert states[j - 1 + 1] == Refreshed(world, true, states[j - 1], polls[j - 1].fetch, polls[j - 1].now).0;
    }
  }

  /**
    With signatures required, the configs that change the rules come in strictly
    increasing versions, none issued before the one it replaces.
  */
  lemma AppliedVersionsIncrease(world: World, polls: seq<Poll>, states: seq<State>, i: nat, j: nat)
    requires IsRun(world, true, polls, states) && i < j < |polls|
    requires AppliesAt(world, true, polls, states, i) && AppliesAt(world, true, polls, states, j)
    ensures states[i + 1].version < states[j + 1].version
    ensures states[i + 1].issued <= states[j + 1].issued
  {
    assert states[i + 1] == Refreshed(world, true, states[i], polls[i].fetch, polls[i].now).0;
    assert states[j + 1] == Refreshed(world, true, states[j], polls[j].fetch, polls[j].now).0;
    OnlyForward(world, polls, states, i + 1, j);
  }

  /** The version does not go back, and while it stands so do the rules and the document. */
  ghost predicate OneDocument(s: State, s': State) {
    s.loaded ==>
      && s'.loaded && s.version <= s'.version
      && (s'.version == s.version ==> s'.rules == s.rules && s'.document == s.document)
  }

  lemma RefreshKeepsOneDocument(world: World, s: State, fetch: Fetch, now: int)
    ensures OneDocument(s, Refreshed(world, true, s, fetch, now).0)
  {
  }

  lemma {:induction false} DocumentsFollow(states: seq<State>, i: nat, j: nat)
    requires forall k :: 0 <= k < |states| - 1 ==> OneDocument(states[k], states[k + 1])
    requires i <= j < |states|
    ensures OneDocument(states[i], states[j])
    decreases j - i
  {
    if i < j {
      DocumentsFollow(states, i, j - 1);
      assert OneDocument(states[j - 1], states[j - 1 + 1]);
    }
  }

  /** One version is one document: with signatures required, as long as the version stands so do the rules and the document. */
  lemma OneVersionOneDocument(world: World, polls: seq<Poll>, states: seq<State>, i: nat, j: nat)
    requires IsRun(world, true, polls, states) && i <= j < |states|
    requires states[i].loaded && states[i].version == states[j].version
    ensures states[j].rules == states[i].rules && states[j].document == states[i].document
  {
    forall k | 0 <= k < |states| - 1 ensures OneDocument(states[k], states[k + 1]) {
      RefreshKeepsOneDocument(world, states[k], polls[k].fetch, polls[k].now);
    }
    DocumentsFollow(states, i, j);
  }

  // ---------- A loader with no cache ----------

  /** It keeps the last object it accepted, and the document in it, in full. */
  datatype Plain = Plain(rules: seq<Rule>, loaded: bool, sent: string, document: string, version: nat, issued: int)

  /** A 304 stands for the object last accepted, sent again; every object is checked, parsed and compiled anew. */
  function PlainRefreshed(world: World, needSigned: bool, p: Plain, fetch: Fetch, now: int): Plain {
    match fetch
    case Success(Some(body), _) => PlainReceived(world, needSigned, p, Limited(body), now)
    case NotModified => if p.loaded then PlainReceived(world, needSigned, p, p.sent, now) else p
    case _ => p
  }

  function PlainReceived(world: World, needSigned: bool, p: Plain, data: string, now: int): Plain {
    if !needSigned then PlainApplied(world, p, data, Signed(data, 0, 0))
    else if !world.verifies(data, now) then p
    else
      var claims := world.signed(data);
      if p.loaded && claims.issued < p.issued then p
      else if p.loaded && claims.version <= p.version
        && !(claims.version == p.version && claims.document == p.document) then p
      else PlainApplied(world, p, data, claims)
  }

  function PlainApplied(world: World, p: Plain, data: string, claims: Signed): Plain {
    match Compiled(world, claims.document)
    case None => p
    case Some(rules) => Plain(rules, true, data, claims.document, claims.version, claims.issued)
  }

  /** The cached state stands for the plain one, whose rules are the compilation of the document it holds. */
  ghost predicate Stands(world: World, needSigned: bool, s: State, p: Plain) {
    && s.rules == p.rules && s.loaded == p.loaded
    && (s.loaded ==>
      && s.hash == world.hash(p.sent)
      && Compiled(world, p.document) == Some(s.rules)
      && s.version == p.version && s.issued == p.issued
      && (if needSigned
          then world.signed(p.sent) == Signed(p.document, p.version, p.issued) && s.document == world.hash(p.document)
          else p.document == p.sent && p.version == 0 && p.issued == 0))
    && (!s.loaded ==> s.version == 0 && s.issued == 0)
  }

  lemma SameObjectAgain(world: World, needSigned: bool, s: State, p: Plain, now: int)
    requires Stands(world, needSigned, s, p) && p.loaded
    ensures PlainReceived(world, needSigned, p, p.sent, now) == p
  {
  }

  lemma RefreshStands(world: World, needSigned: bool, s: State, p: Plain, fetch: Fetch, now: int)
    requires Injective(world.hash) && Stands(world, needSigned, s, p)
    ensures Stands(world, needSigned, Refreshed(world, needSigned, s, fetch, now).0,
                   PlainRefreshed(world, needSigned, p, fetch, now))
  {
    if p.loaded {
      SameObjectAgain(world, needSigned, s, p, now);
    }
  }

  function PlainRun(world: World, needSigned: bool, rules: seq<Rule>, polls: seq<Poll>): Plain
    decreases |polls|
  {
    if polls == [] then Plain(rules, false, "", "", 0, 0)
    else
      var n := |polls| - 1;
      PlainRefreshed(world, needSigned, PlainRun(world, needSigned, rules, polls[..n]), polls[n].fetch, polls[n].now)
  }

  /**
    The caches change nothing: whatever the server answers, and whenever signatures
    expire, the rules in force are those of a loader that checks every object anew,
    and once loaded they are the compilation of the last document it accepted.
  */
  lemma {:induction false} CachesChangeNothing(world: World, needSigned: bool, polls: seq<Poll>, states: seq<State>)
    requires Injective(world.hash) && IsRun(world, needSigned, polls, states)
    requires states[0].version == 0 && states[0].issued == 0
    ensures
      var p := PlainRun(world, needSigned, states[0].rules, polls);
      var s := states[|polls|];
      && Stands(world, needSigned, s, p)
      && s.rules == p.rules
      && (s.loaded ==> Compiled(world, p.document) == Some(s.rules))
    decreases |polls|
  {
    if polls != [] {
      var n := |polls| - 1;
      var shorter, fewer := polls[..n], states[..n + 1];
      assert forall i :: 0 <= i < n ==> fewer[i + 1] == states[i + 1] && shorter[i] == polls[i];
      CachesChangeNothing(world, needSigned, shorter, fewer);
      RefreshStands(world, needSigned, states[n], PlainRun(world, needSigned, states[0].rules, shorter),
                    polls[n].fetch, polls[n].now);
      assert states[n + 1] == Refreshed(world, needSigned, states[n], polls[n].fetch, polls[n].now).0;
    }
  }
}
