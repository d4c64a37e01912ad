/**
  What the loader of internal/redact/remote.go puts in force, in terms of the decoded
  document itself, and exactly when it does; and the etag it answers a 304 by.
*/
module RemoteMeaning {
  import opened Wrappers
  import opened RedactWalk
  import opened RedactRules
  import opened RemoteLoader

  /** The document decodes to rules under schema version 1, and these are its default replacement and rules. */
  ghost predicate Says(world: World, document: string, f: RulesFile) {
    && world.decode(document).Some?
    && var doc := world.decode(document).value;
    && doc.schemaVersion == 1 && doc.redaction.Some? && doc.redaction.value.rules.Some?
    && f.defaultReplacement == doc.redaction.value.defaultReplacement
    && f.rules == doc.redaction.value.rules.value
  }

  /** Named rules, all differently, each with a pattern, each of a kind its filters suit, and all of them compile. */
  ghost predicate Sound(lib: Library, rules: seq<RuleSpec>) {
    && (forall i :: 0 <= i < |rules| ==> rules[i].name != "" && rules[i].pattern != "")
    && (forall i, j :: 0 <= i < j < |rules| ==> rules[i].name != rules[j].name)
    && (forall i :: 0 <= i < |rules| ==>
      rules[i].kind == "regex-structured-data"
      || (rules[i].kind == "regex" && rules[i].redactFields.None? && rules[i].skipFields.None?))
    && (forall i :: 0 <= i < |rules| ==> lib.compiles(rules[i].pattern))
    && (forall i, host :: 0 <= i < |rules| && host in rules[i].hosts && host != ".*" ==> lib.compiles("^(?i:" + host + ")$"))
  }

  ghost predicate IsAcceptable(world: World, document: string) {
    && |document| <= 1_048_576
    && exists f :: Says(world, document, f) && Sound(world.lib, f.rules)
  }

  /** One rule in force for each rule the document says, in order, each meaning what it says. */
  ghost predicate InForce(world: World, document: string, rules: seq<Rule>) {
    exists f :: Says(world, document, f) && EachMeans(world.lib, f, rules)
  }

  ghost predicate EachMeans(lib: Library, f: RulesFile, rules: seq<Rule>) {
    |rules| == |f.rules| && forall i :: 0 <= i < |rules| ==> Means(lib, f, i, rules[i])
  }

  lemma ParseSays(world: World, document: string)
    ensures Parse(world, document).Ok? ==> Says(world, document, Parse(world, document).value)
    ensures forall f, g :: Says(world, document, f) && Says(world, document, g) ==> f == g
  {
  }

  lemma SoundMeans(lib: Library, rules: seq<RuleSpec>)
    ensures Sound(lib, rules) <==> Acceptable(rules) && forall i :: 0 <= i < |rules| ==> Compilable(lib, rules[i])
  {
    if Sound(lib, rules) {
      forall i | 0 <= i < |rules| ensures Compilable(lib, rules[i]) {
        assert forall host :: host in rules[i].hosts && host != ".*" ==> lib.compiles(Anchored(host));
      }
    }
    if Acceptable(rules) && forall i :: 0 <= i < |rules| ==> Compilable(lib, rules[i]) {
      forall i, host | 0 <= i < |rules| && host in rules[i].hosts && host != ".*" ensures lib.compiles("^(?i:" + host + ")$") {
        assert Compilable(lib, rules[i]) && lib.compiles(Anchored(host));
      }
    }
  }

  /** A document is compiled exactly when it is acceptable, and then the rules are its own. */
  lemma CompiledMeans(world: World, document: string)
    ensures Compiled(world, document).Some? <==> IsAcceptable(world, document)
    ensures Compiled(world, document).Some? ==> InForce(world, document, Compiled(world, document).value)
  {
    ParseAccepts(world, document);
    ParseSays(world, document);
    if Parse(world, document).Ok? {
      var f := Parse(world, document).value;
      CompileMeansTheDocument(world.lib, f);
      SoundMeans(world.lib, f.rules);
      if Compiled(world, document).Some? {
        assert Says(world, document, f) && EachMeans(world.lib, f, Compiled(world, document).value);
      }
    }
    if |document| <= 1_048_576 {
      if f :| Says(world, document, f) && Sound(world.lib, f.rules) {
        SoundMeans(world.lib, f.rules);
      }
    }
  }

  /** What is read of an answer's body: a byte more than a document may have, so that a longer one shows. */
  ghost function Data(body: string): string { if |body| <= 1_048_577 then body else body[..1_048_577] }

  /** The document in the data: what was signed, where signatures are required. */
  ghost function DocumentIn(world: World, needSigned: bool, data: string): string {
    if needSigned then world.signed(data).document else data
  }

  /** An answer not seen before: there is no accepted one, or its hash is another. */
  ghost predicate Fresh(world: World, s: State, data: string) { !s.loaded || world.hash(data) != s.hash }

  /** Signed, where it must be, and neither older nor of no newer a version than what is in force. */
  ghost predicate Newer(world: World, needSigned: bool, s: State, data: string, now: int) {
    needSigned ==>
      && world.verifies(data, now)
      && (s.loaded ==> world.signed(data).issued >= s.issued && world.signed(data).version > s.version)
  }

  /** A refresh changes the rules exactly for a new answer that may replace what is in force and holds an acceptable document. */
  lemma AppliedExactly(world: World, needSigned: bool, s: State, fetch: Fetch, now: int)
    ensures Refreshed(world, needSigned, s, fetch, now).1 == Applied <==>
      && fetch.Success? && fetch.body.Some?
      && var data := Data(fetch.body.value);
      && Fresh(world, s, data) && Newer(world, needSigned, s, data, now)
      && IsAcceptable(world, DocumentIn(world, needSigned, data))
  {
    if fetch.Success? && fetch.body.Some? {
      CompiledMeans(world, DocumentIn(world, needSigned, Data(fetch.body.value)));
    }
  }

  /** And the rules it puts in force are the document's own: as many, in order, each meaning what it says there. */
  lemma AppliedMeansTheDocument(world: World, needSigned: bool, s: State, fetch: Fetch, now: int)
    requires Refreshed(world, needSigned, s, fetch, now).1 == Applied
    ensures
      && fetch.Success? && fetch.body.Some?
      && InForce(world, DocumentIn(world, needSigned, Data(fetch.body.value)), Refreshed(world, needSigned, s, fetch, now).0.rules)
  {
    CompiledMeans(world, DocumentIn(world, needSigned, Data(fetch.body.value)));
  }

  /** What else a refresh may say, and when. */
  lemma OtherOutcomes(world: World, needSigned: bool, s: State, fetch: Fetch, now: int)
    ensures
      var outcome := Refreshed(world, needSigned, s, fetch, now).1;
      && (fetch.NotModified? ==> outcome == if s.loaded && s.etag != "" then Unchanged else Error)
      && (fetch.Success? && fetch.body.Some? ==>
        var data := Data(fetch.body.value);
        var claims := world.signed(data);
        && (!Fresh(world, s, data) ==> outcome == Unchanged)
        && (Fresh(world, s, data) && needSigned ==>
          && (outcome == Unsigned <==> !world.verifies(data, now))
          && (outcome == Unchanged <==>
            && world.verifies(data, now) && s.loaded && claims.issued >= s.issued
            && claims.version == s.version && world.hash(claims.document) == s.document)
          && (outcome == RolledBack <==>
            && world.verifies(data, now) && s.loaded
            && (claims.issued < s.issued || claims.version < s.version
                || (claims.version == s.version && world.hash(claims.document) != s.document)))))
      && (!fetch.NotModified? && !(fetch.Success? && fetch.body.Some?) ==> outcome == Error)
  {
  }

  /** An accepted answer's etag, hash and claims are what is remembered, and a 304 to that etag is then taken. */
  lemma AcceptedIsRemembered(world: World, needSigned: bool, s: State, fetch: Fetch, now: int, later: int)
    requires fetch.Success? && fetch.body.Some?
    requires var outcome := Refreshed(world, needSigned, s, fetch, now).1; outcome == Applied || outcome == Unchanged
    ensures
      var s' := Refreshed(world, needSigned, s, fetch, now).0;
      var data := Data(fetch.body.value);
      && s'.loaded && s'.etag == fetch.etag && s'.hash == world.hash(data)
      && (needSigned && Fresh(world, s, data) ==>
        && s'.version == world.signed(data).version && s'.issued == world.signed(data).issued
        && s'.document == world.hash(world.signed(data).document))
      && Refreshed(world, needSigned, s', NotModified, later) == (s', if fetch.etag != "" then Unchanged else Error)
  {
  }

  /** Over any run, once loaded, the rules in force are those the last accepted document says. */
  lemma RulesInForceAreTheDocuments(world: World, needSigned: bool, polls: seq<Poll>, states: seq<State>)
    requires Injective(world.hash) && IsRun(world, needSigned, polls, states)
    requires states[0].version == 0 && states[0].issued == 0
    ensures
      states[|polls|].loaded ==>
        InForce(world, PlainRun(world, needSigned, states[0].rules, polls).document, states[|polls|].rules)
  {
    CachesChangeNothing(world, needSigned, polls, states);
    CompiledMeans(world, PlainRun(world, needSigned, states[0].rules, polls).document);
  }
}
