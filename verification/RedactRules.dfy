/**
  Rule sets of internal/redact/redact.go: compiling a rules document, choosing
  the rules that cover a host, and running them over a body.

  Regular expressions, the JSON codec and IDNA are a `Library` of arbitrary
  total functions; nothing below depends on what they compute.
*/
module RedactRules {
  import opened Wrappers
  import opened RedactWalk

  datatype JsonFault = EndsMidDocument | DoesNotParse | MoreThanOneDocument | TrailingBytes | DoesNotMarshal

  datatype Library = Library(
    compiles: string -> bool,
    replaceAll: (string, string, string) -> string,
    matches: (string, string) -> bool,
    canonicalHost: string -> string,
    decode: string -> Result<Json, JsonFault>,
    encode: Json -> Result<string, JsonFault>)

  datatype RuleSpec = RuleSpec(
    name: string,
    kind: string,
    pattern: string,
    replacement: string,
    redactFields: Option<seq<string>>,
    skipFields: Option<seq<string>>,
    hosts: seq<string>)

  datatype RulesFile = RulesFile(defaultReplacement: string, rules: seq<RuleSpec>)

  datatype CompileError =
    | UnsupportedType(rule: string)
    | InvalidPattern(rule: string)
    | InvalidHost(rule: string, pattern: string)

  const REGEX := "regex"
  const REGEX_STRUCTURED := "regex-structured-data"
  const DEFAULT_REPLACEMENT := "[REDACTED]"
  const ANY_HOST := ".*"

  // ---------- Hosts ----------

  function Anchored(pattern: string): string { "^(?i:" + pattern + ")$" }

  function Matcher(lib: Library, pattern: string): string -> bool {
    host => lib.matches(Anchored(pattern), host)
  }

  predicate BadHost(lib: Library, pattern: string) {
    pattern != ANY_HOST && !lib.compiles(Anchored(pattern))
  }

  /** A matcher for each pattern but the wildcards, in order. */
  function MatchersOf(lib: Library, patterns: seq<string>): seq<string -> bool> {
    if patterns == [] then []
    else
      var earlier := MatchersOf(lib, patterns[..|patterns| - 1]);
      var last := patterns[|patterns| - 1];
      if last == ANY_HOST then earlier else earlier + [Matcher(lib, last)]
  }

  function FirstBadHost(lib: Library, patterns: seq<string>): (r: Option<string>)
    ensures r.None? <==> forall p :: p in patterns ==> !BadHost(lib, p)
    ensures r.Some? ==> r.value in patterns && BadHost(lib, r.value)
  {
    if patterns == [] then None
    else if BadHost(lib, patterns[0]) then Some(patterns[0])
    else FirstBadHost(lib, patterns[1..])
  }

  function HostMatchers(lib: Library, patterns: seq<string>): Result<Option<seq<string -> bool>>, string> {
    match FirstBadHost(lib, patterns)
    case Some(p) => Err(p)
    case None => Ok(if patterns == [] || ANY_HOST in patterns then None else Some(MatchersOf(lib, patterns)))
  }

  lemma {:induction false} FirstBadHostIsFirst(lib: Library, before: seq<string>, p: string, after: seq<string>)
    requires BadHost(lib, p) && forall q :: q in before ==> !BadHost(lib, q)
    ensures FirstBadHost(lib, before + [p] + after) == Some(p)
  {
    var all := before + [p] + after;
    if before != [] {
      assert all[1..] == before[1..] + [p] + after;
      FirstBadHostIsFirst(lib, before[1..], p, after);
    }
  }

  method CompileHostMatchers(lib: Library, patterns: seq<string>) returns (r: Result<Option<seq<string -> bool>>, string>)
    ensures r == HostMatchers(lib, patterns)
  {
    if |patterns| == 0 {
      return Ok(None);
    }
    var matchers := [];
    var matchAll := false;
    for i := 0 to |patterns|
      invariant forall p :: p in patterns[..i] ==> !BadHost(lib, p)
      invariant matchAll <==> ANY_HOST in patterns[..i]
      invariant matchers == MatchersOf(lib, patterns[..i])
    {
      var p := patterns[i];
      assert patterns[..i + 1][..i] == patterns[..i];
      if p == ANY_HOST {
        matchAll := true;
        continue;
      }
      if !lib.compiles(Anchored(p)) {
        assert patterns == patterns[..i] + [p] + patterns[i + 1..];
        FirstBadHostIsFirst(lib, patterns[..i], p, patterns[i + 1..]);
        return Err(p);
      }
      matchers := matchers + [Matcher(lib, p)];
    }
    assert patterns[..|patterns|] == patterns;
    return Ok(if matchAll then None else Some(matchers));
  }

  predicate AppliesToHost(rule: Rule, canonical: string) {
    rule.hostMatchers.None? || exists i :: 0 <= i < |rule.hostMatchers.value| && rule.hostMatchers.value[i](canonical)
  }

  method CheckHost(rule: Rule, canonical: string) returns (applies: bool)
    ensures applies == AppliesToHost(rule, canonical)
  {
    if rule.hostMatchers.None? {
      return true;
    }
    var ms := rule.hostMatchers.value;
    for i := 0 to |ms|
      invariant forall j :: 0 <= j < i ==> !ms[j](canonical)
    {
      if ms[i](canonical) {
        return true;
      }
    }
    return false;
  }

  ghost predicate SomePattern(lib: Library, patterns: seq<string>, canonical: string) {
    exists p :: p in patterns && lib.matches("^(?i:" + p + ")$", canonical)
  }

  /** What a hosts list promises: no list covers every host, and a listed pattern must span the whole name. */
  ghost predicate HostsCover(lib: Library, hosts: seq<string>, canonical: string) {
    hosts == [] || ".*" in hosts || SomePattern(lib, hosts, canonical)
  }

  ghost predicate SomeMatcher(ms: seq<string -> bool>, canonical: string) {
    exists m :: m in ms && m(canonical)
  }

  lemma OneMatcherMore(ms: seq<string -> bool>, m: string -> bool, canonical: string)
    ensures SomeMatcher(ms + [m], canonical) <==> SomeMatcher(ms, canonical) || m(canonical)
  {
    var all := ms + [m];
    assert all[|ms|] == m && m in all;
    assert forall x :: x in all <==> x in ms || x == m;
  }

  lemma OnePatternMore(lib: Library, patterns: seq<string>, p: string, canonical: string)
    ensures SomePattern(lib, patterns + [p], canonical)
       <==> SomePattern(lib, patterns, canonical) || lib.matches(Anchored(p), canonical)
  {
    var all := patterns + [p];
    assert all[|patterns|] == p && p in all;
    assert forall x :: x in all <==> x in patterns || x == p;
  }

  lemma {:induction false} MatchersMeanTheirPatterns(lib: Library, patterns: seq<string>, canonical: string)
    requires ANY_HOST !in patterns
    ensures SomeMatcher(MatchersOf(lib, patterns), canonical) <==> SomePattern(lib, patterns, canonical)
    decreases |patterns|
  {
    if patterns != [] {
      var n := |patterns| - 1;
      MatchersMeanTheirPatterns(lib, patterns[..n], canonical);
      assert patterns == patterns[..n] + [patterns[n]];
      OneMatcherMore(MatchersOf(lib, patterns[..n]), Matcher(lib, patterns[n]), canonical);
      OnePatternMore(lib, patterns[..n], patterns[n], canonical);
    }
  }

  // ---------- Compiling a document ----------

  function FieldSet(fields: Option<seq<string>>): Option<set<string>> {
    if fields.None? then None else Some(set f | f in fields.value)
  }

  function OrElse(s: string, fallback: string): string { if s == "" then fallback else s }

  function Replacer(lib: Library, pattern: string, replacement: string): string -> string {
    s => lib.replaceAll(pattern, replacement, s)
  }

  function CompileOne(lib: Library, defaultReplacement: string, rule: RuleSpec): Result<Rule, CompileError> {
    if rule.kind != REGEX && rule.kind != REGEX_STRUCTURED then Err(UnsupportedType(rule.name))
    else if !lib.compiles(rule.pattern) then Err(InvalidPattern(rule.name))
    else match HostMatchers(lib, rule.hosts)
      case Err(p) => Err(InvalidHost(rule.name, p))
      case Ok(matchers) =>
        var structured := rule.kind == REGEX_STRUCTURED;
        var replacement := OrElse(rule.replacement, defaultReplacement);
        Ok(Rule(
          rule.name,
          Replacer(lib, rule.pattern, replacement),
          structured,
          if structured then FieldSet(rule.redactFields) else None,
          if structured then FieldSet(rule.skipFields) else None,
          matchers))
  }

  function Compile(lib: Library, f: RulesFile): Result<seq<Rule>, CompileError> {
    CompileFrom(lib, OrElse(f.defaultReplacement, DEFAULT_REPLACEMENT), f.rules)
  }

  function CompileFrom(lib: Library, defaultReplacement: string, rules: seq<RuleSpec>): Result<seq<Rule>, CompileError> {
    if rules == [] then Ok([])
    else match CompileOne(lib, defaultReplacement, rules[0])
      case Err(e) => Err(e)
      case Ok(r) =>
        match CompileFrom(lib, defaultReplacement, rules[1..])
        case Err(e) => Err(e)
        case Ok(rest) => Ok([r] + rest)
  }

  /** The loop's body: one rule checked and compiled. */
  method CompileRule(lib: Library, defaultReplacement: string, rule: RuleSpec) returns (r: Result<Rule, CompileError>)
    ensures r == CompileOne(lib, defaultReplacement, rule)
  {
    if rule.kind != REGEX && rule.kind != REGEX_STRUCTURED {
      return Err(UnsupportedType(rule.name));
    }
    if !lib.compiles(rule.pattern) {
      return Err(InvalidPattern(rule.name));
    }
    var hosts := CompileHostMatchers(lib, rule.hosts);
    if hosts.Err? {
      return Err(InvalidHost(rule.name, hosts.error));
    }
    var structured := rule.kind == REGEX_STRUCTURED;
    var replacement := rule.replacement;
    if replacement == "" {
      replacement := defaultReplacement;
    }
    var redactFields, skipFields := None, None;
    if structured {
      redactFields, skipFields := FieldSet(rule.redactFields), FieldSet(rule.skipFields);
    }
    return Ok(Rule(rule.name, Replacer(lib, rule.pattern, replacement), structured, redactFields, skipFields, hosts.value));
  }

  method CompileRules(lib: Library, f: RulesFile) returns (r: Result<seq<Rule>, CompileError>)
    ensures r == Compile(lib, f)
  {
    var defaultReplacement := OrElse(f.defaultReplacement, DEFAULT_REPLACEMENT);
    var compiled := [];
    assert f.rules[0..] == f.rules && forall rest: seq<Rule> :: compiled + rest == rest;
    for i := 0 to |f.rules|
      invariant Compile(lib, f) ==
        match CompileFrom(lib, defaultReplacement, f.rules[i..])
        case Err(e) => Err(e)
        case Ok(rest) => Ok(compiled + rest)
    {
      assert f.rules[i..][1..] == f.rules[i + 1..];
      var one := CompileRule(lib, defaultReplacement, f.rules[i]);
      if one.Err? {
        return Err(one.error);
      }
      compiled := compiled + [one.value];
      assert forall rest: seq<Rule> :: compiled[..|compiled| - 1] + ([one.value] + rest) == compiled + rest;
    }
    assert compiled + [] == compiled;
    return Ok(compiled);
  }

  /** A filter holds just the fields its entry lists, and is absent if the entry is. */
  ghost predicate Lists(filter: Option<set<string>>, fields: Option<seq<string>>) {
    && (filter.None? <==> fields.None?)
    && (filter.Some? ==> forall f :: f in filter.value <==> f in fields.value)
  }

  /** A rule means what its document says about it: where it fires and how it rewrites. */
  ghost predicate Means(lib: Library, f: RulesFile, i: nat, rule: Rule)
    requires i < |f.rules|
  {
    var spec := f.rules[i];
    var replacement :=
      if spec.replacement != "" then spec.replacement
      else if f.defaultReplacement != "" then f.defaultReplacement
      else "[REDACTED]";
    && (spec.kind == "regex" || spec.kind == "regex-structured-data")
    && rule.structured == (spec.kind == "regex-structured-data")
    && (forall s :: rule.replace(s) == lib.replaceAll(spec.pattern, replacement, s))
    && (forall host :: AppliesToHost(rule, host) <==> HostsCover(lib, spec.hosts, host))
    && (rule.structured ==> Lists(rule.redactFields, spec.redactFields) && Lists(rule.skipFields, spec.skipFields))
  }

  ghost predicate Compilable(lib: Library, spec: RuleSpec) {
    && (spec.kind == REGEX || spec.kind == REGEX_STRUCTURED)
    && lib.compiles(spec.pattern)
    && (forall p :: p in spec.hosts ==> p == ".*" || lib.compiles("^(?i:" + p + ")$"))
  }

  lemma CompileOneMeans(lib: Library, f: RulesFile, i: nat)
    requires i < |f.rules|
    ensures
      var r := CompileOne(lib, OrElse(f.defaultReplacement, DEFAULT_REPLACEMENT), f.rules[i]);
      (r.Ok? <==> Compilable(lib, f.rules[i])) && (r.Ok? ==> Means(lib, f, i, r.value))
  {
    var spec := f.rules[i];
    var r := CompileOne(lib, OrElse(f.defaultReplacement, DEFAULT_REPLACEMENT), spec);
    if r.Ok? {
      forall host ensures AppliesToHost(r.value, host) <==> HostsCover(lib, spec.hosts, host) {
        if spec.hosts != [] && ANY_HOST !in spec.hosts {
          MatchersMeanTheirPatterns(lib, spec.hosts, host);
          var ms: seq<string -> bool> := r.value.hostMatchers.value;
          assert AppliesToHost(r.value, host) <==> SomeMatcher(ms, host);
        }
      }
    }
  }

  /**
    A document is accepted exactly when every rule in it compiles, a wildcard
    host hiding no bad pattern beside it, and then each rule means what it says.
  */
  lemma CompileMeansTheDocument(lib: Library, f: RulesFile)
    ensures Compile(lib, f).Ok? <==> forall i :: 0 <= i < |f.rules| ==> Compilable(lib, f.rules[i])
    ensures Compile(lib, f).Ok? ==>
      && |Compile(lib, f).value| == |f.rules|
      && forall i :: 0 <= i < |f.rules| ==> Means(lib, f, i, Compile(lib, f).value[i])
  {
    CompileFromMeans(lib, f, 0);
    assert f.rules[0..] == f.rules;
  }

  lemma {:induction false} CompileFromMeans(lib: Library, f: RulesFile, from: nat)
    requires from <= |f.rules|
    ensures
      var r := CompileFrom(lib, OrElse(f.defaultReplacement, DEFAULT_REPLACEMENT), f.rules[from..]);
      && (r.Ok? <==> forall i :: from <= i < |f.rules| ==> Compilable(lib, f.rules[i]))
      && (r.Ok? ==>
        && |r.value| == |f.rules| - from
        && forall j :: 0 <= j < |r.value| ==> Means(lib, f, from + j, r.value[j]))
    decreases |f.rules| - from
  {
    if from < |f.rules| {
      assert f.rules[from..][1..] == f.rules[from + 1..];
      CompileOneMeans(lib, f, from);
      CompileFromMeans(lib, f, from + 1);
      var defaultReplacement := OrElse(f.defaultReplacement, DEFAULT_REPLACEMENT);
      var r := CompileFrom(lib, defaultReplacement, f.rules[from..]);
      if r.Ok? {
        var rest := CompileFrom(lib, defaultReplacement, f.rules[from + 1..]);
        forall j | 0 <= j < |r.value| ensures Means(lib, f, from + j, r.value[j]) {
          if j > 0 {
            assert r.value[j] == rest.value[j - 1];
            assert from + 1 + (j - 1) == from + j;
          }
        }
      }
    }
  }

  // ---------- Running a rule set ----------

  /** Byte-level rules in order, each over what the ones before it left. */
  function ApplyBytes(rules: seq<Rule>, canonical: string, src: string): (string, bool)
    decreases |rules|
  {
    if rules == [] then (src, false)
    else
      var rule := rules[|rules| - 1];
      var (text, changed) := ApplyBytes(rules[..|rules| - 1], canonical, src);
      if rule.structured || !AppliesToHost(rule, canonical) then (text, changed)
      else (rule.replace(text), changed || rule.replace(text) != text)
  }

  function Active(rules: seq<Rule>, canonical: string): seq<Rule> {
    if rules == [] then []
    else
      var rule := rules[|rules| - 1];
      var earlier := Active(rules[..|rules| - 1], canonical);
      if rule.structured && AppliesToHost(rule, canonical) then earlier + [rule] else earlier
  }

  /** (out, matched) is a result of the structured rules over the one JSON document in src. */
  ghost predicate AppliedJSON(lib: Library, rules: seq<Rule>, canonical: string, src: string, r: Result<(string, bool), JsonFault>) {
    var active := Active(rules, canonical);
    if active == [] then r == Ok((src, false))
    else match lib.decode(src)
      case Err(e) => r == Err(e)
      case Ok(v) => exists out, hit :: WalkAll(v, "", active, out, hit) && r == Encoded(lib, out, hit)
  }

  ghost function Encoded(lib: Library, out: Json, hit: bool): Result<(string, bool), JsonFault> {
    match lib.encode(out)
    case Err(e) => Err(e)
    case Ok(text) => Ok((text, hit))
  }

  class Redactor {
    const lib: Library
    var rules: seq<Rule>

    constructor (lib: Library)
      ensures this.lib == lib && rules == []
    {
      this.lib := lib;
      rules := [];
    }

    /** Replaces the whole rule set, or on any error none of it. */
    method Update(f: RulesFile) returns (r: Result<nat, CompileError>)
      modifies this
      ensures r.Ok? <==> Compile(lib, f).Ok?
      ensures r.Ok? ==> rules == Compile(lib, f).value && r.value == |f.rules|
      ensures r.Err? ==> rules == old(rules) && r.error == Compile(lib, f).error
    {
      var compiled := CompileRules(lib, f);
      if compiled.Err? {
        return Err(compiled.error);
      }
      CompileMeansTheDocument(lib, f);
      rules := compiled.value;
      return Ok(|f.rules|);
    }

    method HasRulesForHost(host: string) returns (any: bool)
      ensures any <==> exists r :: r in rules && AppliesToHost(r, lib.canonicalHost(host))
    {
      var canonical := lib.canonicalHost(host);
      for i := 0 to |rules|
        invariant forall j :: 0 <= j < i ==> !AppliesToHost(rules[j], canonical)
      {
        var applies := CheckHost(rules[i], canonical);
        if applies {
          return true;
        }
      }
      return false;
    }

    method Apply(host: string, src: string) returns (out: string, changed: bool)
      ensures (out, changed) == ApplyBytes(rules, lib.canonicalHost(host), src)
    {
      out, changed := src, false;
      if |rules| == 0 {
        return;
      }
      var canonical := lib.canonicalHost(host);
      for i := 0 to |rules|
        invariant (out, changed) == ApplyBytes(rules[..i], canonical, src)
      {
        assert rules[..i + 1][..i] == rules[..i];
        var applies := CheckHost(rules[i], canonical);
        if rules[i].structured || !applies {
          continue;
        }
        var ruleChanged;
        out, ruleChanged := ApplyOneRule(rules[i], out);
        changed := changed || ruleChanged;
      }
      assert rules[..|rules|] == rules;
    }

    method ApplyJSON(host: string, src: string) returns (r: Result<(string, bool), JsonFault>)
      ensures AppliedJSON(lib, rules, lib.canonicalHost(host), src, r)
    {
      var canonical := lib.canonicalHost(host);
      var active := [];
      for i := 0 to |rules|
        invariant active == Active(rules[..i], canonical)
      {
        assert rules[..i + 1][..i] == rules[..i];
        var applies := CheckHost(rules[i], canonical);
        if rules[i].structured && applies {
          active := active + [rules[i]];
        }
      }
      assert rules[..|rules|] == rules;
      if |active| == 0 {
        return Ok((src, false));
      }
      var value := lib.decode(src);
      if value.Err? {
        return Err(value.error);
      }
      var matched := new Flag();
      var redacted := RedactValue(value.value, "", active, matched);
      var text := lib.encode(redacted);
      if text.Err? {
        return Err(text.error);
      }
      return Ok((text.value, matched.raised));
    }
  }

  /** A body on which no byte-level rule changed anything is the body that came in. */
  lemma {:induction false} UnchangedBytes(rules: seq<Rule>, canonical: string, src: string)
    ensures !ApplyBytes(rules, canonical, src).1 ==> ApplyBytes(rules, canonical, src).0 == src
    decreases |rules|
  {
    if rules != [] {
      UnchangedBytes(rules[..|rules| - 1], canonical, src);
    }
  }

  /** A reported match of false means the document is the one decoded, re-encoded; or src itself, never parsed. */
  lemma UnmatchedDocument(lib: Library, rules: seq<Rule>, canonical: string, src: string, r: Result<(string, bool), JsonFault>)
    requires AppliedJSON(lib, rules, canonical, src, r) && r.Ok? && !r.value.1
    ensures if Active(rules, canonical) == [] then r.value.0 == src
            else lib.decode(src).Ok? && lib.encode(lib.decode(src).value) == Ok(r.value.0)
  {
    var active := Active(rules, canonical);
    if active != [] {
      var v := lib.decode(src).value;
      var out, hit :| WalkAll(v, "", active, out, hit) && r == Encoded(lib, out, hit);
      UnmatchedIsUnchanged(v, "", active, out);
    }
  }

  /** The gate and the rules agree: on a host the gate says no rule covers, both paths leave any body alone. */
  lemma {:induction false} UncoveredHostIsUntouched(lib: Library, rules: seq<Rule>, canonical: string, src: string)
    requires forall r :: r in rules ==> !AppliesToHost(r, canonical)
    ensures ApplyBytes(rules, canonical, src) == (src, false)
    ensures Active(rules, canonical) == []
    ensures forall r :: AppliedJSON(lib, rules, canonical, src, r) <==> r == Ok((src, false))
    decreases |rules|
  {
    if rules != [] {
      UncoveredHostIsUntouched(lib, rules[..|rules| - 1], canonical, src);
      assert rules[|rules| - 1] in rules;
    }
  }
}
