/**
  The two loads of the rule set in internal/upstream/redact.go's redact: ApplyJSON
  reads the set, then Apply reads it again, and the config loader's goroutine may
  have replaced it between. What such a body is given, and exactly when it is what
  one of the two sets alone would have given.
*/
module RuleLoads {
  import opened Wrappers
  import opened RedactWalk
  import opened RedactRules

  /** The set the structured pass loads, and the set the byte-level pass loads after it. */
  datatype Loads = Loads(fields: seq<Rule>, bytes: seq<Rule>)

  /** The set in force once an update, if one comes, has been made or rejected. */
  function Landed(lib: Library, rules: seq<Rule>, landing: Option<RulesFile>): seq<Rule> {
    match landing
    case None => rules
    case Some(f) => match Compile(lib, f) case Err(_) => rules case Ok(compiled) => compiled
  }

  ghost function ThenBytes(rules: seq<Rule>, canonical: string, fields: Result<(string, bool), JsonFault>)
    : Result<(string, bool), JsonFault>
  {
    match fields
    case Err(e) => Err(e)
    case Ok((text, matched)) =>
      var (out, changed) := ApplyBytes(rules, canonical, text);
      Ok((out, matched || changed))
  }

  /** What the passes may make of a JSON body: (text, whether some rule changed something). */
  ghost predicate OnJSON(lib: Library, loads: Loads, canonical: string, plain: string, r: Result<(string, bool), JsonFault>) {
    exists fields :: AppliedJSON(lib, loads.fields, canonical, plain, fields) && r == ThenBytes(loads.bytes, canonical, fields)
  }

  ghost predicate RedactedTo(lib: Library, loads: Loads, canonical: string, json: bool, plain: string,
                             r: Result<(string, bool), JsonFault>) {
    if json then OnJSON(lib, loads, canonical, plain, r) else r == Ok(ApplyBytes(loads.bytes, canonical, plain))
  }

  // ---------- Bodies no single set would have given ----------

  /** Whatever the codec and the JSON body, the two pairs of loads may give the same. */
  ghost predicate SameOnEveryBody(a: Loads, b: Loads, canonical: string) {
    forall lib, plain, r :: OnJSON(lib, a, canonical, plain, r) <==> OnJSON(lib, b, canonical, plain, r)
  }

  /** The byte-level rules of the two sets that cover the host do the same to every text. */
  ghost predicate BytesAgree(a: seq<Rule>, b: seq<Rule>, canonical: string) {
    forall text :: ApplyBytes(a, canonical, text) == ApplyBytes(b, canonical, text)
  }

  /** Some text is left alone by the byte-level rules, so that whether a structured rule hit can be seen. */
  ghost predicate LeavesSome(rules: seq<Rule>, canonical: string) {
    exists text :: !ApplyBytes(rules, canonical, text).1
  }

  /** The structured rules covering the host may turn v into out, having hit as told, if that matters. */
  ghost predicate Reaches(rules: seq<Rule>, canonical: string, v: Json, out: Json, hit: bool, matters: bool) {
    exists h :: WalkAll(v, "", Active(rules, canonical), out, h) && (matters ==> h == hit)
  }

  /** Both sets have structured rules for the host or neither has, and they do the same to every document. */
  ghost predicate FieldsAgree(a: seq<Rule>, b: seq<Rule>, canonical: string, matters: bool) {
    && (Active(a, canonical) == [] <==> Active(b, canonical) == [])
    && (Active(a, canonical) != [] ==>
      forall v, out, hit :: Reaches(a, canonical, v, out, hit, matters) <==> Reaches(b, canonical, v, out, hit, matters))
  }

  lemma {:induction false} NullStays(rules: seq<Rule>, out: Json, hit: bool)
    ensures WalkAll(Null, "", rules, out, hit) <==> out == Null && !hit
    decreases |rules|
  {
    if rules != [] {
      var earlier, last := rules[..|rules| - 1], rules[|rules| - 1];
      forall mid, before ensures WalkAll(Null, "", earlier, mid, before) <==> mid == Null && !before {
        NullStays(earlier, mid, before);
      }
      assert WalkAll(Null, "", earlier, Null, false) && WalkOne(Null, false, "", last, Null, false);
      assert WalkAllThen(Null, "", earlier, last, Null, false);
      if WalkAllThen(Null, "", earlier, last, out, hit) {
        var mid, before :| WalkAll(Null, "", earlier, mid, before) && WalkOne(mid, before, "", last, out, hit);
        assert mid == Null && !before;
      }
    }
  }

  /** A codec of which only decoding and encoding matter. */
  function CodecOnly(decode: string -> Result<Json, JsonFault>, encode: Json -> Result<string, JsonFault>): Library {
    Library(_ => true, (p, r, s) => s, (p, h) => true, h => h, decode, encode)
  }

  /** Some codec and body bring the structured pass, whatever its rules, to exactly this text with no hit. */
  lemma AnyTextArrives(rules: seq<Rule>, canonical: string, text: string) returns (lib: Library, plain: string)
    ensures forall r :: AppliedJSON(lib, rules, canonical, plain, r) <==> r == Ok((text, false))
  {
    lib, plain := CodecOnly(_ => Ok(Null), _ => Ok(text)), text;
    var active := Active(rules, canonical);
    forall r ensures active != [] ==> (AppliedJSON(lib, rules, canonical, plain, r) <==> r == Ok((text, false))) {
      NullStays(active, Null, false);
      assert r == Ok((text, false)) ==> r == Encoded(lib, Null, false);
      if out, hit :| active != [] && WalkAll(Null, "", active, out, hit) && r == Encoded(lib, out, hit) {
        NullStays(active, out, hit);
      }
    }
  }

  lemma OnlyResult(lib: Library, loads: Loads, canonical: string, plain: string, text: string)
    requires forall r :: AppliedJSON(lib, loads.fields, canonical, plain, r) <==> r == Ok((text, false))
    ensures forall r :: OnJSON(lib, loads, canonical, plain, r) <==> r == Ok(ApplyBytes(loads.bytes, canonical, text))
  {
    var fields: Result<(string, bool), JsonFault> := Ok((text, false));
    assert AppliedJSON(lib, loads.fields, canonical, plain, fields);
  }

  /** An update between the loads shows on no body, as the old set alone has it, exactly when the byte-level rules agree. */
  lemma UnseenByTheOldSet(before: seq<Rule>, now: seq<Rule>, canonical: string)
    ensures SameOnEveryBody(Loads(before, now), Loads(before, before), canonical) <==> BytesAgree(now, before, canonical)
  {
    var mixed, alone := Loads(before, now), Loads(before, before);
    if SameOnEveryBody(mixed, alone, canonical) {
      forall text ensures ApplyBytes(now, canonical, text) == ApplyBytes(before, canonical, text) {
        var lib, plain := AnyTextArrives(before, canonical, text);
        OnlyResult(lib, mixed, canonical, plain, text);
        OnlyResult(lib, alone, canonical, plain, text);
        assert OnJSON(lib, alone, canonical, plain, Ok(ApplyBytes(now, canonical, text)));
      }
    }
    if BytesAgree(now, before, canonical) {
      forall lib, plain, r ensures OnJSON(lib, mixed, canonical, plain, r) <==> OnJSON(lib, alone, canonical, plain, r) {
        forall fields ensures ThenBytes(now, canonical, fields) == ThenBytes(before, canonical, fields) {
        }
      }
    }
  }

  /** A codec that decodes every text to v and encodes out alone. */
  function OneDocument(v: Json, out: Json, text: string): Library {
    CodecOnly(_ => Ok(v), x => if x == out then Ok(text) else Err(DoesNotMarshal))
  }

  lemma OneDocumentGives(rules: seq<Rule>, bytes: seq<Rule>, canonical: string, v: Json, out: Json, text: string, hit: bool)
    requires Active(rules, canonical) != []
    requires Reaches(rules, canonical, v, out, hit, !ApplyBytes(bytes, canonical, text).1)
    ensures OnJSON(OneDocument(v, out, text), Loads(rules, bytes), canonical, "", Given(bytes, canonical, text, hit))
  {
    var lib, active := OneDocument(v, out, text), Active(rules, canonical);
    var h :| WalkAll(v, "", active, out, h) && (!ApplyBytes(bytes, canonical, text).1 ==> h == hit);
    var fields: Result<(string, bool), JsonFault> := Ok((text, h));
    assert fields == Encoded(lib, out, h);
    assert AppliedJSON(lib, rules, canonical, "", fields);
    assert Given(bytes, canonical, text, hit) == ThenBytes(bytes, canonical, fields);
  }

  lemma OneDocumentTakes(rules: seq<Rule>, bytes: seq<Rule>, canonical: string, v: Json, out: Json, text: string, hit: bool)
    requires Active(rules, canonical) != []
    requires OnJSON(OneDocument(v, out, text), Loads(rules, bytes), canonical, "", Given(bytes, canonical, text, hit))
    ensures Reaches(rules, canonical, v, out, hit, !ApplyBytes(bytes, canonical, text).1)
  {
    var lib, active := OneDocument(v, out, text), Active(rules, canonical);
    var fields :| AppliedJSON(lib, rules, canonical, "", fields)
      && Given(bytes, canonical, text, hit) == ThenBytes(bytes, canonical, fields);
    var x, h :| WalkAll(v, "", active, x, h) && fields == Encoded(lib, x, h);
    assert x == out;
  }

  /** What the byte-level rules make of a text whose structured pass hit as told. */
  ghost function Given(bytes: seq<Rule>, canonical: string, text: string, hit: bool): Result<(string, bool), JsonFault> {
    var (out, changed) := ApplyBytes(bytes, canonical, text);
    Ok((out, hit || changed))
  }

  /** A codec that decodes nothing. */
  const NO_DECODER := CodecOnly(_ => Err(DoesNotParse), _ => Err(DoesNotMarshal))

  lemma NothingDecodes(loads: Loads, canonical: string)
    ensures OnJSON(NO_DECODER, loads, canonical, "", Err(DoesNotParse)) <==> Active(loads.fields, canonical) != []
  {
    var fields: Result<(string, bool), JsonFault> := Err(DoesNotParse);
    if Active(loads.fields, canonical) != [] {
      assert AppliedJSON(NO_DECODER, loads.fields, canonical, "", fields);
    }
  }

  lemma FieldsAgreeIfUnseen(before: seq<Rule>, now: seq<Rule>, canonical: string)
    requires SameOnEveryBody(Loads(before, now), Loads(now, now), canonical)
    ensures FieldsAgree(before, now, canonical, LeavesSome(now, canonical))
  {
    NothingDecodes(Loads(before, now), canonical);
    NothingDecodes(Loads(now, now), canonical);
    if Active(before, canonical) != [] {
      var matters := LeavesSome(now, canonical);
      var text := if matters then var t :| !ApplyBytes(now, canonical, t).1; t else "";
      forall v, out, hit
        ensures Reaches(before, canonical, v, out, hit, matters) <==> Reaches(now, canonical, v, out, hit, matters)
      {
        assert matters == !ApplyBytes(now, canonical, text).1;
        if Reaches(before, canonical, v, out, hit, matters) {
          OneDocumentGives(before, now, canonical, v, out, text, hit);
          OneDocumentTakes(now, now, canonical, v, out, text, hit);
        }
        if Reaches(now, canonical, v, out, hit, matters) {
          OneDocumentGives(now, now, canonical, v, out, text, hit);
          OneDocumentTakes(before, now, canonical, v, out, text, hit);
        }
      }
    }
  }

  lemma FieldsAgreeGives(a: seq<Rule>, b: seq<Rule>, bytes: seq<Rule>, lib: Library, canonical: string, plain: string,
                         r: Result<(string, bool), JsonFault>)
    requires FieldsAgree(a, b, canonical, LeavesSome(bytes, canonical))
    requires OnJSON(lib, Loads(a, bytes), canonical, plain, r)
    ensures OnJSON(lib, Loads(b, bytes), canonical, plain, r)
  {
    var fields :| AppliedJSON(lib, a, canonical, plain, fields) && r == ThenBytes(bytes, canonical, fields);
    if Active(a, canonical) == [] || lib.decode(plain).Err? {
      assert AppliedJSON(lib, b, canonical, plain, fields);
    } else {
      var v, matters := lib.decode(plain).value, LeavesSome(bytes, canonical);
      var out, hit :| WalkAll(v, "", Active(a, canonical), out, hit) && fields == Encoded(lib, out, hit);
      assert Reaches(a, canonical, v, out, hit, matters);
      assert Reaches(b, canonical, v, out, hit, matters);
      var h :| WalkAll(v, "", Active(b, canonical), out, h) && (matters ==> h == hit);
      assert AppliedJSON(lib, b, canonical, plain, Encoded(lib, out, h));
      assert r == ThenBytes(bytes, canonical, Encoded(lib, out, h));
    }
  }

  /**
    It shows on no body, as the new set alone has it, exactly when the structured rules
    agree; whether they hit need not agree if the byte-level rules change every text.
  */
  lemma UnseenByTheNewSet(before: seq<Rule>, now: seq<Rule>, canonical: string)
    ensures SameOnEveryBody(Loads(before, now), Loads(now, now), canonical)
       <==> FieldsAgree(before, now, canonical, LeavesSome(now, canonical))
  {
    if SameOnEveryBody(Loads(before, now), Loads(now, now), canonical) {
      FieldsAgreeIfUnseen(before, now, canonical);
    }
    if FieldsAgree(before, now, canonical, LeavesSome(now, canonical)) {
      forall lib, plain, r
        ensures OnJSON(lib, Loads(before, now), canonical, plain, r) <==> OnJSON(lib, Loads(now, now), canonical, plain, r)
      {
        if OnJSON(lib, Loads(before, now), canonical, plain, r) {
          FieldsAgreeGives(before, now, now, lib, canonical, plain, r);
        }
        if OnJSON(lib, Loads(now, now), canonical, plain, r) {
          FieldsAgreeGives(now, before, now, lib, canonical, plain, r);
        }
      }
    }
  }

  // ---------- What a caller can compare ----------

  /** The byte-level rules that cover the host, in order. */
  function Bytewise(rules: seq<Rule>, canonical: string): seq<Rule> {
    if rules == [] then []
    else
      var rule := rules[|rules| - 1];
      var earlier := Bytewise(rules[..|rules| - 1], canonical);
      if !rule.structured && AppliesToHost(rule, canonical) then earlier + [rule] else earlier
  }

  lemma {:induction false} OnlyBytewiseMatters(rules: seq<Rule>, canonical: string, src: string)
    ensures ApplyBytes(rules, canonical, src) == ApplyBytes(Bytewise(rules, canonical), canonical, src)
    decreases |rules|
  {
    if rules != [] {
      var n := |rules| - 1;
      OnlyBytewiseMatters(rules[..n], canonical, src);
      if !rules[n].structured && AppliesToHost(rules[n], canonical) {
        assert Bytewise(rules, canonical)[..|Bytewise(rules, canonical)| - 1] == Bytewise(rules[..n], canonical);
      }
    }
  }

  /** If the sets have the same byte-level rules for the host, or the same structured ones, no body shows the update. */
  lemma SameRulesForTheHost(before: seq<Rule>, now: seq<Rule>, canonical: string)
    ensures Bytewise(before, canonical) == Bytewise(now, canonical) ==>
      SameOnEveryBody(Loads(before, now), Loads(before, before), canonical)
    ensures Active(before, canonical) == Active(now, canonical) ==>
      SameOnEveryBody(Loads(before, now), Loads(now, now), canonical)
  {
    if Bytewise(before, canonical) == Bytewise(now, canonical) {
      forall text ensures ApplyBytes(now, canonical, text) == ApplyBytes(before, canonical, text) {
        OnlyBytewiseMatters(before, canonical, text);
        OnlyBytewiseMatters(now, canonical, text);
      }
      UnseenByTheOldSet(before, now, canonical);
    }
    if Active(before, canonical) == Active(now, canonical) {
      UnseenByTheNewSet(before, now, canonical);
    }
  }

  // ---------- A rule that changes kind ----------

  function OfKind(replace: string -> string, structured: bool): Rule {
    Rule("r", replace, structured, None, None, None)
  }

  lemma OneRule(replace: string -> string, host: string, text: string)
    ensures ApplyBytes([OfKind(replace, false)], host, text) == (replace(text), replace(text) != text)
    ensures ApplyBytes([OfKind(replace, true)], host, text) == (text, false)
    ensures Active([OfKind(replace, false)], host) == [] && Active([OfKind(replace, true)], host) == [OfKind(replace, true)]
  {
    var asBytes, asFields := [OfKind(replace, false)], [OfKind(replace, true)];
    assert asBytes[..0] == [] && asFields[..0] == [];
    assert ApplyBytes([], host, text) == (text, false) && Active([], host) == [];
  }

  lemma OneWalkOfText(rule: Rule, s: string, out: Json, hit: bool)
    requires rule == OfKind(rule.replace, true)
    ensures WalkAll(Str(s), "", [rule], out, hit) <==> out == Str(rule.replace(s)) && hit == (rule.replace(s) != s)
  {
    var rules := [rule];
    assert rules[..0] == [] && rules[|rules| - 1] == rule;
    assert WalkAll(Str(s), "", [], Str(s), false);
    if out == Str(rule.replace(s)) && hit == (rule.replace(s) != s) {
      assert WalkOne(Str(s), false, "", rule, out, hit);
    }
  }

  lemma StructuredAlone(replace: string -> string, lib: Library, s: string, src: string, host: string,
                        r: Result<(string, bool), JsonFault>)
    requires lib.decode(src) == Ok(Str(s)) && replace(s) != s
    ensures
      var rules := [OfKind(replace, true)];
      OnJSON(lib, Loads(rules, rules), host, src, r) <==> r == Encoded(lib, Str(replace(s)), true)
  {
    var rule := OfKind(replace, true);
    var end := Encoded(lib, Str(replace(s)), true);
    OneRule(replace, host, src);
    if end.Ok? {
      OneRule(replace, host, end.value.0);
    }
    OneWalkOfText(rule, s, Str(replace(s)), true);
    assert AppliedJSON(lib, [rule], host, src, end);
    assert ThenBytes([rule], host, end) == end;
    if OnJSON(lib, Loads([rule], [rule]), host, src, r) {
      var fields :| AppliedJSON(lib, [rule], host, src, fields) && r == ThenBytes([rule], host, fields);
      var out, hit :| WalkAll(Str(s), "", [rule], out, hit) && fields == Encoded(lib, out, hit);
      OneWalkOfText(rule, s, out, hit);
    }
  }

  /**
    A rule that moves from the byte-level kind to the structured one between the loads
    is run by neither pass: the body leaves as it came, with no flag, though it covers
    every host in both sets and either alone rewrites it.
  */
  lemma ChangedKindIsMissed(replace: string -> string, lib: Library, s: string, src: string, canonical: string)
    requires lib.decode(src) == Ok(Str(s)) && replace(s) != s && replace(src) != src
    ensures
      var asBytes, asFields := [OfKind(replace, false)], [OfKind(replace, true)];
      && AppliesToHost(asBytes[0], canonical) && AppliesToHost(asFields[0], canonical)
      && (forall r :: OnJSON(lib, Loads(asBytes, asFields), canonical, src, r) <==> r == Ok((src, false)))
      && (forall r :: OnJSON(lib, Loads(asBytes, asBytes), canonical, src, r) <==> r == Ok((replace(src), true)))
      && (forall r :: OnJSON(lib, Loads(asFields, asFields), canonical, src, r)
                 <==> r == Encoded(lib, Str(replace(s)), true))
  {
    var asBytes, asFields := [OfKind(replace, false)], [OfKind(replace, true)];
    OneRule(replace, canonical, src);
    OnlyResult(lib, Loads(asBytes, asFields), canonical, src, src);
    OnlyResult(lib, Loads(asBytes, asBytes), canonical, src, src);
    forall r ensures OnJSON(lib, Loads(asFields, asFields), canonical, src, r) <==> r == Encoded(lib, Str(replace(s)), true) {
      StructuredAlone(replace, lib, s, src, canonical, r);
    }
  }

  const ONE := ['"', '1', '"']
  const REDACTED_ONE := ['"', 'x', '"']

  /** What a rule that redacts the digit 1 makes of that digit, quoted or not. */
  function RedactOne(text: string): string {
    if text == "1" then "x" else if text == ONE then REDACTED_ONE else text
  }

  function Quoted(v: Json): Result<string, JsonFault> {
    if v.Str? then Ok(['"'] + v.s + ['"']) else Err(DoesNotMarshal)
  }

  /** Such an input: the document that is the string 1. */
  lemma ChangedKindInput(canonical: string)
    ensures
      var lib := CodecOnly(_ => Ok(Str("1")), Quoted);
      var asBytes, asFields := [OfKind(RedactOne, false)], [OfKind(RedactOne, true)];
      && (forall r :: OnJSON(lib, Loads(asBytes, asFields), canonical, ONE, r) <==> r == Ok((ONE, false)))
      && (forall r :: OnJSON(lib, Loads(asBytes, asBytes), canonical, ONE, r) <==> r == Ok((REDACTED_ONE, true)))
      && (forall r :: OnJSON(lib, Loads(asFields, asFields), canonical, ONE, r) <==> r == Ok((REDACTED_ONE, true)))
  {
    var lib := CodecOnly(_ => Ok(Str("1")), Quoted);
    assert |ONE| == 3 && |"1"| == 1;
    assert ['"'] + "x" + ['"'] == REDACTED_ONE;
    assert Encoded(lib, Str(RedactOne("1")), true) == Ok((REDACTED_ONE, true));
    ChangedKindIsMissed(RedactOne, lib, "1", ONE, canonical);
  }
}
