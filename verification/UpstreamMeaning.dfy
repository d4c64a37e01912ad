/**
  What a covered response of internal/upstream/redact.go comes to, in terms of its
  status, its type, what is read of its body and the rules run over it: which ones
  are refused and why, and what the body and the flag of the others are.
*/
module UpstreamMeaning {
  import opened Wrappers
  import opened RedactWalk
  import opened RedactRules
  import opened RuleChains
  import opened RuleLoads
  import opened Upstream

  // ---------- Types ----------

  ghost predicate EndsWith(s: string, suffix: string) { exists head :: s == head + suffix }

  ghost predicate JSONType(mt: string) {
    mt == "application/json" || mt == "text/json" || EndsWith(mt, "+json")
  }

  /** The types whose bodies are text: no type, text, JSON, XML and a few applications. */
  ghost predicate TextType(mt: string) {
    || mt == ""
    || (exists rest :: mt == "text/" + rest)
    || JSONType(mt)
    || EndsWith(mt, "+xml")
    || mt == "application/xml" || mt == "application/javascript" || mt == "application/x-www-form-urlencoded"
    || mt == "application/yaml" || mt == "application/x-ndjson"
  }

  /** A switch of protocols, an event stream, gRPC, or a type that is no text. */
  ghost predicate NoBodyToRedact(status: nat, codec: Codec, mt: string) {
    || status == 101
    || mt == "text/event-stream"
    || (exists rest :: codec.mediaType(mt) == "application/grpc" + rest)
    || !TextType(mt)
  }

  lemma SuffixMeans(s: string, suffix: string)
    ensures HasSuffix(s, suffix) <==> EndsWith(s, suffix)
  {
    if HasSuffix(s, suffix) {
      assert s == s[..|s| - |suffix|] + suffix;
    }
  }

  lemma PrefixMeans(s: string, prefix: string)
    ensures prefix <= s <==> exists rest :: s == prefix + rest
  {
    if prefix <= s {
      assert s == prefix + s[|prefix|..];
    }
  }

  lemma JSONTypeMeans(mt: string)
    ensures IsJSON(mt) <==> JSONType(mt)
  {
    SuffixMeans(mt, "+json");
  }

  lemma TextTypeMeans(mt: string)
    ensures Redactable(mt) <==> TextType(mt)
  {
    JSONTypeMeans(mt);
    SuffixMeans(mt, "+xml");
    PrefixMeans(mt, "text/");
  }

  lemma NoBodyMeans(status: nat, codec: Codec, mt: string)
    ensures CannotRedact(status, codec, mt) <==> NoBodyToRedact(status, codec, mt)
  {
    TextTypeMeans(mt);
    PrefixMeans(codec.mediaType(mt), "application/grpc");
  }

  /** A type that begins like no text, ends like neither JSON nor XML, and is none of the applications is no text. */
  lemma NoText(mt: string)
    requires mt != "" && mt[0] != 't' && mt[|mt| - 1] != 'n' && mt[|mt| - 1] != 'l'
    requires |mt| != |"application/javascript"| && |mt| != |"application/x-www-form-urlencoded"|
    ensures !TextType(mt)
  {
    PrefixMeans(mt, "text/");
    SuffixMeans(mt, "+json");
    SuffixMeans(mt, "+xml");
  }

  /** Some of the types a rule could only corrupt. */
  lemma BinaryTypes(codec: Codec, status: nat)
    ensures NoBodyToRedact(status, codec, "application/pdf")
    ensures NoBodyToRedact(status, codec, "application/octet-stream")
    ensures NoBodyToRedact(status, codec, "image/png")
  {
    NoText("application/pdf");
    NoText("application/octet-stream");
    NoText("image/png");
  }

  // ---------- The namespace ----------

  predicate SameLetter(a: char, b: char) {
    a == b || ('A' <= a <= 'Z' && b as int == a as int + 32) || ('A' <= b <= 'Z' && a as int == b as int + 32)
  }

  const NAMESPACE := "x-traversal-"

  /** The headers no destination may send are those that begin with the connector's prefix, in any case. */
  lemma NamespaceExactly(name: string)
    ensures TraversalName(name) <==> |name| >= 12 && forall i :: 0 <= i < 12 ==> SameLetter(name[i], NAMESPACE[i])
  {
    assert |TRAVERSAL_HEADERS| == 12 && |NAMESPACE| == 12;
    assert forall i :: 0 <= i < 12 ==> Lower(TRAVERSAL_HEADERS[i]) == NAMESPACE[i];
    assert forall i :: 0 <= i < 12 ==> !('A' <= NAMESPACE[i] <= 'Z');
    forall a: char, i | 0 <= i < 12 ensures Lower(a) == NAMESPACE[i] <==> SameLetter(a, NAMESPACE[i]) {
    }
  }

  // ---------- Refusals ----------

  predicate Over(bytes: string, limit: int) { limit > 0 && |bytes| > limit }

  /** A body is sent as it came if there is nothing in it, on the wire or once inflated. */
  ghost predicate Empty(codec: Codec, coding: Coding, w: Wire) {
    w.bytes == "" || (coding == Gzip && codec.inflate(w.bytes).bytes == "")
  }

  /** What a body past its head comes to, by what first goes wrong in reading it; Some(None) is a body that is empty. */
  ghost predicate BodyFate(codec: Codec, limits: Limits, coding: Coding, json: bool, w: Wire, refused: Option<Refusal>) {
    var inflated := codec.inflate(w.bytes);
    if w.late then refused == Some(NoEnd)
    else if Over(w.bytes, limits.maxBody) then refused == Some(BodyTooLarge)
    else if w.broken then refused == Some(DecodeFailed)
    else if w.bytes == "" then refused == None
    else if coding == Undecodable then refused == Some(UnsupportedEncoding)
    else if coding == Gzip && Over(inflated.bytes, limits.maxDecoded) then refused == Some(DecodedTooLarge)
    else if coding == Gzip && inflated.broken then refused == Some(DecodeFailed)
    else if coding == Gzip && inflated.bytes == "" then refused == None
    else refused == None || (json && refused == Some(MalformedJSON)) || (coding == Gzip && refused == Some(EncodeFailed))
  }

  lemma BodyFateMeans(codec: Codec, limits: Limits, lib: Library, loads: Loads, canonical: string, coding: Coding, json: bool,
                      w: Wire, refused: Option<Refusal>, body: string, how: Handling)
    requires BodyOutcome(codec, limits, lib, loads, canonical, coding, json, w, refused, body, how)
    ensures BodyFate(codec, limits, coding, json, w, refused)
  {
  }

  /** A covered response is refused for what it is, then as a part, then for want of a slot, then by its body: in that order, and for nothing else. */
  lemma RefusedInOrder(codec: Codec, limits: Limits, lib: Library, loads: Loads, canonical: string, status: nat, h: Header,
                       slot: Option<Refusal>, w: Wire, refused: Option<Refusal>, body: string, how: Handling)
    requires Outcome(codec, limits, lib, loads, canonical, status, h, slot, w, refused, body, how)
    ensures
      var mt := codec.mediaType(First(h, "Content-Type"));
      if NoBodyToRedact(status, codec, mt) then refused == Some(Unredactable)
      else if status == 206 then refused == Some(PartialContent)
      else if slot.Some? then refused == slot
      else BodyFate(codec, limits, CodingOf(codec, h), JSONType(mt), w, refused)
  {
    var mt := codec.mediaType(First(h, "Content-Type"));
    NoBodyMeans(status, codec, mt);
    JSONTypeMeans(mt);
    if !NoBodyToRedact(status, codec, mt) && status != 206 && slot.None? {
      BodyFateMeans(codec, limits, lib, loads, canonical, CodingOf(codec, h), IsJSON(mt), w, refused, body, how);
    }
  }

  /** Whatever the rules, nothing else gets through: an accepted covered response was text, whole, in time and within the limits. */
  lemma AcceptedWasRedactable(codec: Codec, limits: Limits, lib: Library, loads: Loads, canonical: string, status: nat, h: Header,
                              slot: Option<Refusal>, w: Wire, body: string, how: Handling)
    requires Outcome(codec, limits, lib, loads, canonical, status, h, slot, w, None, body, how)
    ensures
      var mt := codec.mediaType(First(h, "Content-Type"));
      && status != 101 && status != 206 && slot == None
      && TextType(mt) && mt != "text/event-stream" && !(exists rest :: codec.mediaType(mt) == "application/grpc" + rest)
      && ((forall t :: codec.mediaType(codec.mediaType(t)) == codec.mediaType(t)) ==>
        !(exists rest :: mt == "application/grpc" + rest))
      && !w.late && !w.broken && !Over(w.bytes, limits.maxBody)
      && (w.bytes != "" ==> CodingOf(codec, h) != Undecodable)
      && (w.bytes != "" && CodingOf(codec, h) == Gzip ==>
        !codec.inflate(w.bytes).broken && !Over(codec.inflate(w.bytes).bytes, limits.maxDecoded))
  {
    RefusedInOrder(codec, limits, lib, loads, canonical, status, h, slot, w, None, body, how);
  }

  /** And the other way: such a response in no coding that is not JSON is accepted. */
  lemma RedactableIsAccepted(codec: Codec, limits: Limits, lib: Library, loads: Loads, canonical: string, status: nat, h: Header,
                             w: Wire, refused: Option<Refusal>, body: string, how: Handling)
    requires Outcome(codec, limits, lib, loads, canonical, status, h, None, w, refused, body, how)
    requires
      var mt := codec.mediaType(First(h, "Content-Type"));
      && status != 101 && status != 206
      && TextType(mt) && mt != "text/event-stream" && !(exists rest :: codec.mediaType(mt) == "application/grpc" + rest)
      && !w.late && !w.broken && !Over(w.bytes, limits.maxBody)
      && CodingOf(codec, h) == Identity && !JSONType(mt)
    ensures refused == None
  {
    RefusedInOrder(codec, limits, lib, loads, canonical, status, h, None, w, refused, body, how);
  }

  // ---------- Bodies ----------

  /** The bytes that bring this text in the body's coding. */
  ghost predicate Brings(codec: Codec, coding: Coding, body: string, text: string) {
    if coding == Gzip then codec.deflate(text) == Some(body) else body == text
  }

  /** The plaintext there is of a body that is not empty. */
  ghost function PlainOf(codec: Codec, coding: Coding, w: Wire): string {
    if coding == Gzip then codec.inflate(w.bytes).bytes else w.bytes
  }

  lemma NotEmptyIsRewritten(codec: Codec, limits: Limits, lib: Library, loads: Loads, canonical: string, h: Header, w: Wire,
                            body: string, how: Handling)
    requires Carries(codec, limits, lib, loads, canonical, h, w, body, how)
    ensures
      var coding := CodingOf(codec, h);
      if Empty(codec, coding, w) then how == AsItCame && body == w.bytes
      else
        && how.Rewritten? && how.plain == PlainOf(codec, coding, w) && Brings(codec, coding, body, how.text)
        && RedactedTo(lib, loads, canonical, IsJSON(codec.mediaType(First(h, CONTENT_TYPE))), how.plain, Ok((how.text, how.changed)))
  {
  }

  ghost predicate Flagged(h: Header) { "X-Traversal-Redacted" in h }

  lemma FlaggedIsChanged(codec: Codec, h: Header, coding: Coding, came: string, sent: string, how: Handling)
    requires forall name :: name in h ==> !TraversalName(name)
    ensures Flagged(SentHeader(codec, h, coding, came, sent, how)) <==> how.Rewritten? && how.changed
  {
    FlagAndLength(codec, h, coding, came, sent, how);
  }

  /** An accepted covered response, with the header Respond sends it with. */
  ghost predicate Accepted(codec: Codec, limits: Limits, lib: Library, loads: Loads, canonical: string, status: nat, h: Header,
                           slot: Option<Refusal>, w: Wire, body: string, how: Handling, sent: Header) {
    && (forall name :: name in h ==> !TraversalName(name))
    && Outcome(codec, limits, lib, loads, canonical, status, h, slot, w, None, body, how)
    && sent == SentHeader(codec, h, CodingOf(codec, h), w.bytes, body, how)
  }

  /** An empty body goes out as it came, with no flag. */
  lemma EmptyIsSentAsItCame(codec: Codec, limits: Limits, lib: Library, loads: Loads, canonical: string, status: nat, h: Header,
                            slot: Option<Refusal>, w: Wire, body: string, how: Handling, sent: Header)
    requires Accepted(codec, limits, lib, loads, canonical, status, h, slot, w, body, how, sent)
    requires Empty(codec, CodingOf(codec, h), w)
    ensures body == w.bytes && !Flagged(sent)
  {
    NotEmptyIsRewritten(codec, limits, lib, loads, canonical, h, w, body, how);
    FlaggedIsChanged(codec, h, CodingOf(codec, h), w.bytes, body, how);
  }

  /**
    A body that is not JSON goes out as the last text of the chain of byte-level rules
    that cover the host over its plaintext, flagged exactly when some link differs.
  */
  lemma TextIsRedacted(codec: Codec, limits: Limits, lib: Library, loads: Loads, canonical: string, status: nat, h: Header,
                       slot: Option<Refusal>, w: Wire, body: string, how: Handling, sent: Header, texts: seq<string>)
    requires Accepted(codec, limits, lib, loads, canonical, status, h, slot, w, body, how, sent)
    requires !Empty(codec, CodingOf(codec, h), w) && !JSONType(codec.mediaType(First(h, "Content-Type")))
    requires IsChain(loads.bytes, canonical, texts) && texts[0] == PlainOf(codec, CodingOf(codec, h), w)
    ensures Brings(codec, CodingOf(codec, h), body, texts[|loads.bytes|])
    ensures Flagged(sent) <==> SomeLinkDiffers(texts)
  {
    JSONTypeMeans(codec.mediaType(First(h, "Content-Type")));
    NotEmptyIsRewritten(codec, limits, lib, loads, canonical, h, w, body, how);
    BytesAreAChain(loads.bytes, canonical, how.plain, texts);
    FlaggedIsChanged(codec, h, CodingOf(codec, h), w.bytes, body, how);
  }

  /** One byte-level rule that covers the host, and a plain body in no coding: the rule's replacement of it. */
  lemma OneRuleOverText(codec: Codec, limits: Limits, lib: Library, loads: Loads, canonical: string, status: nat, h: Header,
                        slot: Option<Refusal>, w: Wire, body: string, how: Handling, sent: Header, rule: Rule)
    requires Accepted(codec, limits, lib, loads, canonical, status, h, slot, w, body, how, sent)
    requires w.bytes != "" && CodingOf(codec, h) == Identity && !JSONType(codec.mediaType(First(h, "Content-Type")))
    requires loads.bytes == [rule] && !rule.structured && Covers(rule, canonical)
    ensures body == rule.replace(w.bytes)
    ensures Flagged(sent) <==> rule.replace(w.bytes) != w.bytes
  {
    var texts := [w.bytes, rule.replace(w.bytes)];
    TextIsRedacted(codec, limits, lib, loads, canonical, status, h, slot, w, body, how, sent, texts);
    assert texts[0] != texts[1] <==> SomeLinkDiffers(texts);
  }

  /** The structured pass's text, and whether it changed something: the plaintext's own, or a chain of walks' of the tree it decodes to. */
  ghost predicate Structured(lib: Library, rules: seq<Rule>, canonical: string, plain: string, text: string, changed: bool) {
    if !SomeTakesPart(rules, canonical) then text == plain && !changed
    else
      && lib.decode(plain).Ok?
      && exists trees :: ChainResult(lib, rules, canonical, trees, Ok((text, changed))) && trees[0] == lib.decode(plain).value
  }

  /** The texts of the two passes: what the structured one makes of a JSON plaintext, or any other plaintext itself, then the chain of byte-level rules. */
  lemma PassesOf(lib: Library, loads: Loads, canonical: string, json: bool, plain: string, text: string, changed: bool)
    returns (between: string, matched: bool, texts: seq<string>)
    requires RedactedTo(lib, loads, canonical, json, plain, Ok((text, changed)))
    ensures if json then Structured(lib, loads.fields, canonical, plain, between, matched) else between == plain && !matched
    ensures IsChain(loads.bytes, canonical, texts) && texts[0] == between && texts[|loads.bytes|] == text
    ensures changed <==> matched || SomeLinkDiffers(texts)
  {
    if json {
      var fields :| AppliedJSON(lib, loads.fields, canonical, plain, fields)
        && Ok((text, changed)) == ThenBytes(loads.bytes, canonical, fields);
      between, matched := fields.value.0, fields.value.1;
      JSONIsAChain(lib, loads.fields, canonical, plain, fields);
    } else {
      between, matched := plain, false;
    }
    texts := ChainOf(loads.bytes, canonical, between);
  }

  /**
    A JSON body goes out as what the structured rules of the first load make of it, then
    the byte-level rules of the second, flagged exactly when one of either changes it.
  */
  lemma JSONIsRedacted(codec: Codec, limits: Limits, lib: Library, loads: Loads, canonical: string, status: nat, h: Header,
                       slot: Option<Refusal>, w: Wire, body: string, how: Handling, sent: Header)
    returns (between: string, matched: bool, texts: seq<string>)
    requires Accepted(codec, limits, lib, loads, canonical, status, h, slot, w, body, how, sent)
    requires !Empty(codec, CodingOf(codec, h), w) && JSONType(codec.mediaType(First(h, "Content-Type")))
    ensures Structured(lib, loads.fields, canonical, PlainOf(codec, CodingOf(codec, h), w), between, matched)
    ensures IsChain(loads.bytes, canonical, texts) && texts[0] == between
    ensures Brings(codec, CodingOf(codec, h), body, texts[|loads.bytes|])
    ensures Flagged(sent) <==> matched || SomeLinkDiffers(texts)
  {
    JSONTypeMeans(codec.mediaType(First(h, "Content-Type")));
    NotEmptyIsRewritten(codec, limits, lib, loads, canonical, h, w, body, how);
    between, matched, texts := PassesOf(lib, loads, canonical, true, how.plain, how.text, how.changed);
    FlaggedIsChanged(codec, h, CodingOf(codec, h), w.bytes, body, how);
  }

  /** The plaintext is no JSON, or a tree the structured rules may make of it cannot be encoded. */
  ghost predicate Malformed(lib: Library, rules: seq<Rule>, canonical: string, plain: string) {
    && SomeTakesPart(rules, canonical)
    && (lib.decode(plain).Ok? ==>
      exists trees, e :: ChainResult(lib, rules, canonical, trees, Err(e)) && trees[0] == lib.decode(plain).value)
  }

  /** A body is malformed only if it is JSON, a structured rule covers the host, and its text cannot be decoded or its redaction encoded. */
  lemma MalformedIsMalformed(codec: Codec, limits: Limits, lib: Library, loads: Loads, canonical: string, status: nat, h: Header,
                             w: Wire, body: string, how: Handling)
    requires Outcome(codec, limits, lib, loads, canonical, status, h, None, w, Some(MalformedJSON), body, how)
    ensures JSONType(codec.mediaType(First(h, "Content-Type")))
    ensures Malformed(lib, loads.fields, canonical, PlainOf(codec, CodingOf(codec, h), w))
  {
    var plain := PlainOf(codec, CodingOf(codec, h), w);
    JSONTypeMeans(codec.mediaType(First(h, "Content-Type")));
    var e :| RedactedTo(lib, loads, canonical, true, plain, Err(e));
    var fields :| AppliedJSON(lib, loads.fields, canonical, plain, fields) && Err(e) == ThenBytes(loads.bytes, canonical, fields);
    JSONIsAChain(lib, loads.fields, canonical, plain, fields);
    if lib.decode(plain).Ok? {
      var trees :| ChainResult(lib, loads.fields, canonical, trees, fields) && trees[0] == lib.decode(plain).value;
      assert ChainResult(lib, loads.fields, canonical, trees, Err(e));
    }
  }

  /** A body cannot be put back only if it came deflated, and what the passes make of it will not deflate. */
  lemma NotPutBack(codec: Codec, limits: Limits, lib: Library, loads: Loads, canonical: string, status: nat, h: Header,
                   w: Wire, body: string, how: Handling)
    returns (between: string, matched: bool, texts: seq<string>)
    requires Outcome(codec, limits, lib, loads, canonical, status, h, None, w, Some(EncodeFailed), body, how)
    ensures CodingOf(codec, h) == Gzip
    ensures
      var plain := PlainOf(codec, Gzip, w);
      if JSONType(codec.mediaType(First(h, "Content-Type")))
      then Structured(lib, loads.fields, canonical, plain, between, matched) else between == plain
    ensures IsChain(loads.bytes, canonical, texts) && texts[0] == between
    ensures codec.deflate(texts[|loads.bytes|]) == None
  {
    var mt := codec.mediaType(First(h, "Content-Type"));
    var plain := PlainOf(codec, Gzip, w);
    JSONTypeMeans(mt);
    var text, changed :| RedactedTo(lib, loads, canonical, IsJSON(mt), plain, Ok((text, changed))) && codec.deflate(text) == None;
    between, matched, texts := PassesOf(lib, loads, canonical, IsJSON(mt), plain, text, changed);
  }
}
