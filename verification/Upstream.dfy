/**
  The covered-response pipeline of internal/upstream/redact.go: a response is
  refused, or read whole, decoded, redacted and re-encoded in place.

  The config loader may replace the rule set while a body is redacted; that update,
  if one comes, is an input, and lands between the two loads of the set.

  Content codings, media type parsing and the classification of a
  Content-Encoding are a `Codec` of arbitrary functions. What a read of a body
  gives is part of the input: its bytes, and whether it breaks off or is late.
*/
module Upstream {
  import opened Wrappers
  import opened RedactWalk
  import opened RedactRules
  import opened RuleLoads

  type Header = map<string, seq<string>>

  const CONTENT_LENGTH := "Content-Length"
  const CONTENT_TYPE := "Content-Type"
  const CONTENT_ENCODING := "Content-Encoding"
  const ACCEPT_RANGES := "Accept-Ranges"
  const TRAILER := "Trailer"
  const REDACTED := "X-Traversal-Redacted"
  const TRAVERSAL_HEADERS := "X-Traversal-"
  const VALIDATORS := {"Etag", "Last-Modified", "Content-Md5", "Digest", "Content-Digest", "Repr-Digest"}

  datatype Coding = Identity | Gzip | Undecodable

  datatype Wire = Wire(bytes: string, broken: bool, late: bool)

  datatype Codec = Codec(
    mediaType: string -> string,
    classify: seq<string> -> Coding,
    inflate: string -> Wire,
    deflate: string -> Option<string>,
    itoa: nat -> string)

  datatype Limits = Limits(maxBody: int, maxDecoded: int)

  datatype Refusal =
    | Unredactable
    | PartialContent
    | Capacity
    | Cancelled
    | NoEnd
    | BodyTooLarge
    | DecodeFailed
    | UnsupportedEncoding
    | DecodedTooLarge
    | MalformedJSON
    | EncodeFailed

  // ---------- Headers ----------

  function Lower(c: char): char { if 'A' <= c <= 'Z' then c + ('a' - 'A') else c }

  /** A header in the X-Traversal- namespace, in any case. */
  predicate TraversalName(name: string) {
    && |name| >= |TRAVERSAL_HEADERS|
    && forall i :: 0 <= i < |TRAVERSAL_HEADERS| ==> Lower(name[i]) == Lower(TRAVERSAL_HEADERS[i])
  }

  function Values(h: Header, name: string): seq<string> { if name in h then h[name] else [] }

  function First(h: Header, name: string): string { if Values(h, name) == [] then "" else Values(h, name)[0] }

  lemma OwnNames()
    ensures TraversalName(REDACTED) && !TraversalName(CONTENT_LENGTH) && !TraversalName(CONTENT_ENCODING)
  {
    assert Lower(CONTENT_LENGTH[0]) != Lower(TRAVERSAL_HEADERS[0]);
    assert Lower(CONTENT_ENCODING[0]) != Lower(TRAVERSAL_HEADERS[0]);
  }

  ghost function Stripped(h: Header): Header {
    map name | name in h && !TraversalName(name) :: h[name]
  }

  // ---------- Media types ----------

  predicate HasSuffix(s: string, suffix: string) {
    |s| >= |suffix| && s[|s| - |suffix|..] == suffix
  }

  predicate IsJSON(mt: string) { mt == "application/json" || mt == "text/json" || HasSuffix(mt, "+json") }

  predicate IsGRPC(mt: string) { "application/grpc" <= mt }

  predicate Redactable(mt: string) {
    || mt == "" || "text/" <= mt || IsJSON(mt) || HasSuffix(mt, "+xml")
    || mt in {"application/xml", "application/javascript", "application/x-www-form-urlencoded",
              "application/yaml", "application/x-ndjson"}
  }

  /** A response no rule could be applied to, whatever its body. */
  predicate CannotRedact(status: nat, codec: Codec, mt: string) {
    status == 101 || mt == "text/event-stream" || IsGRPC(codec.mediaType(mt)) || !Redactable(mt)
  }

  // ---------- Reading ----------

  /** readLimited: a body past a positive limit is too large before it can break off. */
  function ReadLimited(w: Wire, limit: int): Result<string, bool> {
    if limit > 0 && |w.bytes| > limit then Err(true) else if w.broken then Err(false) else Ok(w.bytes)
  }

  function Read(w: Wire, limit: int): Result<string, Refusal> {
    if w.late then Err(NoEnd)
    else match ReadLimited(w, limit)
      case Err(tooLarge) => Err(if tooLarge then BodyTooLarge else DecodeFailed)
      case Ok(bytes) => Ok(bytes)
  }

  /** The plaintext of a body, or None for one that is empty on the wire or once decoded. */
  function Plaintext(codec: Codec, limits: Limits, coding: Coding, w: Wire): Result<Option<string>, Refusal> {
    match Read(w, limits.maxBody)
    case Err(r) => Err(r)
    case Ok(body) =>
      if body == "" then Ok(None)
      else match coding
        case Undecodable => Err(UnsupportedEncoding)
        case Identity => Ok(Some(body))
        case Gzip =>
          match ReadLimited(codec.inflate(body), limits.maxDecoded)
          case Err(tooLarge) => Err(if tooLarge then DecodedTooLarge else DecodeFailed)
          case Ok(plain) => Ok(if plain == "" then None else Some(plain))
  }

  predicate Within(bytes: string, limit: int) { limit <= 0 || |bytes| <= limit }

  /** A body can be brought to plaintext exactly when it ends in time, whole, within the limits, in a coding the connector undoes. */
  lemma DecodableBodies(codec: Codec, limits: Limits, coding: Coding, w: Wire)
    ensures Plaintext(codec, limits, coding, w).Ok? <==>
      && !w.late && !w.broken && Within(w.bytes, limits.maxBody)
      && (w.bytes == ""
          || coding == Identity
          || (coding == Gzip && !codec.inflate(w.bytes).broken && Within(codec.inflate(w.bytes).bytes, limits.maxDecoded)))
    ensures Plaintext(codec, limits, coding, w) == Ok(None) <==>
      && Plaintext(codec, limits, coding, w).Ok?
      && (w.bytes == "" || (coding == Gzip && codec.inflate(w.bytes).bytes == ""))
  {
  }

  // ---------- Redacting ----------

  method Redact(redactor: Redactor, host: string, json: bool, body: string, landing: Option<RulesFile>)
    returns (r: Result<(string, bool), JsonFault>)
    modifies redactor
    ensures redactor.rules == old(redactor.rules) || redactor.rules == Landed(redactor.lib, old(redactor.rules), landing)
    ensures RedactedTo(redactor.lib, Loads(old(redactor.rules), redactor.rules), redactor.lib.canonicalHost(host), json, body, r)
  {
    var text, changed := body, false;
    if json {
      var fields := redactor.ApplyJSON(host, body);
      if fields.Err? {
        return Err(fields.error);
      }
      text, changed := fields.value.0, fields.value.1;
    }
    if landing.Some? {
      var _ := redactor.Update(landing.value);
    }
    var byteChanged;
    text, byteChanged := redactor.Apply(host, text);
    return Ok((text, changed || byteChanged));
  }

  // ---------- The response ----------

  /** How an accepted body came about: sent as it came, or redacted from its plaintext. */
  datatype Handling = AsItCame | Rewritten(plain: string, text: string, changed: bool)

  function Packed(codec: Codec, coding: Coding, text: string): Option<string> {
    if coding == Gzip then codec.deflate(text) else Some(text)
  }

  ghost function Without(h: Header, names: set<string>): Header { h - names }

  /** What replaceBody leaves of a header, for this body. */
  ghost function Replaced(codec: Codec, h: Header, bytes: string, redacted: bool, representationChanged: bool): Header {
    var base := Without(h, {TRAILER});
    var flagged := if redacted then base[REDACTED := ["true"]] else base;
    var valid := if representationChanged then Without(flagged, VALIDATORS) else flagged;
    if bytes != "" then valid[CONTENT_LENGTH := [codec.itoa(|bytes|)]] else valid
  }

  /** The header a body is sent with, from the stripped one it came with. */
  ghost function SentHeader(codec: Codec, h: Header, coding: Coding, came: string, sent: string, how: Handling): Header {
    var base := Without(h, {ACCEPT_RANGES});
    var coded := if how.Rewritten? && coding == Gzip then base[CONTENT_ENCODING := ["gzip"]] else base;
    Replaced(codec, coded, sent, how.Rewritten? && how.changed, how.Rewritten? && (coding == Gzip || sent != came))
  }

  /** The range offer has no part in what a header says of its body, and is never sent. */
  lemma WithoutRanges(codec: Codec, h: Header, coding: Coding, came: string, sent: string, how: Handling)
    ensures
      var less := Without(h, {ACCEPT_RANGES});
      && First(less, CONTENT_TYPE) == First(h, CONTENT_TYPE)
      && SentHeader(codec, less, coding, came, sent, how) == SentHeader(codec, h, coding, came, sent, how)
  {
    assert Without(Without(h, {ACCEPT_RANGES}), {ACCEPT_RANGES}) == Without(h, {ACCEPT_RANGES});
    assert |ACCEPT_RANGES| != |CONTENT_TYPE|;
  }

  class Response {
    const status: nat
    var header: Header
    var trailer: Option<Header>
    var body: string
    var length: int
    var upstreamClosed: bool

    constructor (status: nat, header: Header, trailer: Option<Header>, length: int)
      ensures this.status == status && this.header == header && this.trailer == trailer && this.length == length
      ensures body == "" && !upstreamClosed
    {
      this.status, this.header, this.trailer, this.length := status, header, trailer, length;
      body, upstreamClosed := "", false;
    }

    /** Every X-Traversal- header goes, in whatever order the map is walked. */
    method StripTraversalHeaders()
      modifies this`header
      ensures header == Stripped(old(header))
    {
      ghost var h := header;
      var todo := header.Keys;
      while todo != {}
        invariant todo <= h.Keys
        invariant header == map name | name in h && (name in todo || !TraversalName(name)) :: h[name]
        decreases todo
      {
        var name :| name in todo;
        if TraversalName(name) {
          header := header - {name};
        }
        todo := todo - {name};
      }
    }

    method ReplaceBody(codec: Codec, bytes: string, redacted: bool, representationChanged: bool)
      modifies this`trailer, this`header, this`body, this`length
      ensures trailer == None && body == bytes && length == |bytes|
      ensures header == Replaced(codec, old(header), bytes, redacted, representationChanged)
    {
      trailer := None;
      header := header - {TRAILER};
      if redacted {
        header := header[REDACTED := ["true"]];
      }
      if representationChanged {
        ghost var h := header;
        var todo := VALIDATORS;
        while todo != {}
          invariant todo <= VALIDATORS && header == h - (VALIDATORS - todo) && trailer == None
          decreases todo
        {
          var name :| name in todo;
          header := header - {name};
          todo := todo - {name};
        }
        assert VALIDATORS - todo == VALIDATORS;
      }
      body, length := bytes, |bytes|;
      if |bytes| > 0 {
        header := header[CONTENT_LENGTH := [codec.itoa(|bytes|)]];
      }
    }

    /** The redacted text back in the body's own coding, in the place of the bytes that came. */
    method PutBack(codec: Codec, coding: Coding, bytes: string, ghost plaintext: string, text: string, changed: bool)
      returns (refused: Option<Refusal>)
      requires coding != Undecodable && ACCEPT_RANGES !in header
      modifies this`trailer, this`header, this`body, this`length
      ensures refused == if Packed(codec, coding, text).None? then Some(EncodeFailed) else None
      ensures refused == None ==>
        && trailer == None && length == |body| && Packed(codec, coding, text) == Some(body)
        && header == SentHeader(codec, old(header), coding, bytes, body, Rewritten(plaintext, text, changed))
      ensures refused != None ==> header == old(header)
    {
      assert Without(header, {ACCEPT_RANGES}) == header;
      var final := text;
      if coding == Gzip {
        var packed := codec.deflate(text);
        if packed.None? {
          return Some(EncodeFailed);
        }
        final := packed.value;
        header := header[CONTENT_ENCODING := ["gzip"]];
      }
      ReplaceBody(codec, final, changed, coding == Gzip || final != bytes);
      return None;
    }

    method Buffer(codec: Codec, limits: Limits, redactor: Redactor, host: string, coding: Coding, w: Wire,
                  landing: Option<RulesFile>)
      returns (refused: Option<Refusal>, ghost how: Handling)
      requires ACCEPT_RANGES !in header
      modifies redactor, this`trailer, this`header, this`body, this`length, this`upstreamClosed
      ensures upstreamClosed
      ensures redactor.rules == old(redactor.rules) || redactor.rules == Landed(redactor.lib, old(redactor.rules), landing)
      ensures
        BodyOutcome(codec, limits, redactor.lib, Loads(old(redactor.rules), redactor.rules), redactor.lib.canonicalHost(host),
                    coding, IsJSON(codec.mediaType(First(old(header), CONTENT_TYPE))), w, refused, body, how)
      ensures refused == None ==>
        && trailer == None && length == |body|
        && header == SentHeader(codec, old(header), coding, w.bytes, body, how)
      ensures refused != None ==> header == old(header)
    {
      how := AsItCame;
      upstreamClosed := true;
      assert Without(header, {ACCEPT_RANGES}) == header;
      var read := Read(w, limits.maxBody);
      if read.Err? {
        return Some(read.error), how;
      }
      var bytes := read.value;
      if |bytes| == 0 {
        ReplaceBody(codec, bytes, false, false);
        return None, how;
      }
      if coding.Undecodable? {
        return Some(UnsupportedEncoding), how;
      }
      var plaintext := bytes;
      if coding == Gzip {
        var decoded := ReadLimited(codec.inflate(bytes), limits.maxDecoded);
        if decoded.Err? {
          return Some(if decoded.error then DecodedTooLarge else DecodeFailed), how;
        }
        plaintext := decoded.value;
      }
      if |plaintext| == 0 {
        ReplaceBody(codec, bytes, false, false);
        return None, how;
      }
      var json := IsJSON(codec.mediaType(First(header, CONTENT_TYPE)));
      var redacted := Redact(redactor, host, json, plaintext, landing);
      if redacted.Err? {
        return Some(MalformedJSON), how;
      }
      var (text, changed) := redacted.value;
      how := Rewritten(plaintext, text, changed);
      refused := PutBack(codec, coding, bytes, plaintext, text, changed);
    }

    /** A covered response, once stripped: refused for what it is or for want of a slot, or buffered. */
    method Cover(codec: Codec, limits: Limits, redactor: Redactor, host: string, coding: Coding, slot: Option<Refusal>, w: Wire,
                 landing: Option<RulesFile>)
      returns (refused: Option<Refusal>, ghost how: Handling)
      requires coding == CodingOf(codec, header)
      modifies this, redactor
      ensures upstreamClosed
      ensures redactor.rules == old(redactor.rules) || redactor.rules == Landed(redactor.lib, old(redactor.rules), landing)
      ensures
        Outcome(codec, limits, redactor.lib, Loads(old(redactor.rules), redactor.rules), redactor.lib.canonicalHost(host), status,
                old(header), slot, w, refused, body, how)
      ensures refused == None ==>
        && trailer == None && length == |body|
        && header == SentHeader(codec, old(header), coding, w.bytes, body, how)
      ensures refused != None ==> header == Without(old(header), {ACCEPT_RANGES})
    {
      how := AsItCame;
      ghost var h := header;
      header := header - {ACCEPT_RANGES};
      WithoutRanges(codec, h, coding, w.bytes, body, how);
      var mediaType := codec.mediaType(First(header, CONTENT_TYPE));
      if CannotRedact(status, codec, mediaType) {
        upstreamClosed := true;
        return Some(Unredactable), how;
      }
      if status == 206 {
        upstreamClosed := true;
        return Some(PartialContent), how;
      }
      if slot.Some? {
        upstreamClosed := true;
        return slot, how;
      }
      refused, how := Buffer(codec, limits, redactor, host, coding, w, landing);
      WithoutRanges(codec, h, coding, w.bytes, body, how);
    }

    /** ReverseProxy's ModifyResponse; slot is what waiting for a redaction slot comes to. */
    method Respond(codec: Codec, limits: Limits, redactor: Redactor, host: string, covered: bool, slot: Option<Refusal>, w: Wire,
                   landing: Option<RulesFile>)
      returns (refused: Option<Refusal>, ghost how: Handling)
      modifies this, redactor
      ensures forall name :: name in header && TraversalName(name) ==> name == REDACTED && refused == None && covered
      ensures !covered ==>
        && refused == None && header == Stripped(old(header)) && unchanged(this`trailer, this`body, this`length, this`upstreamClosed)
      ensures redactor.rules == old(redactor.rules) || redactor.rules == Landed(redactor.lib, old(redactor.rules), landing)
      ensures covered ==>
        && upstreamClosed
        && Outcome(codec, limits, redactor.lib, Loads(old(redactor.rules), redactor.rules), redactor.lib.canonicalHost(host), status,
                   Stripped(old(header)), slot, w, refused, body, how)
      ensures covered && refused == None ==>
        && trailer == None && length == |body|
        && header == SentHeader(codec, Stripped(old(header)), CodingOf(codec, Stripped(old(header))), w.bytes, body, how)
    {
      how := AsItCame;
      refused := None;
      StripTraversalHeaders();
      var coding := codec.classify(Values(header, CONTENT_ENCODING));
      if !covered {
        return;
      }
      ghost var h := header;
      refused, how := Cover(codec, limits, redactor, host, coding, slot, w, landing);
      OnlyTheFlag(codec, h, coding, w.bytes, body, how);
    }
  }

  function CodingOf(codec: Codec, h: Header): Coding { codec.classify(Values(h, CONTENT_ENCODING)) }

  /** An accepted covered body: the wire's bytes when there is nothing in them, else the redaction of their plaintext. */
  ghost predicate CarriesBody(codec: Codec, limits: Limits, lib: Library, loads: Loads, canonical: string,
                              coding: Coding, json: bool, w: Wire, body: string, how: Handling) {
    match Plaintext(codec, limits, coding, w)
    case Err(_) => false
    case Ok(None) => how == AsItCame && body == w.bytes
    case Ok(Some(plain)) =>
      && how.Rewritten? && how.plain == plain
      && RedactedTo(lib, loads, canonical, json, plain, Ok((how.text, how.changed)))
      && Packed(codec, coding, how.text) == Some(body)
  }

  /** A body is carried, or refused for the first reason it gives; past decoding, only JSON that does not parse, or the encoder, refuses it. */
  ghost predicate BodyOutcome(codec: Codec, limits: Limits, lib: Library, loads: Loads, canonical: string,
                              coding: Coding, json: bool, w: Wire, refused: Option<Refusal>, body: string, how: Handling) {
    match refused
    case None => CarriesBody(codec, limits, lib, loads, canonical, coding, json, w, body, how)
    case Some(r) =>
      match Plaintext(codec, limits, coding, w)
      case Err(reason) => r == reason
      case Ok(None) => false
      case Ok(Some(plain)) =>
        || (r == MalformedJSON && json && exists e :: RedactedTo(lib, loads, canonical, json, plain, Err(e)))
        || (r == EncodeFailed && coding == Gzip && exists text, changed ::
          RedactedTo(lib, loads, canonical, json, plain, Ok((text, changed))) && codec.deflate(text) == None)
  }

  /** A covered response in full: refused for what it is, for want of a slot, or by its body. */
  ghost predicate Outcome(codec: Codec, limits: Limits, lib: Library, loads: Loads, canonical: string, status: nat,
                          h: Header, slot: Option<Refusal>, w: Wire, refused: Option<Refusal>, body: string, how: Handling) {
    var mt := codec.mediaType(First(h, CONTENT_TYPE));
    if CannotRedact(status, codec, mt) then refused == Some(Unredactable)
    else if status == 206 then refused == Some(PartialContent)
    else if slot.Some? then refused == slot
    else BodyOutcome(codec, limits, lib, loads, canonical, CodingOf(codec, h), IsJSON(mt), w, refused, body, how)
  }

  ghost predicate Carries(codec: Codec, limits: Limits, lib: Library, loads: Loads, canonical: string,
                          h: Header, w: Wire, body: string, how: Handling) {
    CarriesBody(codec, limits, lib, loads, canonical, CodingOf(codec, h),
                IsJSON(codec.mediaType(First(h, CONTENT_TYPE))), w, body, how)
  }

  lemma OnlyTheFlag(codec: Codec, h: Header, coding: Coding, came: string, sent: string, how: Handling)
    requires forall name :: name in h ==> !TraversalName(name)
    ensures forall name :: name in SentHeader(codec, h, coding, came, sent, how) && TraversalName(name) ==> name == REDACTED
  {
    OwnNames();
  }

  // ---------- What an accepted response says about itself ----------

  /** The flag is there exactly when some rule changed something, and the length is the body's. */
  lemma FlagAndLength(codec: Codec, h: Header, coding: Coding, came: string, sent: string, how: Handling)
    requires forall name :: name in h ==> !TraversalName(name)
    ensures
      var out := SentHeader(codec, h, coding, came, sent, how);
      && ("X-Traversal-Redacted" in out <==> how.Rewritten? && how.changed)
      && (sent != "" ==> Values(out, "Content-Length") == [codec.itoa(|sent|)])
      && (sent == "" ==> Values(out, "Content-Length") == Values(h, "Content-Length"))
      && "Accept-Ranges" !in out && "Trailer" !in out
  {
    OwnNames();
  }

  /** A validator is kept only on the very bytes that came; and it is kept then, unless they were re-encoded. */
  lemma ValidatorsDescribeTheBytes(codec: Codec, h: Header, coding: Coding, came: string, sent: string, how: Handling, name: string)
    requires name in {"Etag", "Last-Modified", "Content-Md5", "Digest", "Content-Digest", "Repr-Digest"}
    requires name in h && (how == AsItCame ==> sent == came)
    ensures
      var out := SentHeader(codec, h, coding, came, sent, how);
      && (name in out ==> sent == came && out[name] == h[name])
      && (sent == came && !(how.Rewritten? && coding == Gzip) ==> name in out)
  {
  }

  /** On a plain body in no coding, no change reported means the bytes that came are the bytes sent. */
  lemma UnchangedTextIsSentAsItCame(codec: Codec, limits: Limits, lib: Library, loads: Loads, canonical: string,
                                    h: Header, w: Wire, body: string, how: Handling)
    requires Carries(codec, limits, lib, loads, canonical, h, w, body, how)
    requires CodingOf(codec, h) == Identity && !IsJSON(codec.mediaType(First(h, CONTENT_TYPE)))
    requires how.Rewritten? && !how.changed
    ensures body == w.bytes
  {
    UnchangedBytes(loads.bytes, canonical, how.plain);
  }

  /** On JSON it means the document that came, re-encoded; or the bytes themselves if no structured rule is in scope. */
  lemma UnchangedJsonIsTheSameDocument(codec: Codec, limits: Limits, lib: Library, loads: Loads, canonical: string,
                                       h: Header, w: Wire, body: string, how: Handling)
    requires Carries(codec, limits, lib, loads, canonical, h, w, body, how)
    requires IsJSON(codec.mediaType(First(h, CONTENT_TYPE)))
    requires how.Rewritten? && !how.changed
    ensures if Active(loads.fields, canonical) == [] then how.text == how.plain
            else lib.decode(how.plain).Ok? && lib.encode(lib.decode(how.plain).value) == Ok(how.text)
  {
    var fields :| AppliedJSON(lib, loads.fields, canonical, how.plain, fields)
      && Ok((how.text, how.changed)) == ThenBytes(loads.bytes, canonical, fields);
    UnchangedBytes(loads.bytes, canonical, fields.value.0);
    UnmatchedDocument(lib, loads.fields, canonical, how.plain, fields);
  }

  /** The receiver of a re-encoded body, undoing its coding, reads exactly the redacted text. */
  lemma ReceiverReadsTheRedaction(codec: Codec, limits: Limits, lib: Library, loads: Loads, canonical: string,
                                  h: Header, w: Wire, body: string, how: Handling)
    requires Carries(codec, limits, lib, loads, canonical, h, w, body, how) && how.Rewritten?
    requires forall t :: codec.deflate(t).Some? ==> codec.inflate(codec.deflate(t).value) == Wire(t, false, false)
    ensures
      var coding := CodingOf(codec, h);
      && coding != Undecodable
      && (if coding == Gzip then codec.inflate(body) else Wire(body, false, false)) == Wire(how.text, false, false)
      && (coding == Gzip ==> Values(SentHeader(codec, h, coding, w.bytes, body, how), "Content-Encoding") == ["gzip"])
  {
  }
}
