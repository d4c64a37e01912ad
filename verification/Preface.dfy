/**
  The tunnel preface of connector-lib/rawpipe/rawpipe.go: printing, parsing and
  reading its one line. A nil list and an empty one are the same here.
*/
module Preface {
  import opened Wrappers
  import opened Strings

  const PREFACE := "TRAVERSAL-TUNNEL/1"
  const MAX_PREFACE_LEN := 512
  const ROOTS := "roots"
  const KIDS := "kids"

  datatype Hello = Hello(connector: string, roots: seq<string>, kids: seq<string>)

  predicate HexDigit(c: char) { '0' <= c <= '9' || 'a' <= c <= 'f' }

  predicate Hyphenated(i: nat) { i == 8 || i == 13 || i == 18 || i == 23 }

  /** A lower-case hyphenated UUID: the only form that prints as it parses. */
  predicate IsConnectorID(id: string) {
    |id| == 36 && forall i :: 0 <= i < 36 ==> if Hyphenated(i) then id[i] == '-' else HexDigit(id[i])
  }

  predicate PrefaceChar(c: char) { ' ' < c <= '~' && c != ',' }

  ghost predicate PrefaceValue(v: string) { v != "" && forall c :: c in v ==> PrefaceChar(c) }

  method CheckValue(v: string) returns (ok: bool)
    ensures ok <==> PrefaceValue(v)
  {
    for i := 0 to |v|
      invariant forall j :: 0 <= j < i ==> PrefaceChar(v[j])
    {
      if v[i] <= ' ' || v[i] > '~' || v[i] == ',' {
        assert v[i] in v && !PrefaceChar(v[i]);
        return false;
      }
    }
    return v != "";
  }

  method CheckValues(values: seq<string>) returns (ok: bool)
    ensures ok <==> forall v :: v in values ==> PrefaceValue(v)
  {
    for i := 0 to |values|
      invariant forall j :: 0 <= j < i ==> PrefaceValue(values[j])
    {
      ok := CheckValue(values[i]);
      if !ok {
        return false;
      }
    }
    return true;
  }

  // ---------- Printing ----------

  function Field(key: string, values: seq<string>): string {
    if values == [] then "" else " " + key + "=" + Join(values, ',')
  }

  function Line(h: Hello): string {
    PREFACE + " " + h.connector + Field(ROOTS, h.roots) + Field(KIDS, h.kids) + "\n"
  }

  ghost predicate Writable(h: Hello) {
    && IsConnectorID(h.connector)
    && (forall v :: v in h.roots || v in h.kids ==> PrefaceValue(v))
    && |Line(h)| <= MAX_PREFACE_LEN
  }

  /** The first f fields of a line. */
  function Fields(h: Hello, f: nat): string
    requires f <= 2
  {
    if f == 0 then "" else if f == 1 then Field(ROOTS, h.roots) else Field(ROOTS, h.roots) + Field(KIDS, h.kids)
  }

  lemma LineOfFields(h: Hello)
    ensures PREFACE + " " + h.connector + Fields(h, 2) + "\n" == Line(h)
  {
  }

  lemma OneFieldMore(h: Hello, head: string, f: nat)
    requires f < 2
    ensures head + Fields(h, f + 1) ==
      head + Fields(h, f) + (if f == 0 then Field(ROOTS, h.roots) else Field(KIDS, h.kids))
  {
  }

  method WritePreface(h: Hello) returns (line: Option<string>)
    ensures line == if Writable(h) then Some(Line(h)) else None
  {
    if !IsConnectorID(h.connector) {
      return None;
    }
    var text := PREFACE + " " + h.connector;
    ghost var head := text;
    for f := 0 to 2
      invariant text == head + Fields(h, f)
      invariant f > 0 ==> forall v :: v in h.roots ==> PrefaceValue(v)
      invariant f > 1 ==> forall v :: v in h.kids ==> PrefaceValue(v)
    {
      OneFieldMore(h, head, f);
      var (key, values) := if f == 0 then (ROOTS, h.roots) else (KIDS, h.kids);
      if |values| == 0 {
        continue;
      }
      var ok := CheckValues(values);
      if !ok {
        return None;
      }
      text := text + (" " + key + "=" + Join(values, ','));
    }
    LineOfFields(h);
    text := text + "\n";
    return if |text| > MAX_PREFACE_LEN then None else Some(text);
  }

  // ---------- Parsing ----------

  function Cut(f: string): Option<(string, string)> {
    match IndexOf(f, '=')
    case None => None
    case Some(i) => Some((f[..i], f[i + 1..]))
  }

  function ListOf(value: string): seq<string> { if value == "" then [] else Split(value, ',') }

  function Told(h: Hello, key: string, list: seq<string>): Hello {
    if key == ROOTS then h.(roots := list) else if key == KIDS then h.(kids := list) else h
  }

  /** The fields after the connector ID, in order, each key at most once. */
  function ParseFields(h: Hello, seen: set<string>, fields: seq<string>): Option<Hello>
    decreases |fields|
  {
    if fields == [] then Some(h)
    else match Cut(fields[0])
      case None => None
      case Some((key, value)) =>
        if key == "" || key in seen then None
        else ParseFields(Told(h, key, ListOf(value)), seen + {key}, fields[1..])
  }

  function Parse(line: string): Option<Hello> {
    var fields := Split(TrimSuffix(line, '\n'), ' ');
    if |fields| < 2 || fields[0] != PREFACE || !IsConnectorID(fields[1]) then None
    else ParseFields(Hello(fields[1], [], []), {}, fields[2..])
  }

  method ParsePreface(line: string) returns (r: Option<Hello>)
    ensures r == Parse(line)
  {
    var fields := Split(TrimSuffix(line, '\n'), ' ');
    if |fields| < 2 || fields[0] != PREFACE || !IsConnectorID(fields[1]) {
      return None;
    }
    var h := Hello(fields[1], [], []);
    var seen := {};
    for i := 2 to |fields|
      invariant Parse(line) == ParseFields(h, seen, fields[i..])
    {
      assert fields[i..][1..] == fields[i + 1..];
      var cut := Cut(fields[i]);
      if cut.None? || cut.value.0 == "" || cut.value.0 in seen {
        return None;
      }
      var (key, value) := cut.value;
      seen := seen + {key};
      var list := [];
      if value != "" {
        list := Split(value, ',');
      }
      h := Told(h, key, list);
    }
    return Some(h);
  }

  // ---------- Reading ----------

  datatype ReadError = UnexpectedEnd | BadPreface | TooLong

  class Reader {
    var rest: string

    constructor (rest: string)
      ensures this.rest == rest
    {
      this.rest := rest;
    }

    /** Reads a byte at a time, never past the line or the limit. */
    method ReadPreface() returns (r: Result<Hello, ReadError>)
      modifies this
      ensures (r, rest) == ReadLine(old(rest))
    {
      var line := "";
      ghost var input := rest;
      while |line| < MAX_PREFACE_LEN
        invariant |line| <= MAX_PREFACE_LEN && input == line + rest && !Has(line, '\n')
        decreases MAX_PREFACE_LEN - |line|
      {
        if rest == "" {
          assert input == line;
          return Err(UnexpectedEnd);
        }
        var b := rest[0];
        rest := rest[1..];
        ghost var before := line;
        line := line + [b];
        assert input == before + [b] + rest;
        if b == '\n' {
          IndexIs(before, '\n', rest);
          assert input[..|before| + 1] == line;
          var h := ParsePreface(line);
          return if h.None? then Err(BadPreface) else Ok(h.value);
        }
      }
      NoEarlierNewline(input, line, rest);
      return Err(TooLong);
    }
  }

  /** What reading consumes, and what it leaves. */
  function ReadLine(input: string): (Result<Hello, ReadError>, string) {
    match IndexOf(input, '\n')
    case Some(i) =>
      if i < MAX_PREFACE_LEN then
        (match Parse(input[..i + 1]) case None => Err(BadPreface) case Some(h) => Ok(h), input[i + 1..])
      else (Err(TooLong), input[MAX_PREFACE_LEN..])
    case None =>
      if |input| < MAX_PREFACE_LEN then (Err(UnexpectedEnd), "") else (Err(TooLong), input[MAX_PREFACE_LEN..])
  }

  lemma NoEarlierNewline(input: string, line: string, rest: string)
    requires input == line + rest && !Has(line, '\n') && |line| == MAX_PREFACE_LEN
    ensures IndexOf(input, '\n').Some? ==> IndexOf(input, '\n').value >= MAX_PREFACE_LEN
    ensures input[MAX_PREFACE_LEN..] == rest
  {
    assert forall j :: 0 <= j < |line| ==> input[j] == line[j];
  }

  // ---------- Printer and parser undo each other ----------

  function FieldText(key: string, values: seq<string>): string { key + "=" + Join(values, ',') }

  function WithField(parts: seq<string>, key: string, values: seq<string>): seq<string> {
    if values == [] then parts else parts + [FieldText(key, values)]
  }

  /** The parts of a line between its spaces. */
  function Parts(h: Hello): seq<string> {
    WithField(WithField([PREFACE, h.connector], ROOTS, h.roots), KIDS, h.kids)
  }

  lemma FieldJoin(parts: seq<string>, key: string, values: seq<string>)
    requires parts != []
    ensures Join(WithField(parts, key, values), ' ') == Join(parts, ' ') + Field(key, values)
  {
    if values != [] {
      JoinAppend(parts, FieldText(key, values), ' ');
      assert " " + key + "=" + Join(values, ',') == [' '] + FieldText(key, values);
    }
  }

  lemma FieldChars(key: string, values: seq<string>, c: char)
    requires c == ' ' || c == '\n'
    requires !Has(key, c) && forall v :: v in values ==> PrefaceValue(v)
    ensures !Has(FieldText(key, values), c)
  {
    CharsOfJoin(values, ',');
    assert !PrefaceChar(c);
  }

  lemma LineJoins(h: Hello)
    ensures Line(h) == Join(Parts(h), ' ') + "\n"
  {
    var head := [PREFACE, h.connector];
    assert Join(head, ' ') == PREFACE + " " + h.connector by {
      assert head[1..] == [h.connector];
    }
    FieldJoin(head, ROOTS, h.roots);
    FieldJoin(WithField(head, ROOTS, h.roots), KIDS, h.kids);
  }

  lemma ConnectorChars(id: string, c: char)
    requires IsConnectorID(id) && (c == ' ' || c == '\n')
    ensures !Has(id, c)
  {
  }

  lemma PartsOfLine(h: Hello)
    requires Writable(h)
    ensures Line(h) == Join(Parts(h), ' ') + "\n"
    ensures forall p :: p in Parts(h) ==> !Has(p, ' ') && !Has(p, '\n')
  {
    LineJoins(h);
    forall p, c | p in Parts(h) && (c == ' ' || c == '\n') ensures !Has(p, c) {
      ConnectorChars(h.connector, c);
      FieldChars(ROOTS, h.roots, c);
      FieldChars(KIDS, h.kids, c);
    }
  }

  lemma KnownField(h: Hello, seen: set<string>, key: string, values: seq<string>, rest: seq<string>)
    requires key == ROOTS || key == KIDS
    requires key !in seen && values != [] && forall v :: v in values ==> PrefaceValue(v)
    ensures ParseFields(h, seen, [FieldText(key, values)] + rest) == ParseFields(Told(h, key, values), seen + {key}, rest)
  {
    var f := FieldText(key, values);
    IndexIs(key, '=', Join(values, ','));
    assert f == key + ['='] + Join(values, ',');
    assert f[..|key|] == key && f[|key| + 1..] == Join(values, ',');
    forall v | v in values ensures !Has(v, ',') {
      assert PrefaceValue(v) && !PrefaceChar(',');
    }
    SplitJoin(values, ',');
    assert values[0] in values;
    assert ListOf(Join(values, ',')) == values;
    assert ([f] + rest)[1..] == rest;
  }

  lemma NoNewlineInJoin(parts: seq<string>)
    requires forall p :: p in parts ==> !Has(p, '\n')
    ensures !Has(Join(parts, ' '), '\n')
  {
    CharsOfJoin(parts, ' ');
  }

  /** What is written parses back, with its newline or without. */
  lemma ParseUndoesWrite(h: Hello)
    requires Writable(h)
    ensures Parse(Line(h)) == Some(h)
    ensures Parse(TrimSuffix(Line(h), '\n')) == Some(h)
  {
    PartsOfLine(h);
    var parts := Parts(h);
    var body := Join(parts, ' ');
    NoNewlineInJoin(parts);
    assert TrimSuffix(Line(h), '\n') == body;
    assert TrimSuffix(body, '\n') == body;
    SplitJoin(parts, ' ');
    var bare := Hello(h.connector, [], []);
    assert parts[2..] == (if h.roots == [] then [] else [FieldText(ROOTS, h.roots)])
                       + (if h.kids == [] then [] else [FieldText(KIDS, h.kids)]);
    if h.roots != [] {
      KnownField(bare, {}, ROOTS, h.roots, parts[3..]);
      assert parts[2..] == [FieldText(ROOTS, h.roots)] + parts[3..];
    }
    if h.kids != [] {
      KnownField(Told(bare, ROOTS, h.roots), if h.roots == [] then {} else {ROOTS}, KIDS, h.kids, []);
      assert [FieldText(KIDS, h.kids)] + [] == [FieldText(KIDS, h.kids)];
    }
  }

  /** Reading a written line gives it back and leaves exactly the bytes that follow. */
  lemma ReadUndoesWrite(h: Hello, following: string)
    requires Writable(h)
    ensures ReadLine(Line(h) + following) == (Ok(h), following)
  {
    PartsOfLine(h);
    NoNewlineInJoin(Parts(h));
    ParseUndoesWrite(h);
    var body := Join(Parts(h), ' ');
    var input := Line(h) + following;
    assert input == body + ['\n'] + following;
    IndexIs(body, '\n', following);
    assert input[..|body| + 1] == Line(h) && input[|body| + 1..] == following;
  }

  // ---------- Unknown fields ----------

  function Key(f: string): string { if Cut(f).None? then "" else Cut(f).value.0 }

  lemma {:induction false} SeenUnknown(h: Hello, seen: set<string>, key: string, fields: seq<string>)
    requires forall f :: f in fields ==> Key(f) != key
    decreases |fields|
    ensures ParseFields(h, seen + {key}, fields) == ParseFields(h, seen, fields)
  {
    if fields != [] {
      assert Key(fields[0]) != key;
      match Cut(fields[0])
      case None =>
      case Some((k, value)) =>
        SeenUnknown(Told(h, k, ListOf(value)), seen + {k}, key, fields[1..]);
        assert seen + {key} + {k} == seen + {k} + {key};
    }
  }

  lemma {:induction false} UnknownField(h: Hello, seen: set<string>, before: seq<string>, f: string, after: seq<string>)
    requires Key(f) != "" && Key(f) != ROOTS && Key(f) != KIDS && Key(f) !in seen
    requires forall g :: g in before + after ==> Key(g) != Key(f)
    ensures ParseFields(h, seen, before + [f] + after) == ParseFields(h, seen, before + after)
    decreases |before|
  {
    if before == [] {
      assert before + [f] + after == [f] + after && before + after == after;
      assert ([f] + after)[1..] == after;
      SeenUnknown(h, seen, Key(f), after);
    } else {
      assert (before + [f] + after)[1..] == before[1..] + [f] + after;
      assert (before + after)[1..] == before[1..] + after;
      assert before[0] in before + after;
      match Cut(before[0])
      case None =>
      case Some((k, value)) =>
        if k != "" && k !in seen {
          UnknownField(Told(h, k, ListOf(value)), seen + {k}, before[1..], f, after);
        }
    }
  }

  /** One more field, of a key the line does not use, anywhere after the connector ID, changes nothing a line says. */
  lemma UnknownFieldIsIgnored(line: string, i: nat, f: string)
    requires
      var fields := Split(TrimSuffix(line, '\n'), ' ');
      && 2 <= i <= |fields|
      && !Has(f, ' ') && Key(f) != "" && Key(f) != ROOTS && Key(f) != KIDS
      && forall g :: g in fields[2..] ==> Key(g) != Key(f)
    ensures
      var fields := Split(TrimSuffix(line, '\n'), ' ');
      Parse(Join(fields[..i] + [f] + fields[i..], ' ') + "\n") == Parse(line)
  {
    var fields := Split(TrimSuffix(line, '\n'), ' ');
    var more := fields[..i] + [f] + fields[i..];
    SplitHasNoSep(TrimSuffix(line, '\n'), ' ');
    SplitJoin(more, ' ');
    assert TrimSuffix(Join(more, ' ') + "\n", '\n') == Join(more, ' ');
    assert more[2..] == fields[2..i] + [f] + fields[i..];
    assert fields[2..] == fields[2..i] + fields[i..];
    if fields[0] == PREFACE && IsConnectorID(fields[1]) {
      UnknownField(Hello(fields[1], [], []), {}, fields[2..i], f, fields[i..]);
    }
  }
}
