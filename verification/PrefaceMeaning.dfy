/**
  Exactly which lines connector-lib/rawpipe/rawpipe.go takes for a tunnel preface, and
  what each says: the head, a connector ID, and key=value fields of different keys.
*/
module PrefaceMeaning {
  import opened Wrappers
  import opened Strings
  import opened Preface

  /** 8, 4, 4, 4 and 12 lower-case hexadecimal digits, hyphenated. */
  predicate UUID(id: string) {
    && |id| == 36
    && id[8] == '-' && id[13] == '-' && id[18] == '-' && id[23] == '-'
    && forall i :: 0 <= i < 36 && i != 8 && i != 13 && i != 18 && i != 23 ==> '0' <= id[i] <= '9' || 'a' <= id[i] <= 'f'
  }

  /** Each field is a key, an equals sign and a value; a key is not empty and holds no equals sign. */
  ghost predicate Reads(fields: seq<string>, keys: seq<string>, values: seq<string>) {
    && |keys| == |fields| && |values| == |fields|
    && forall i :: 0 <= i < |fields| ==> keys[i] != "" && '=' !in keys[i] && fields[i] == keys[i] + "=" + values[i]
  }

  ghost predicate Different(keys: seq<string>) {
    forall i, j :: 0 <= i < j < |keys| ==> keys[i] != keys[j]
  }

  /** A value is a list between commas, and an empty one an empty list. */
  function Items(value: string): seq<string> { if value == "" then [] else Split(value, ',') }

  /** list is the one under this key, or, there being none, what was there before. */
  ghost predicate Under(keys: seq<string>, values: seq<string>, key: string, before: seq<string>, list: seq<string>) {
    && |keys| == |values|
    && (forall i :: 0 <= i < |keys| && keys[i] == key ==> list == Items(values[i]))
    && (key !in keys ==> list == before)
  }

  /** What fields of these keys and values make of a Hello. */
  ghost predicate Makes(h: Hello, keys: seq<string>, values: seq<string>, g: Hello) {
    && g.connector == h.connector
    && Under(keys, values, "roots", h.roots, g.roots)
    && Under(keys, values, "kids", h.kids, g.kids)
  }

  ghost predicate Unseen(keys: seq<string>, seen: set<string>) {
    forall k :: k in keys ==> k !in seen
  }

  lemma CutMeans(f: string, key: string, value: string)
    requires '=' !in key && f == key + "=" + value
    ensures Cut(f) == Some((key, value))
  {
    assert f == key + ['='] + value;
    IndexIs(key, '=', value);
    assert f[..|key|] == key && f[|key| + 1..] == value;
  }

  lemma CutReads(f: string)
    requires Cut(f).Some?
    ensures f == Cut(f).value.0 + "=" + Cut(f).value.1 && '=' !in Cut(f).value.0
  {
    var i := IndexOf(f, '=').value;
    assert f == f[..i] + [f[i]] + f[i + 1..];
  }

  lemma OneMoreReads(fields: seq<string>, key: string, value: string, keys: seq<string>, values: seq<string>)
    requires fields != [] && fields[0] == key + "=" + value && key != "" && '=' !in key
    requires Reads(fields[1..], keys, values) && Different(keys) && key !in keys
    ensures Reads(fields, [key] + keys, [value] + values) && Different([key] + keys)
  {
    var rest := fields[1..];
    assert forall i :: 1 <= i < |fields| ==> fields[i] == rest[i - 1];
    assert forall i :: 1 <= i <= |keys| ==> ([key] + keys)[i] == keys[i - 1] && keys[i - 1] in keys;
  }

  lemma OneMoreUnder(key: string, value: string, keys: seq<string>, values: seq<string>, name: string, before: seq<string>, list: seq<string>)
    requires key !in keys
    requires Under(keys, values, name, if name == key then Items(value) else before, list)
    ensures Under([key] + keys, [value] + values, name, before, list)
  {
    var ks, vs := [key] + keys, [value] + values;
    forall i | 0 <= i < |ks| && ks[i] == name ensures list == Items(vs[i]) {
      if i > 0 {
        assert keys[i - 1] == name && vs[i] == values[i - 1];
      } else {
        assert name !in keys;
      }
    }
    assert name !in ks ==> name !in keys;
  }

  /** Fields that parse are read, and make what they parse to. */
  lemma {:induction false} ParsedReads(h: Hello, seen: set<string>, fields: seq<string>) returns (keys: seq<string>, values: seq<string>)
    requires ParseFields(h, seen, fields).Some?
    ensures Reads(fields, keys, values) && Different(keys) && Unseen(keys, seen)
    ensures Makes(h, keys, values, ParseFields(h, seen, fields).value)
    decreases |fields|
  {
    if fields == [] {
      keys, values := [], [];
    } else {
      CutReads(fields[0]);
      var (key, value) := Cut(fields[0]).value;
      var told, g := Told(h, key, ListOf(value)), ParseFields(h, seen, fields).value;
      var ks, vs := ParsedReads(told, seen + {key}, fields[1..]);
      keys, values := [key] + ks, [value] + vs;
      OneMoreReads(fields, key, value, ks, vs);
      OneMoreUnder(key, value, ks, vs, "roots", h.roots, g.roots);
      OneMoreUnder(key, value, ks, vs, "kids", h.kids, g.kids);
    }
  }

  /** Fields that are read, of keys different and not seen, parse, to what they make. */
  lemma {:induction false} ReadParses(h: Hello, seen: set<string>, fields: seq<string>, keys: seq<string>, values: seq<string>, g: Hello)
    requires Reads(fields, keys, values) && Different(keys) && Unseen(keys, seen) && Makes(h, keys, values, g)
    ensures ParseFields(h, seen, fields) == Some(g)
    decreases |fields|
  {
    if fields != [] {
      CutMeans(fields[0], keys[0], values[0]);
      assert keys[0] in keys;
      var ks, vs := keys[1..], values[1..];
      assert forall i :: 0 <= i < |ks| ==> ks[i] == keys[i + 1];
      assert keys[0] !in ks;
      ReadParses(Told(h, keys[0], ListOf(values[0])), seen + {keys[0]}, fields[1..], ks, vs, g);
    }
  }

  /** The parts of a line between its spaces, its newline apart. */
  function PartsOf(line: string): seq<string> { Split(TrimSuffix(line, '\n'), ' ') }

  /** The line has the head and a connector ID, and its fields are read so, of different keys. */
  ghost predicate Accepts(line: string, keys: seq<string>, values: seq<string>) {
    var parts := PartsOf(line);
    && |parts| >= 2 && parts[0] == "TRAVERSAL-TUNNEL/1" && UUID(parts[1])
    && Reads(parts[2..], keys, values) && Different(keys)
  }

  lemma UUIDMeans(id: string)
    ensures IsConnectorID(id) <==> UUID(id)
  {
    if |id| == 36 && IsConnectorID(id) {
      assert Hyphenated(8) && Hyphenated(13) && Hyphenated(18) && Hyphenated(23);
    }
  }

  /** A line says exactly what its fields make: nothing is taken from any other, and nothing else is said. */
  lemma ParseExactly(line: string, h: Hello)
    ensures Parse(line) == Some(h) <==>
      exists keys, values :: Accepts(line, keys, values) && Makes(Hello(PartsOf(line)[1], [], []), keys, values, h)
  {
    var parts := PartsOf(line);
    if |parts| >= 2 {
      UUIDMeans(parts[1]);
    }
    if Parse(line) == Some(h) {
      var keys, values := ParsedReads(Hello(parts[1], [], []), {}, parts[2..]);
      assert Accepts(line, keys, values);
    }
    if keys, values :| Accepts(line, keys, values) && Makes(Hello(parts[1], [], []), keys, values, h) {
      ReadParses(Hello(parts[1], [], []), {}, parts[2..], keys, values, h);
    }
  }

  /** A value can be written exactly when it is not empty and holds only visible ASCII, no comma and no space. */
  lemma ValueExactly(v: string)
    ensures PrefaceValue(v) <==> v != "" && forall i :: 0 <= i < |v| ==> 33 <= v[i] as int <= 126 && v[i] != ','
  {
    assert forall i :: 0 <= i < |v| ==> v[i] in v;
  }

  /** Reading takes the line up to its newline, if that comes within 512 bytes; else 512 bytes, or all there are. */
  lemma ReadExactly(input: string, line: string, rest: string)
    requires '\n' !in line
    ensures input == line + "\n" + rest && |line| < 512 ==>
      ReadLine(input) == (match Parse(line + "\n") case Some(h) => Ok(h) case None => Err(BadPreface), rest)
    ensures input == line + rest && |line| == 512 ==> ReadLine(input) == (Err(TooLong), rest)
    ensures input == line && |line| < 512 ==> ReadLine(input) == (Err(UnexpectedEnd), "")
  {
    if input == line + "\n" + rest {
      assert input == line + ['\n'] + rest;
      IndexIs(line, '\n', rest);
      assert input[..|line| + 1] == line + "\n" && input[|line| + 1..] == rest;
    }
    if input == line + rest && |line| == 512 {
      NoEarlierNewline(input, line, rest);
    }
  }
}
