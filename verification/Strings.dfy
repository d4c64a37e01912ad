/** The parts of Go's strings package the parsers use. A string is a sequence of bytes, as characters. */
module Strings {
  import opened Wrappers

  function Join(parts: seq<string>, sep: char): string {
    if parts == [] then ""
    else if |parts| == 1 then parts[0]
    else parts[0] + [sep] + Join(parts[1..], sep)
  }

  function Split(s: string, sep: char): (r: seq<string>)
    ensures r != []
  {
    if s == "" then [""]
    else if s[0] == sep then [""] + Split(s[1..], sep)
    else
      var rest := Split(s[1..], sep);
      [[s[0]] + rest[0]] + rest[1..]
  }

  predicate Has(s: string, c: char) { c in s }

  lemma {:induction false} SplitWithout(s: string, sep: char)
    requires !Has(s, sep)
    ensures Split(s, sep) == [s]
  {
    if s != "" {
      SplitWithout(s[1..], sep);
      assert [s[0]] + s[1..] == s;
    }
  }

  lemma {:induction false} SplitAfter(head: string, sep: char, tail: string)
    requires !Has(head, sep)
    ensures Split(head + [sep] + tail, sep) == [head] + Split(tail, sep)
  {
    var s := head + [sep] + tail;
    if head == "" {
      assert s[1..] == tail;
    } else {
      assert s[1..] == head[1..] + [sep] + tail;
      SplitAfter(head[1..], sep, tail);
      assert [head[0]] + head[1..] == head;
    }
  }

  /** Splitting undoes joining, for parts that hold no separator. */
  lemma {:induction false} SplitJoin(parts: seq<string>, sep: char)
    requires parts != [] && forall p :: p in parts ==> !Has(p, sep)
    ensures Split(Join(parts, sep), sep) == parts
  {
    if |parts| == 1 {
      SplitWithout(parts[0], sep);
      assert parts == [parts[0]];
    } else {
      SplitAfter(parts[0], sep, Join(parts[1..], sep));
      SplitJoin(parts[1..], sep);
    }
  }

  lemma {:induction false} SplitHasNoSep(s: string, sep: char)
    ensures forall p :: p in Split(s, sep) ==> !Has(p, sep)
  {
    if s != "" {
      SplitHasNoSep(s[1..], sep);
      var rest := Split(s[1..], sep);
      assert rest[0] in rest;
      assert forall p :: p in rest[1..] ==> p in rest;
    }
  }

  lemma {:induction false} CharsOfJoin(parts: seq<string>, sep: char)
    ensures forall c :: c in Join(parts, sep) ==> c == sep || exists p :: p in parts && c in p
  {
    if |parts| > 1 {
      CharsOfJoin(parts[1..], sep);
      forall c | c in Join(parts, sep) ensures c == sep || exists p :: p in parts && c in p {
        if c in parts[0] {
          assert parts[0] in parts;
        } else if c != sep {
          assert c in Join(parts[1..], sep);
          var p :| p in parts[1..] && c in p;
          assert p in parts;
        }
      }
    } else if |parts| == 1 {
      assert parts[0] in parts;
    }
  }

  lemma {:induction false} JoinAppend(parts: seq<string>, last: string, sep: char)
    requires parts != []
    ensures Join(parts + [last], sep) == Join(parts, sep) + [sep] + last
  {
    if |parts| > 1 {
      assert (parts + [last])[1..] == parts[1..] + [last];
      JoinAppend(parts[1..], last, sep);
    } else {
      assert (parts + [last])[1..] == [last];
    }
  }

  lemma {:induction false} JoinSplit(s: string, sep: char)
    ensures Join(Split(s, sep), sep) == s
  {
    if s != "" {
      JoinSplit(s[1..], sep);
      var rest := Split(s[1..], sep);
      if s[0] == sep {
        assert ([""] + rest)[1..] == rest;
      } else {
        var parts := [[s[0]] + rest[0]] + rest[1..];
        assert parts[1..] == rest[1..];
        if |rest| > 1 {
          assert [s[0]] + (rest[0] + [sep] + Join(rest[1..], sep)) == parts[0] + [sep] + Join(rest[1..], sep);
        }
      }
    }
  }

  function TrimSuffix(s: string, c: char): string {
    if s != "" && s[|s| - 1] == c then s[..|s| - 1] else s
  }

  function IndexOf(s: string, c: char): (r: Option<nat>)
    ensures r.None? <==> !Has(s, c)
    ensures r.Some? ==> r.value < |s| && s[r.value] == c && !Has(s[..r.value], c)
  {
    if s == "" then None
    else if s[0] == c then Some(0)
    else match IndexOf(s[1..], c)
      case None => None
      case Some(i) =>
        assert s[..i + 1] == [s[0]] + s[1..][..i];
        Some(i + 1)
  }

  lemma IndexIs(head: string, c: char, tail: string)
    requires !Has(head, c)
    ensures IndexOf(head + [c] + tail, c) == Some(|head|)
  {
    var s := head + [c] + tail;
    assert s[|head|] == c;
    assert forall j :: 0 <= j < |head| ==> s[j] == head[j];
    var i := IndexOf(s, c).value;
    assert forall j :: 0 <= j < i ==> s[..i][j] == s[j];
  }

  function LastIndexOf(s: string, c: char): (r: Option<nat>)
    ensures r.None? <==> !Has(s, c)
    ensures r.Some? ==> r.value < |s| && s[r.value] == c && !Has(s[r.value + 1..], c)
  {
    if s == "" then None
    else if s[|s| - 1] == c then Some(|s| - 1)
    else match LastIndexOf(s[..|s| - 1], c)
      case None => None
      case Some(i) =>
        assert s[i + 1..] == s[..|s| - 1][i + 1..] + [s[|s| - 1]];
        Some(i)
  }

  lemma {:induction false} LastIndexIs(head: string, c: char, tail: string)
    requires !Has(tail, c)
    ensures LastIndexOf(head + [c] + tail, c) == Some(|head|)
    decreases |tail|
  {
    if tail != "" {
      var n := |tail| - 1;
      assert tail[n] in tail;
      assert (head + [c] + tail)[..|head| + 1 + n] == head + [c] + tail[..n];
      LastIndexIs(head, c, tail[..n]);
    }
  }
}
