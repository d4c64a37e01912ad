/**
  Which nodes of a document share a walk path in internal/redact/redact.go, and so
  share the filter entries that name it: array positions are left out, and the
  separator of a path is not told from one inside a key.
*/
module RedactPaths {
  import opened Wrappers
  import opened Strings
  import opened RedactWalk

  /** The keys on an address, array positions left out. */
  function KeysOf(address: seq<Step>): seq<string> {
    if address == [] then []
    else match address[0]
      case Key(k) => [k] + KeysOf(address[1..])
      case Index(_) => KeysOf(address[1..])
  }

  /** Keys cut at the separators in them. */
  function Cut(keys: seq<string>): seq<string> {
    if keys == [] then [] else Split(keys[0], SEPARATOR) + Cut(keys[1..])
  }

  /** What a path tells of the keys on it: leading empty keys are lost, and the rest are cut. */
  function Pieces(keys: seq<string>): seq<string> {
    if keys == [] then [] else if keys[0] == "" then Pieces(keys[1..]) else Cut(keys)
  }

  /** The path of an address is its base and its keys, joined. */
  lemma {:induction false} PathIsJoin(base: string, address: seq<Step>)
    requires base != ""
    ensures PathOf(base, address) == Join([base] + KeysOf(address), SEPARATOR)
    decreases address
  {
    var keys := KeysOf(address);
    if address == [] {
      assert [base] + keys == [base];
    } else {
      match address[0]
      case Index(_) => PathIsJoin(base, address[1..]);
      case Key(k) =>
        var child := ChildPath(base, k);
        PathIsJoin(child, address[1..]);
        var rest := KeysOf(address[1..]);
        assert ([base] + keys)[1..] == [k] + rest;
        assert ([k] + rest)[1..] == rest && ([child] + rest)[1..] == rest;
        if rest == [] {
          assert [base] + keys == [base, k];
        } else {
          assert base + [SEPARATOR] + (k + [SEPARATOR] + Join(rest, SEPARATOR))
              == (base + [SEPARATOR] + k) + [SEPARATOR] + Join(rest, SEPARATOR);
        }
    }
  }

  lemma {:induction false} SplitInTwo(head: string, sep: char, tail: string)
    ensures Split(head + [sep] + tail, sep) == Split(head, sep) + Split(tail, sep)
  {
    var s := head + [sep] + tail;
    if head == "" {
      assert s[1..] == tail;
    } else {
      assert s[1..] == head[1..] + [sep] + tail;
      SplitInTwo(head[1..], sep, tail);
    }
  }

  lemma {:induction false} SplitOfJoin(keys: seq<string>)
    requires keys != []
    ensures Split(Join(keys, SEPARATOR), SEPARATOR) == Cut(keys)
  {
    if |keys| == 1 {
      assert keys[1..] == [];
    } else {
      SplitOfJoin(keys[1..]);
      SplitInTwo(keys[0], SEPARATOR, Join(keys[1..], SEPARATOR));
    }
  }

  /** A path says exactly the pieces of its keys. */
  lemma {:induction false} PathTells(address: seq<Step>)
    ensures PathOf("", address) == "" <==> Pieces(KeysOf(address)) == []
    ensures PathOf("", address) != "" ==> Split(PathOf("", address), SEPARATOR) == Pieces(KeysOf(address))
    decreases address
  {
    if address != [] {
      var keys := KeysOf(address);
      match address[0]
      case Index(_) => PathTells(address[1..]);
      case Key(k) =>
        assert keys[1..] == KeysOf(address[1..]);
        if k == "" {
          PathTells(address[1..]);
        } else {
          PathIsJoin(k, address[1..]);
          SplitOfJoin(keys);
          assert [k] + KeysOf(address[1..]) == keys;
        }
    }
  }

  /** Two nodes share a path, and every filter entry with it, exactly when their keys have the same pieces. */
  lemma SamePathExactly(a: seq<Step>, b: seq<Step>)
    ensures PathOf("", a) == PathOf("", b) <==> Pieces(KeysOf(a)) == Pieces(KeysOf(b))
  {
    PathTells(a);
    PathTells(b);
    JoinSplit(PathOf("", a), SEPARATOR);
    JoinSplit(PathOf("", b), SEPARATOR);
  }

  /** A key that is not empty and holds no separator is told by its path. */
  predicate Plain(key: string) { key != "" && !Has(key, SEPARATOR) }

  lemma {:induction false} PlainKeysAreTheirPieces(keys: seq<string>)
    requires forall k :: k in keys ==> Plain(k)
    ensures Cut(keys) == keys && Pieces(keys) == keys
  {
    if keys != [] {
      assert keys[0] in keys;
      PlainKeysAreTheirPieces(keys[1..]);
      SplitWithout(keys[0], SEPARATOR);
      assert [keys[0]] + keys[1..] == keys;
    }
  }

  /** So with plain keys a path names one list of keys. */
  lemma PlainPathsAreDistinct(a: seq<Step>, b: seq<Step>)
    requires forall k :: k in KeysOf(a) + KeysOf(b) ==> Plain(k)
    ensures PathOf("", a) == PathOf("", b) <==> KeysOf(a) == KeysOf(b)
  {
    SamePathExactly(a, b);
    PlainKeysAreTheirPieces(KeysOf(a));
    PlainKeysAreTheirPieces(KeysOf(b));
  }

  /** And without them it may not: an entry for the key "a|b" covers b under a, and one for "a" covers a under "". */
  lemma OnePathTwoNodes()
    ensures PathOf("", [Key("a|b")]) == PathOf("", [Key("a"), Key("b")])
    ensures PathOf("", [Key("a")]) == PathOf("", [Key(""), Key("a")])
  {
    var ab, a := [Key("a"), Key("b")], [Key(""), Key("a")];
    assert ab[1..] == [Key("b")] && ab[1..][1..] == [] && a[1..] == [Key("a")] && a[1..][1..] == [];
    assert [Key("a|b")][1..] == [] && [Key("a")][1..] == [];
    assert "a" + [SEPARATOR] + "b" == "a|b";
  }
}
