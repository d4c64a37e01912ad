/**
  The folded-duplicate scan of connector-lib/jws/jws.go: a loop over a JSON
  token stream with a stack of key sets, against the recursive definition on the
  tree. Lower-casing is an arbitrary function; the decoder refuses a key
  repeated exactly, as jsontext's does.
*/
module FoldedUnique {
  import opened Wrappers

  datatype Json =
    | Null
    | Scalar
    | Str(s: string)
    | Arr(items: seq<Json>)
    | Obj(members: seq<Member>)

  datatype Member = Member(key: string, value: Json)

  datatype Token = OpenObject | CloseObject | OpenArray | CloseArray | Text(s: string) | Other

  // ---------- The tree ----------

  /** No object anywhere in v has two keys that fold to one. */
  ghost predicate NoFoldedDuplicate(v: Json, fold: string -> string)
    decreases v
  {
    match v
    case Arr(items) => forall i :: 0 <= i < |items| ==> NoFoldedDuplicate(items[i], fold)
    case Obj(members) =>
      && (forall i, j :: 0 <= i < j < |members| ==> fold(members[i].key) != fold(members[j].key))
      && (forall i :: 0 <= i < |members| ==> NoFoldedDuplicate(members[i].value, fold))
    case _ => true
  }

  function Tokens(v: Json): seq<Token>
    decreases v, 1
  {
    match v
    case Null => [Other]
    case Scalar => [Other]
    case Str(s) => [Text(s)]
    case Arr(items) => [OpenArray] + ItemTokens(items) + [CloseArray]
    case Obj(members) => [OpenObject] + MemberTokens(members) + [CloseObject]
  }

  function ItemTokens(items: seq<Json>): seq<Token>
    decreases items, 0
  {
    if items == [] then [] else Tokens(items[0]) + ItemTokens(items[1..])
  }

  function MemberTokens(members: seq<Member>): seq<Token>
    decreases members, 0
  {
    if members == [] then []
    else [Text(members[0].key)] + Tokens(members[0].value) + MemberTokens(members[1..])
  }

  // ---------- The scan, token by token ----------

  /** An open container: whether it is an object, how many tokens it has had, and the names jsontext has seen in it. */
  datatype Frame = Frame(isObject: bool, n: nat, names: set<string>)

  /** The decoder's stack, top last, and the scan's stack of folded keys, one set per open object. */
  datatype Scan = Scan(stack: seq<Frame>, seen: seq<set<string>>)

  const START := Scan([Frame(false, 0, {})], [])

  /** The decoder's count of the innermost container goes up by one token. */
  function Bumped(stack: seq<Frame>): seq<Frame>
    requires stack != []
  {
    var top := stack[|stack| - 1];
    stack[|stack| - 1 := top.(n := top.n + 1)]
  }

  /** One token: the decoder moves, then the scan looks; None is a refusal by either, or a stream no decoder yields. */
  function Next(s: Scan, t: Token, fold: string -> string): Option<Scan> {
    if s.stack == [] then None
    else
      var top := s.stack[|s.stack| - 1];
      match t
      case OpenObject => Some(Scan(Bumped(s.stack) + [Frame(true, 0, {})], s.seen + [{}]))
      case OpenArray => Some(Scan(Bumped(s.stack) + [Frame(false, 0, {})], s.seen))
      case CloseObject =>
        if !top.isObject || s.seen == [] then None
        else Some(Scan(s.stack[..|s.stack| - 1], s.seen[..|s.seen| - 1]))
      case CloseArray => if top.isObject then None else Some(Scan(s.stack[..|s.stack| - 1], s.seen))
      case Text(key) =>
        if !(top.isObject && top.n % 2 == 0) then Some(Scan(Bumped(s.stack), s.seen))
        else if s.seen == [] || key in top.names || fold(key) in s.seen[|s.seen| - 1] then None
        else
          var named := s.stack[|s.stack| - 1 := top.(n := top.n + 1, names := top.names + {key})];
          Some(Scan(named, s.seen[|s.seen| - 1 := s.seen[|s.seen| - 1] + {fold(key)}]))
      case Other => Some(Scan(Bumped(s.stack), s.seen))
  }

  function Scanned(s: Scan, tokens: seq<Token>, fold: string -> string): Option<Scan>
    decreases |tokens|
  {
    if tokens == [] then Some(s)
    else match Next(s, tokens[0], fold)
      case None => None
      case Some(s') => Scanned(s', tokens[1..], fold)
  }

  lemma {:induction false} ScannedInTwo(s: Scan, a: seq<Token>, b: seq<Token>, fold: string -> string)
    ensures Scanned(s, a + b, fold) ==
      match Scanned(s, a, fold)
      case None => None
      case Some(s') => Scanned(s', b, fold)
    decreases |a|
  {
    if a == [] {
      assert a + b == b;
    } else {
      assert (a + b)[1..] == a[1..] + b;
      match Next(s, a[0], fold)
      case None =>
      case Some(s') => ScannedInTwo(s', a[1..], b, fold);
    }
  }

  /** A scan about to read a value: in an object, only after its key. */
  ghost predicate AtValue(s: Scan) {
    && s.stack != []
    && (s.stack[|s.stack| - 1].isObject ==> s.stack[|s.stack| - 1].n % 2 == 1)
  }

  /**
    Reading one value, anywhere in a stream, refuses exactly when the tree has a
    folded duplicate, and otherwise only counts the value as read.
  */
  lemma {:induction false} ScanOfValue(v: Json, s: Scan, fold: string -> string)
    requires AtValue(s)
    ensures Scanned(s, Tokens(v), fold) ==
      if NoFoldedDuplicate(v, fold) then Some(Scan(Bumped(s.stack), s.seen)) else None
    decreases v, 1
  {
    match v
    case Null =>
      assert [Other][1..] == [];
    case Scalar =>
      assert [Other][1..] == [];
    case Str(text) =>
      assert [Text(text)][1..] == [];
    case Arr(items) =>
      ScanOfArray(items, s, fold);
    case Obj(members) =>
      ScanOfObject(members, s, fold);
  }

  lemma {:induction false} ScanOfArray(items: seq<Json>, s: Scan, fold: string -> string)
    requires AtValue(s)
    ensures Scanned(s, Tokens(Arr(items)), fold) ==
      if forall i :: 0 <= i < |items| ==> NoFoldedDuplicate(items[i], fold)
      then Some(Scan(Bumped(s.stack), s.seen)) else None
    decreases items, 1
  {
    var inner := Scan(Bumped(s.stack) + [Frame(false, 0, {})], s.seen);
    var body := ItemTokens(items);
    assert Tokens(Arr(items)) == [OpenArray] + (body + [CloseArray]);
    assert Tokens(Arr(items))[1..] == body + [CloseArray];
    ScannedInTwo(inner, body, [CloseArray], fold);
    ScanOfItems(items, inner, fold);
    assert [CloseArray][1..] == [];
  }

  lemma {:induction false} ScanOfObject(members: seq<Member>, s: Scan, fold: string -> string)
    requires AtValue(s)
    ensures Scanned(s, Tokens(Obj(members)), fold) ==
      if NoFoldedDuplicate(Obj(members), fold) then Some(Scan(Bumped(s.stack), s.seen)) else None
    decreases members, 1
  {
    var inner := Scan(Bumped(s.stack) + [Frame(true, 0, {})], s.seen + [{}]);
    var body := MemberTokens(members);
    assert Tokens(Obj(members)) == [OpenObject] + (body + [CloseObject]);
    assert Tokens(Obj(members))[1..] == body + [CloseObject];
    ScannedInTwo(inner, body, [CloseObject], fold);
    ScanOfMembers(members, {}, inner, fold);
    FineEitherWay(members, {}, fold);
    assert NoFoldedDuplicate(Obj(members), fold) <==> FineInOrder(members, {}, fold);
    assert [CloseObject][1..] == [];
  }

  /** The scan with the innermost container's frame and the innermost key set replaced. */
  function Inside(s: Scan, top: Frame, keys: set<string>): Scan
    requires s.stack != [] && (top.isObject ==> s.seen != [])
  {
    Scan(s.stack[|s.stack| - 1 := top], if top.isObject then s.seen[|s.seen| - 1 := keys] else s.seen)
  }

  lemma {:induction false} ScanOfItems(items: seq<Json>, s: Scan, fold: string -> string)
    requires s.stack != [] && !s.stack[|s.stack| - 1].isObject
    ensures
      var top := s.stack[|s.stack| - 1];
      var r := Scanned(s, ItemTokens(items), fold);
      if forall i :: 0 <= i < |items| ==> NoFoldedDuplicate(items[i], fold)
      then r == Some(Inside(s, top.(n := top.n + |items|), {}))
      else r == None
    decreases items, 0
  {
    if items == [] {
      assert Inside(s, s.stack[|s.stack| - 1], {}).stack == s.stack;
    } else {
      ScannedInTwo(s, Tokens(items[0]), ItemTokens(items[1..]), fold);
      ScanOfValue(items[0], s, fold);
      assert forall i :: 1 <= i < |items| ==> items[i] == items[1..][i - 1];
      if NoFoldedDuplicate(items[0], fold) {
        var s' := Scan(Bumped(s.stack), s.seen);
        ScanOfItems(items[1..], s', fold);
        var top := s.stack[|s.stack| - 1];
        assert Inside(s', top.(n := top.n + |items|), {}) == Inside(s, top.(n := top.n + |items|), {});
      }
    }
  }

  ghost function Folded(names: set<string>, fold: string -> string): set<string> {
    set k | k in names :: fold(k)
  }

  /** The members still to come fold to distinct keys, none among those seen, and hold no duplicate themselves. */
  ghost predicate MembersFine(members: seq<Member>, names: set<string>, fold: string -> string) {
    && (forall i, j :: 0 <= i < j < |members| ==> fold(members[i].key) != fold(members[j].key))
    && (forall i :: 0 <= i < |members| ==> fold(members[i].key) !in Folded(names, fold))
    && (forall i :: 0 <= i < |members| ==> NoFoldedDuplicate(members[i].value, fold))
  }

  lemma MembersFineUnfold(members: seq<Member>, names: set<string>, fold: string -> string)
    requires members != []
    ensures MembersFine(members, names, fold) <==>
      && fold(members[0].key) !in Folded(names, fold)
      && NoFoldedDuplicate(members[0].value, fold)
      && MembersFine(members[1..], names + {members[0].key}, fold)
  {
    var rest, more := members[1..], names + {members[0].key};
    assert Folded(more, fold) == Folded(names, fold) + {fold(members[0].key)};
    assert forall i :: 1 <= i < |members| ==> members[i] == rest[i - 1];
    if MembersFine(rest, more, fold) && fold(members[0].key) !in Folded(names, fold) && NoFoldedDuplicate(members[0].value, fold) {
      forall i, j | 0 <= i < j < |members| ensures fold(members[i].key) != fold(members[j].key) {
        assert fold(rest[j - 1].key) !in Folded(more, fold);
      }
    }
  }

  /** MembersFine, one member at a time. */
  ghost predicate FineInOrder(members: seq<Member>, names: set<string>, fold: string -> string)
    decreases members
  {
    members == [] ||
    (&& fold(members[0].key) !in Folded(names, fold)
     && NoFoldedDuplicate(members[0].value, fold)
     && FineInOrder(members[1..], names + {members[0].key}, fold))
  }

  lemma {:induction false} FineEitherWay(members: seq<Member>, names: set<string>, fold: string -> string)
    ensures FineInOrder(members, names, fold) <==> MembersFine(members, names, fold)
    decreases members
  {
    if members != [] {
      MembersFineUnfold(members, names, fold);
      FineEitherWay(members[1..], names + {members[0].key}, fold);
    }
  }

  /** Inside an object about to read a key, these names having been read. */
  ghost predicate AtKey(s: Scan, names: set<string>, fold: string -> string) {
    && s.stack != [] && s.seen != []
    && var top := s.stack[|s.stack| - 1];
       top.isObject && top.n % 2 == 0 && top.names == names && s.seen[|s.seen| - 1] == Folded(names, fold)
  }

  /** Everything under the innermost object, which is still open, is as it was. */
  ghost predicate SameBelow(s: Scan, r: Scan) {
    && s.stack != [] && s.seen != [] && |r.stack| == |s.stack| && |r.seen| == |s.seen|
    && r.stack[..|s.stack| - 1] == s.stack[..|s.stack| - 1]
    && r.stack[|s.stack| - 1].isObject
    && r.seen[..|s.seen| - 1] == s.seen[..|s.seen| - 1]
  }

  lemma ReadKey(s: Scan, names: set<string>, key: string, fold: string -> string)
    requires AtKey(s, names, fold)
    ensures fold(key) in Folded(names, fold) ==> Next(s, Text(key), fold) == None
    ensures fold(key) !in Folded(names, fold) ==>
      && Next(s, Text(key), fold).Some?
      && var named := Next(s, Text(key), fold).value;
         && AtValue(named)
         && AtKey(Scan(Bumped(named.stack), named.seen), names + {key}, fold)
         && SameBelow(s, Scan(Bumped(named.stack), named.seen))
  {
    assert Folded(names + {key}, fold) == Folded(names, fold) + {fold(key)};
  }

  lemma {:induction false} ScanOfMembers(members: seq<Member>, names: set<string>, s: Scan, fold: string -> string)
    requires AtKey(s, names, fold)
    ensures
      var r := Scanned(s, MemberTokens(members), fold);
      if FineInOrder(members, names, fold) then r.Some? && SameBelow(s, r.value) else r == None
    decreases members, 0
  {
    if members != [] {
      var key, value := members[0].key, members[0].value;
      var rest := Tokens(value) + MemberTokens(members[1..]);
      assert MemberTokens(members) == [Text(key)] + rest;
      assert MemberTokens(members)[1..] == rest;
      ReadKey(s, names, key, fold);
      if fold(key) !in Folded(names, fold) {
        var named := Next(s, Text(key), fold).value;
        ScannedInTwo(named, Tokens(value), MemberTokens(members[1..]), fold);
        ScanOfValue(value, named, fold);
        if NoFoldedDuplicate(value, fold) {
          ScanOfMembers(members[1..], names + {key}, Scan(Bumped(named.stack), named.seen), fold);
        }
      }
    }
  }

  // ---------- The loop ----------

  /** foldedUnique on the tokens of one document; the decoder's own state is d. */
  method Accepts(raw: seq<Token>, fold: string -> string) returns (ok: bool)
    ensures ok <==> Scanned(START, raw, fold).Some?
  {
    var d := START.stack;
    var seen: seq<set<string>> := [];
    assert raw[0..] == raw;
    for i := 0 to |raw|
      invariant Scanned(START, raw, fold) == Scanned(Scan(d, seen), raw[i..], fold)
    {
      assert raw[i..][1..] == raw[i + 1..];
      if d == [] {
        return false;
      }
      var top := d[|d| - 1];
      match raw[i] {
        case OpenObject =>
          d := Bumped(d) + [Frame(true, 0, {})];
          seen := seen + [{}];
        case OpenArray =>
          d := Bumped(d) + [Frame(false, 0, {})];
        case CloseObject =>
          if !top.isObject || seen == [] {
            return false;
          }
          d := d[..|d| - 1];
          seen := seen[..|seen| - 1];
        case CloseArray =>
          if top.isObject {
            return false;
          }
          d := d[..|d| - 1];
        case Text(s) =>
          // A string at an odd position in an object, once read, is a key.
          var isKey := top.isObject && (top.n + 1) % 2 == 1;
          if isKey && s in top.names {
            return false;
          }
          d := d[|d| - 1 := top.(n := top.n + 1, names := if isKey then top.names + {s} else top.names)];
          if isKey {
            var key := fold(s);
            if seen == [] || key in seen[|seen| - 1] {
              return false;
            }
            seen := seen[|seen| - 1 := seen[|seen| - 1] + {key}];
          }
        case Other =>
          d := Bumped(d);
      }
    }
    return true;
  }

  /** The loop accepts a document exactly when no object in it, at any depth, repeats a key up to case. */
  lemma DocumentAccepted(v: Json, fold: string -> string)
    ensures Scanned(START, Tokens(v), fold).Some? <==> NoFoldedDuplicate(v, fold)
  {
    ScanOfValue(v, START, fold);
  }

  method FoldedUnique(v: Json, fold: string -> string) returns (ok: bool)
    ensures ok <==> NoFoldedDuplicate(v, fold)
  {
    ok := Accepts(Tokens(v), fold);
    DocumentAccepted(v, fold);
  }

  // ---------- The keys of a segment ----------

  /** The top-level object as the map it decodes to. */
  function Fields(members: seq<Member>): map<string, Json> {
    if members == [] then map[]
    else Fields(members[..|members| - 1])[members[|members| - 1].key := members[|members| - 1].value]
  }

  lemma {:induction false} FieldOf(members: seq<Member>, m: Member)
    requires forall i, j :: 0 <= i < j < |members| ==> members[i].key != members[j].key
    ensures m in members <==> m.key in Fields(members) && Fields(members)[m.key] == m.value
    ensures m.key in Fields(members) ==> Member(m.key, Fields(members)[m.key]) in members
  {
    if members != [] {
      var n := |members| - 1;
      assert members == members[..n] + [members[n]];
      assert forall x :: x in members[..n] ==> x.key != members[n].key;
      FieldOf(members[..n], m);
    }
  }

  /** The members a segment decodes to a map by: an object's, or none of null; anything else does not. */
  function MembersOf(v: Json): Option<seq<Member>> {
    match v
    case Obj(members) => Some(members)
    case Null => Some([])
    case _ => None
  }

  /**
    What a segment must be: an object, or null for none at all, with no key repeated,
    every required claim given, nothing unknown where that is refused, and of the types
    the claims have.
  */
  ghost predicate Decodes(v: Json, known: map<string, bool>, ignoreUnknown: bool, fold: string -> string, typed: Json -> bool) {
    && NoFoldedDuplicate(v, fold)
    && MembersOf(v).Some?
    && var members := MembersOf(v).value;
    && (forall k :: k in known && known[k] ==> exists m :: m in members && m.key == k && m.value != Null)
    && (!ignoreUnknown ==> forall m :: m in members ==> m.key in known)
    && typed(v)
  }

  method DecodeSegment(v: Json, known: map<string, bool>, ignoreUnknown: bool, fold: string -> string, typed: Json -> bool)
    returns (ok: bool)
    ensures ok <==> Decodes(v, known, ignoreUnknown, fold, typed)
  {
    if MembersOf(v).None? {
      return false;
    }
    var unique := FoldedUnique(v, fold);
    if !unique {
      return false;
    }
    var members := MembersOf(v).value;
    var obj := Fields(members);
    forall m ensures m in members <==> m.key in obj && obj[m.key] == m.value {
      FieldOf(members, m);
    }
    forall k | k in obj ensures Member(k, obj[k]) in members {
      FieldOf(members, Member(k, obj[k]));
    }
    var todo := known.Keys;
    while todo != {}
      invariant todo <= known.Keys
      invariant forall k :: k in known && k !in todo && known[k] ==> k in obj && obj[k] != Null
      decreases todo
    {
      var k :| k in todo;
      if known[k] && (k !in obj || obj[k] == Null) {
        return false;
      }
      todo := todo - {k};
    }
    assert forall k :: k in known && known[k] ==> Member(k, obj[k]) in members;
    todo := obj.Keys;
    while todo != {}
      invariant todo <= obj.Keys
      invariant !ignoreUnknown ==> forall k :: k in obj && k !in todo ==> k in known
      decreases todo
    {
      var k :| k in todo;
      if k !in known && !ignoreUnknown {
        assert Member(k, obj[k]) in members;
        return false;
      }
      todo := todo - {k};
    }
    return typed(v);
  }
}
