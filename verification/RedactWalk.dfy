/**
  The structured redaction walk of internal/redact/redact.go: one rule at a time
  over a decoded JSON tree, scoped by pipe-delimited path prefixes.

  `Walk` follows the code node by node and prunes at a skipped node. `Pathwise`
  never prunes: it decides every key and every leaf from its own path alone. The
  two agree, which is what the filters' documentation promises.

  A rule's regular expression is an arbitrary total function on text, and text
  is a sequence of characters standing for bytes.
*/
module RedactWalk {
  import opened Wrappers

  const SEPARATOR := '|'

  datatype Json =
    | Null
    | Bool(b: bool)
    | Num(text: string)
    | Str(s: string)
    | Arr(items: seq<Json>)
    | Obj(fields: map<string, Json>)
  {
    predicate Leaf() { !Arr? && !Obj? }
  }

  datatype Rule = Rule(
    name: string,
    replace: string -> string,
    structured: bool,
    redactFields: Option<set<string>>,
    skipFields: Option<set<string>>,
    hostMatchers: Option<seq<string -> bool>>)

  // ---------- Paths and scope ----------

  /** p is field itself, or an ancestor of it at a separator. */
  ghost predicate IsPathPrefix(p: string, field: string) {
    p == field || (|p| < |field| && field[..|p|] == p && field[|p|] == SEPARATOR)
  }

  ghost predicate PathPrefixIn(field: string, entries: set<string>) {
    exists p :: p in entries && IsPathPrefix(p, field)
  }

  method HasPathPrefixInSet(field: string, entries: set<string>) returns (found: bool)
    ensures found <==> PathPrefixIn(field, entries)
  {
    if field in entries {
      assert IsPathPrefix(field, field);
      return true;
    }
    for i := 0 to |field|
      invariant forall p :: p in entries && IsPathPrefix(p, field) ==> i <= |p|
    {
      if field[i] == SEPARATOR && field[..i] in entries {
        assert IsPathPrefix(field[..i], field);
        return true;
      }
      assert forall p :: p in entries && IsPathPrefix(p, field) && |p| == i ==> p == field[..i];
    }
    return false;
  }

  function ChildPath(path: string, key: string): string {
    if path == "" then key else path + [SEPARATOR] + key
  }

  ghost predicate Skipped(path: string, rule: Rule) {
    rule.skipFields.Some? && PathPrefixIn(path, rule.skipFields.value)
  }

  ghost predicate InScope(path: string, rule: Rule) {
    rule.redactFields.None? || PathPrefixIn(path, rule.redactFields.value)
  }

  /** The rule rewrites a string or number at this path. */
  ghost predicate Touched(path: string, rule: Rule) {
    InScope(path, rule) && !Skipped(path, rule)
  }

  /** The rule's blocklist names the empty path, which is the document itself. */
  ghost predicate SkipsDocument(rule: Rule) {
    rule.skipFields.Some? && "" in rule.skipFields.value
  }

  ghost function NewKey(path: string, key: string, rule: Rule): string {
    if InScope(path, rule) && !Skipped(ChildPath(path, key), rule) then rule.replace(key) else key
  }

  ghost function LeafImage(v: Json, path: string, rule: Rule): Json
    requires v.Leaf()
  {
    if !Touched(path, rule) then v
    else match v
      case Str(s) => Str(rule.replace(s))
      case Num(t) => if rule.replace(t) != t then Str(rule.replace(t)) else v
      case _ => v
  }

  /** Below a non-empty path, whatever a filter covers it covers with its whole subtree. */
  lemma ScopeIsClosedDownwards(path: string, key: string, entries: set<string>)
    requires path != "" && PathPrefixIn(path, entries)
    ensures PathPrefixIn(ChildPath(path, key), entries)
  {
    var p :| p in entries && IsPathPrefix(p, path);
    var child := ChildPath(path, key);
    assert child[..|p|] == path[..|p|];
    assert IsPathPrefix(p, child);
  }

  // ---------- What the code does, and what it means ----------

  /** out is a result of walking v at path: the code's cases, in any iteration order of each object. */
  ghost predicate Walk(v: Json, path: string, rule: Rule, out: Json)
    decreases v, 0
  {
    if Skipped(path, rule) then out == v
    else match v
      case Obj(fields) =>
        && out.Obj?
        && out.fields.Keys == (set k | k in fields :: NewKey(path, k, rule))
        && forall k' :: k' in out.fields ==>
          exists k :: k in fields && NewKey(path, k, rule) == k' && WalkChild(fields, k, path, rule, out.fields[k'])
      case Arr(items) =>
        && out.Arr?
        && |out.items| == |items|
        && forall i :: 0 <= i < |items| ==> Walk(items[i], path, rule, out.items[i])
      case _ => out == LeafImage(v, path, rule)
  }

  ghost predicate WalkChild(fields: map<string, Json>, k: string, path: string, rule: Rule, out: Json)
    requires k in fields
    decreases fields[k], 1
  {
    Walk(fields[k], ChildPath(path, k), rule, out)
  }

  /** Every key and every leaf decided by its own path, with no pruning. */
  ghost predicate Pathwise(v: Json, path: string, rule: Rule, out: Json)
    decreases v, 0
  {
    match v
    case Obj(fields) =>
      && out.Obj?
      && out.fields.Keys == (set k | k in fields :: NewKey(path, k, rule))
      && forall k' :: k' in out.fields ==>
        exists k :: k in fields && NewKey(path, k, rule) == k' && PathwiseChild(fields, k, path, rule, out.fields[k'])
    case Arr(items) =>
      && out.Arr?
      && |out.items| == |items|
      && forall i :: 0 <= i < |items| ==> Pathwise(items[i], path, rule, out.items[i])
    case _ => out == LeafImage(v, path, rule)
  }

  ghost predicate PathwiseChild(fields: map<string, Json>, k: string, path: string, rule: Rule, out: Json)
    requires k in fields
    decreases fields[k], 1
  {
    Pathwise(fields[k], ChildPath(path, k), rule, out)
  }

  lemma UnchangedObject(fields: map<string, Json>, path: string, rule: Rule, out: Json)
    requires forall k :: k in fields ==> NewKey(path, k, rule) == k
    requires forall k, o :: k in fields ==> (PathwiseChild(fields, k, path, rule, o) <==> o == fields[k])
    ensures Pathwise(Obj(fields), path, rule, out) <==> out == Obj(fields)
  {
    assert (set k | k in fields :: NewKey(path, k, rule)) == fields.Keys;
    if Pathwise(Obj(fields), path, rule, out) {
      forall k | k in fields ensures out.fields[k] == fields[k] {
        var j :| j in fields && NewKey(path, j, rule) == k && PathwiseChild(fields, j, path, rule, out.fields[k]);
      }
      assert out.fields == fields;
    }
  }

  lemma UnchangedArray(items: seq<Json>, path: string, rule: Rule, out: Json)
    requires forall i, o :: 0 <= i < |items| ==> (Pathwise(items[i], path, rule, o) <==> o == items[i])
    ensures Pathwise(Arr(items), path, rule, out) <==> out == Arr(items)
  {
    if Pathwise(Arr(items), path, rule, out) {
      assert forall i :: 0 <= i < |items| ==> Pathwise(items[i], path, rule, out.items[i]);
      assert out.items == items;
    }
  }

  /** Below a skipped path the unpruned reading changes nothing at any depth. */
  lemma {:induction false} SkippedSubtreeIsIdentity(v: Json, path: string, rule: Rule, out: Json)
    requires path != "" && Skipped(path, rule)
    ensures Pathwise(v, path, rule, out) <==> out == v
    decreases v
  {
    match v
    case Obj(fields) =>
      forall k | k in fields ensures Skipped(ChildPath(path, k), rule) {
        ScopeIsClosedDownwards(path, k, rule.skipFields.value);
      }
      forall k, o | k in fields ensures PathwiseChild(fields, k, path, rule, o) <==> o == fields[k] {
        SkippedSubtreeIsIdentity(fields[k], ChildPath(path, k), rule, o);
      }
      UnchangedObject(fields, path, rule, out);
    case Arr(items) =>
      forall i, o | 0 <= i < |items| ensures Pathwise(items[i], path, rule, o) <==> o == items[i] {
        SkippedSubtreeIsIdentity(items[i], path, rule, o);
      }
      UnchangedArray(items, path, rule, out);
    case _ =>
  }

  /**
    The walk of a document is exactly the pathwise reading of the filters; a
    blocklist naming the empty path is the one exception, and then nothing changes.
  */
  lemma WalkOfDocument(v: Json, rule: Rule, out: Json)
    ensures !SkipsDocument(rule) ==> (Walk(v, "", rule, out) <==> Pathwise(v, "", rule, out))
    ensures SkipsDocument(rule) ==> (Walk(v, "", rule, out) <==> out == v)
  {
    if SkipsDocument(rule) {
      assert IsPathPrefix("", "");
    } else {
      WalkIsPathwise(v, "", rule, out);
    }
  }

  lemma {:induction false} WalkIsPathwise(v: Json, path: string, rule: Rule, out: Json)
    requires path != "" || !SkipsDocument(rule)
    ensures Walk(v, path, rule, out) <==> Pathwise(v, path, rule, out)
    decreases v
  {
    if Skipped(path, rule) {
      SkippedSubtreeIsIdentity(v, path, rule, out);
    } else {
      match v
      case Obj(fields) =>
        forall k, o | k in fields
          ensures WalkChild(fields, k, path, rule, o) <==> PathwiseChild(fields, k, path, rule, o)
        {
          WalkIsPathwise(fields[k], ChildPath(path, k), rule, o);
        }
      case Arr(items) =>
        forall i, o | 0 <= i < |items|
          ensures Walk(items[i], path, rule, o) <==> Pathwise(items[i], path, rule, o)
        {
          WalkIsPathwise(items[i], path, rule, o);
        }
      case _ =>
    }
  }

  // ---------- Leaf by leaf ----------

  datatype Step = Key(k: string) | Index(i: nat)

  function Resolve(v: Json, address: seq<Step>): Option<Json>
    decreases address
  {
    if address == [] then Some(v)
    else match (v, address[0])
      case (Obj(fields), Key(k)) => if k in fields then Resolve(fields[k], address[1..]) else None
      case (Arr(items), Index(i)) => if i < |items| then Resolve(items[i], address[1..]) else None
      case _ => None
  }

  /** The walk path of an address: its keys joined, array positions left out. */
  function PathOf(base: string, address: seq<Step>): string
    decreases address
  {
    if address == [] then base
    else match address[0]
      case Key(k) => PathOf(ChildPath(base, k), address[1..])
      case Index(_) => PathOf(base, address[1..])
  }

  /** Where an address ends up once the keys on it are rewritten. */
  ghost function Moved(base: string, address: seq<Step>, rule: Rule): (r: seq<Step>)
    ensures |r| == |address|
    decreases address
  {
    if address == [] then []
    else match address[0]
      case Key(k) => [Key(NewKey(base, k, rule))] + Moved(ChildPath(base, k), address[1..], rule)
      case Index(i) => [Index(i)] + Moved(base, address[1..], rule)
  }

  /** Rewriting merges no two keys of any object in v. */
  ghost predicate CollisionFree(v: Json, path: string, rule: Rule)
    decreases v
  {
    match v
    case Obj(fields) =>
      && (forall j, k :: j in fields && k in fields && NewKey(path, j, rule) == NewKey(path, k, rule) ==> j == k)
      && (forall k :: k in fields ==> CollisionFree(fields[k], ChildPath(path, k), rule))
    case Arr(items) => forall i :: 0 <= i < |items| ==> CollisionFree(items[i], path, rule)
    case _ => true
  }

  /** The leaf of out at to is the image of the leaf of v at from, which moved there, as its own path decides. */
  ghost predicate CameFrom(v: Json, path: string, rule: Rule, out: Json, to: seq<Step>, from: seq<Step>) {
    && Moved(path, from, rule) == to
    && Resolve(v, from).Some? && Resolve(v, from).value.Leaf()
    && Resolve(out, to) == Some(LeafImage(Resolve(v, from).value, PathOf(path, from), rule))
  }

  lemma CameThroughKey(fields: map<string, Json>, path: string, rule: Rule, out: map<string, Json>, k: string,
                       to: seq<Step>, from: seq<Step>)
    requires k in fields && NewKey(path, k, rule) in out
    requires CameFrom(fields[k], ChildPath(path, k), rule, out[NewKey(path, k, rule)], to, from)
    ensures CameFrom(Obj(fields), path, rule, Obj(out), [Key(NewKey(path, k, rule))] + to, [Key(k)] + from)
  {
    assert ([Key(k)] + from)[1..] == from;
    assert ([Key(NewKey(path, k, rule))] + to)[1..] == to;
  }

  lemma CameThroughIndex(items: seq<Json>, path: string, rule: Rule, out: seq<Json>, i: nat, to: seq<Step>, from: seq<Step>)
    requires i < |items| == |out|
    requires CameFrom(items[i], path, rule, out[i], to, from)
    ensures CameFrom(Arr(items), path, rule, Arr(out), [Index(i)] + to, [Index(i)] + from)
  {
    assert ([Index(i)] + from)[1..] == from;
    assert ([Index(i)] + to)[1..] == to;
  }

  /** An address of a leaf, taken apart at its first step. */
  lemma FirstStep(v: Json, address: seq<Step>)
    requires Resolve(v, address).Some? && Resolve(v, address).value.Leaf()
    ensures v.Obj? ==>
      && address != [] && address[0].Key? && address[0].k in v.fields && address == [Key(address[0].k)] + address[1..]
      && Resolve(v.fields[address[0].k], address[1..]) == Resolve(v, address)
    ensures v.Arr? ==>
      && address != [] && address[0].Index? && address[0].i < |v.items| && address == [Index(address[0].i)] + address[1..]
      && Resolve(v.items[address[0].i], address[1..]) == Resolve(v, address)
    ensures v.Leaf() ==> address == []
  {
  }

  /**
    Whatever the iteration order, every leaf of the result is the image of some
    leaf of the input that moved there, and its own path alone decided that image.
  */
  lemma {:induction false} EveryLeafComesFromAnInputLeaf(v: Json, path: string, rule: Rule, out: Json, to: seq<Step>)
    returns (from: seq<Step>)
    requires Pathwise(v, path, rule, out)
    requires Resolve(out, to).Some? && Resolve(out, to).value.Leaf()
    ensures CameFrom(v, path, rule, out, to, from)
    decreases v
  {
    FirstStep(out, to);
    match v
    case Obj(fields) =>
      var k' := to[0].k;
      var k :| k in fields && NewKey(path, k, rule) == k' && PathwiseChild(fields, k, path, rule, out.fields[k']);
      var rest := EveryLeafComesFromAnInputLeaf(fields[k], ChildPath(path, k), rule, out.fields[k'], to[1..]);
      from := [Key(k)] + rest;
      CameThroughKey(fields, path, rule, out.fields, k, to[1..], rest);
    case Arr(items) =>
      var i := to[0].i;
      var rest := EveryLeafComesFromAnInputLeaf(items[i], path, rule, out.items[i], to[1..]);
      from := [Index(i)] + rest;
      CameThroughIndex(items, path, rule, out.items, i, to[1..], rest);
    case _ =>
      from := [];
  }

  /** With no colliding keys no leaf is lost: each is found where its address moved, as its path decided. */
  lemma {:induction false} EveryLeafArrives(v: Json, path: string, rule: Rule, out: Json, from: seq<Step>)
    requires Pathwise(v, path, rule, out) && CollisionFree(v, path, rule)
    requires Resolve(v, from).Some? && Resolve(v, from).value.Leaf()
    ensures Resolve(out, Moved(path, from, rule))
         == Some(LeafImage(Resolve(v, from).value, PathOf(path, from), rule))
    decreases v
  {
    match v
    case Obj(fields) =>
      var k := from[0].k;
      var k' := NewKey(path, k, rule);
      assert k' in out.fields;
      EveryLeafArrives(fields[k], ChildPath(path, k), rule, out.fields[k'], from[1..]);
      assert Moved(path, from, rule)[1..] == Moved(ChildPath(path, k), from[1..], rule);
    case Arr(items) =>
      var i := from[0].i;
      EveryLeafArrives(items[i], path, rule, out.items[i], from[1..]);
      assert Moved(path, from, rule)[1..] == Moved(path, from[1..], rule);
    case _ =>
  }

  // ---------- Iteration order ----------

  /** With no colliding keys the result does not depend on the order objects are walked in. */
  lemma {:induction false} OrderDoesNotMatter(v: Json, path: string, rule: Rule, a: Json, b: Json)
    requires CollisionFree(v, path, rule)
    requires Walk(v, path, rule, a) && Walk(v, path, rule, b)
    ensures a == b
    decreases v
  {
    if !Skipped(path, rule) {
      match v
      case Obj(fields) =>
        forall k' | k' in a.fields ensures a.fields[k'] == b.fields[k'] {
          var k :| k in fields && NewKey(path, k, rule) == k' && WalkChild(fields, k, path, rule, a.fields[k']);
          OrderDoesNotMatter(fields[k], ChildPath(path, k), rule, a.fields[k'], b.fields[k']);
        }
        assert a.fields == b.fields;
      case Arr(items) =>
        forall i | 0 <= i < |items| ensures a.items[i] == b.items[i] {
          OrderDoesNotMatter(items[i], path, rule, a.items[i], b.items[i]);
        }
        assert a.items == b.items;
      case _ =>
    }
  }

  // ---------- The matched flag ----------

  /** Some key or leaf in the walk is changed by the rule's replacement. */
  ghost predicate Hits(v: Json, path: string, rule: Rule)
    decreases v, 0
  {
    !Skipped(path, rule) &&
    match v
    case Obj(fields) => exists k :: k in fields && HitsEntry(fields, k, path, rule)
    case Arr(items) => exists i :: 0 <= i < |items| && Hits(items[i], path, rule)
    case Str(s) => InScope(path, rule) && rule.replace(s) != s
    case Num(t) => InScope(path, rule) && rule.replace(t) != t
    case _ => false
  }

  ghost predicate HitsEntry(fields: map<string, Json>, k: string, path: string, rule: Rule)
    requires k in fields
    decreases fields[k], 1
  {
    NewKey(path, k, rule) != k || Hits(fields[k], ChildPath(path, k), rule)
  }

  lemma {:induction false} UnmatchedWalkIsIdentity(v: Json, path: string, rule: Rule, out: Json)
    requires Walk(v, path, rule, out) && !Hits(v, path, rule)
    ensures out == v
    decreases v
  {
    if !Skipped(path, rule) {
      match v
      case Obj(fields) =>
        forall k' | k' in out.fields ensures k' in fields && out.fields[k'] == fields[k'] {
          var k :| k in fields && NewKey(path, k, rule) == k' && WalkChild(fields, k, path, rule, out.fields[k']);
          assert !HitsEntry(fields, k, path, rule);
          UnmatchedWalkIsIdentity(fields[k], ChildPath(path, k), rule, out.fields[k']);
        }
        forall k | k in fields ensures k in out.fields {
          assert !HitsEntry(fields, k, path, rule);
        }
        assert out.fields == fields;
      case Arr(items) =>
        forall i | 0 <= i < |items| ensures out.items[i] == items[i] {
          UnmatchedWalkIsIdentity(items[i], path, rule, out.items[i]);
        }
        assert out.items == items;
      case _ =>
    }
  }

  /** The shared flag every walk of one document sets. */
  class Flag {
    var raised: bool

    constructor ()
      ensures !raised
    {
      raised := false;
    }
  }

  // ---------- The walk itself ----------

  method ApplyOneRule(rule: Rule, src: string) returns (out: string, changed: bool)
    ensures out == rule.replace(src) && changed == (rule.replace(src) != src)
  {
    out := rule.replace(src);
    changed := out != src;
  }

  method IsSkipped(path: string, rule: Rule) returns (skip: bool)
    ensures skip == Skipped(path, rule)
  {
    if rule.skipFields.None? {
      return false;
    }
    skip := HasPathPrefixInSet(path, rule.skipFields.value);
  }

  method RedactValueForRule(v: Json, path: string, rule: Rule, matched: Flag) returns (out: Json)
    modifies matched
    ensures Walk(v, path, rule, out)
    ensures matched.raised == (old(matched.raised) || Hits(v, path, rule))
    decreases v
  {
    var skip := IsSkipped(path, rule);
    if skip {
      return v;
    }
    var inScope := true;
    if rule.redactFields.Some? {
      inScope := HasPathPrefixInSet(path, rule.redactFields.value);
    }
    match v
    case Obj(fields) =>
      var rewritten := RedactObject(v, path, rule, matched, inScope);
      return Obj(rewritten);
    case Arr(items) =>
      var val := items;
      for i := 0 to |items|
        invariant |val| == |items| && val[i..] == items[i..]
        invariant forall j :: 0 <= j < i ==> Walk(items[j], path, rule, val[j])
        invariant matched.raised == (old(matched.raised) || exists j :: 0 <= j < i && Hits(items[j], path, rule))
      {
        assert val[i] == val[i..][0] == items[i];
        var item := RedactValueForRule(val[i], path, rule, matched);
        val := val[i := item];
      }
      return Arr(val);
    case Str(s) =>
      if inScope {
        var redacted, hit := ApplyOneRule(rule, s);
        matched.raised := matched.raised || hit;
        return Str(redacted);
      }
      return v;
    case Num(text) =>
      if inScope {
        var redacted, hit := ApplyOneRule(rule, text);
        if hit {
          matched.raised := true;
          return Str(redacted);
        }
      }
      return v;
    case _ =>
      return v;
  }

  /** The object case: a fresh map, filled in an arbitrary order of the keys. */
  method RedactObject(v: Json, path: string, rule: Rule, matched: Flag, inScope: bool)
    returns (out: map<string, Json>)
    requires v.Obj? && inScope == InScope(path, rule) && !Skipped(path, rule)
    modifies matched
    ensures Walk(v, path, rule, Obj(out))
    ensures matched.raised == (old(matched.raised) || Hits(v, path, rule))
    decreases v, 0
  {
    var fields := v.fields;
    out := map[];
    var todo := fields.Keys;
    ghost var done: set<string> := {};
    while todo != {}
      invariant todo !! done && todo + done == fields.Keys
      invariant out.Keys == set k | k in done :: NewKey(path, k, rule)
      invariant forall k' :: k' in out ==>
        exists k :: k in done && NewKey(path, k, rule) == k' && WalkChild(fields, k, path, rule, out[k'])
      invariant matched.raised == (old(matched.raised) || exists k :: k in done && HitsEntry(fields, k, path, rule))
      decreases todo
    {
      var k :| k in todo;
      var childPath := ChildPath(path, k);
      var skip := IsSkipped(childPath, rule);
      var newKey, child := k, fields[k];
      if !skip {
        if inScope {
          var redactedKey, hit := ApplyOneRule(rule, k);
          newKey := redactedKey;
          matched.raised := matched.raised || hit;
        }
        child := RedactValueForRule(fields[k], childPath, rule, matched);
      }
      assert newKey == NewKey(path, k, rule) && WalkChild(fields, k, path, rule, child);
      out := out[newKey := child];
      todo, done := todo - {k}, done + {k};
    }
    assert done == fields.Keys;
  }

  // ---------- Several rules ----------

  /** out is reached by walking v under each structured rule in turn; hit says whether any walk hit. */
  ghost predicate WalkAll(v: Json, path: string, rules: seq<Rule>, out: Json, hit: bool)
    decreases |rules|, 1
  {
    if rules == [] then
      out == v && !hit
    else
      WalkAllThen(v, path, rules[..|rules| - 1], rules[|rules| - 1], out, hit)
  }

  ghost predicate WalkAllThen(v: Json, path: string, earlier: seq<Rule>, last: Rule, out: Json, hit: bool)
    decreases |earlier| + 1, 0
  {
    exists mid, before :: WalkAll(v, path, earlier, mid, before) && WalkOne(mid, before, path, last, out, hit)
  }

  /** One more rule: a byte-level rule has no part in the walk. */
  ghost predicate WalkOne(v: Json, before: bool, path: string, rule: Rule, out: Json, hit: bool) {
    if rule.structured then Walk(v, path, rule, out) && hit == (before || Hits(v, path, rule))
    else out == v && hit == before
  }

  method RedactValue(v: Json, path: string, rules: seq<Rule>, matched: Flag) returns (out: Json)
    modifies matched
    ensures exists hit :: WalkAll(v, path, rules, out, hit) && matched.raised == (old(matched.raised) || hit)
  {
    out := v;
    ghost var hit := false;
    for i := 0 to |rules|
      invariant WalkAll(v, path, rules[..i], out, hit)
      invariant matched.raised == (old(matched.raised) || hit)
    {
      assert rules[..i + 1][..i] == rules[..i];
      ghost var mid, before := out, hit;
      if rules[i].structured {
        out := RedactValueForRule(out, path, rules[i], matched);
        hit := before || Hits(mid, path, rules[i]);
      }
      assert WalkOne(mid, before, path, rules[i], out, hit);
    }
    assert rules[..|rules|] == rules;
  }

  /** No reported match over any list of rules means the tree is the one that came in. */
  lemma {:induction false} UnmatchedIsUnchanged(v: Json, path: string, rules: seq<Rule>, out: Json)
    requires WalkAll(v, path, rules, out, false)
    ensures out == v
    decreases |rules|
  {
    if rules != [] {
      var rule := rules[|rules| - 1];
      var mid, before :|
        WalkAll(v, path, rules[..|rules| - 1], mid, before) && WalkOne(mid, before, path, rule, out, false);
      UnmatchedIsUnchanged(v, path, rules[..|rules| - 1], mid);
      if rule.structured {
        UnmatchedWalkIsIdentity(mid, path, rule, out);
      }
    }
  }
}
