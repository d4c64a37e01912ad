/**
  What one structured rule does to every node of a document, in terms of the rule's
  own filters and replacement: internal/redact/redact.go's documentation of the walk,
  address by address, and of the flag it raises.
*/
module RedactMeaning {
  import opened Wrappers
  import opened RedactWalk

  /** A filter covers a path if it names it or an ancestor of it; what an absent one does is said. */
  ghost predicate Listed(path: string, filter: Option<set<string>>, absent: bool) {
    if filter.None? then absent else PathPrefixIn(path, filter.value)
  }

  /** The allowlist covers the path, and the blocklist does not. */
  ghost predicate Rewritten(path: string, rule: Rule) {
    Listed(path, rule.redactFields, true) && !Listed(path, rule.skipFields, false)
  }

  /** A key is rewritten if the allowlist covers its object, and the blocklist does not cover its own path. */
  ghost function RenamedKey(path: string, key: string, rule: Rule): string {
    if Listed(path, rule.redactFields, true) && !Listed(ChildPath(path, key), rule.skipFields, false)
    then rule.replace(key) else key
  }

  /** A path is covered by itself and by whatever it continues past a separator. */
  lemma PrefixMeans(p: string, field: string)
    ensures IsPathPrefix(p, field) <==> field == p || exists rest :: field == p + "|" + rest
  {
    if |p| < |field| && field[..|p|] == p && field[|p|] == '|' {
      assert field == p + "|" + field[|p| + 1..];
    }
  }

  ghost predicate SkipsNothingAtTheTop(rule: Rule) { rule.skipFields.None? || "" !in rule.skipFields.value }

  // ---------- Every node ----------

  /** What the rule makes of one node at this path: of an object its keys, of an array its length, of a leaf the whole. */
  ghost predicate NodeMeans(a: Json, b: Json, path: string, rule: Rule) {
    match a
    case Obj(fields) => b.Obj? && b.fields.Keys == (set k | k in fields :: RenamedKey(path, k, rule))
    case Arr(items) => b.Arr? && |b.items| == |items|
    case Str(s) => b == Str(if Rewritten(path, rule) then rule.replace(s) else s)
    case Num(t) => b == if Rewritten(path, rule) && rule.replace(t) != t then Str(rule.replace(t)) else Num(t)
    case Bool(x) => b == Bool(x)
    case Null => b == Null
  }

  /** Where an address ends up once the keys on it are rewritten. */
  ghost function Renamed(base: string, address: seq<Step>, rule: Rule): (r: seq<Step>)
    ensures |r| == |address|
    decreases address
  {
    if address == [] then []
    else match address[0]
      case Key(k) => [Key(RenamedKey(base, k, rule))] + Renamed(ChildPath(base, k), address[1..], rule)
      case Index(i) => [Index(i)] + Renamed(base, address[1..], rule)
  }

  /** No two keys of any object are rewritten to one. */
  ghost predicate Unmerged(v: Json, path: string, rule: Rule)
    decreases v
  {
    match v
    case Obj(fields) =>
      && (forall j, k :: j in fields && k in fields && RenamedKey(path, j, rule) == RenamedKey(path, k, rule) ==> j == k)
      && (forall k :: k in fields ==> Unmerged(fields[k], ChildPath(path, k), rule))
    case Arr(items) => forall i :: 0 <= i < |items| ==> Unmerged(items[i], path, rule)
    case _ => true
  }

  /** The node of v at from is found in out where its keys were rewritten to, as its path says. */
  ghost predicate Arrives(v: Json, path: string, rule: Rule, out: Json, from: seq<Step>) {
    Resolve(v, from).Some? ==>
      && Resolve(out, Renamed(path, from, rule)).Some?
      && NodeMeans(Resolve(v, from).value, Resolve(out, Renamed(path, from, rule)).value, PathOf(path, from), rule)
  }

  /** The node of out at to is that of v at from. */
  ghost predicate Comes(v: Json, path: string, rule: Rule, out: Json, to: seq<Step>, from: seq<Step>) {
    Resolve(v, from).Some? && Renamed(path, from, rule) == to && Arrives(v, path, rule, out, from)
  }

  lemma ArrivesThroughKey(fields: map<string, Json>, path: string, rule: Rule, out: map<string, Json>, k: string, from: seq<Step>)
    requires k in fields && RenamedKey(path, k, rule) in out
    ensures Renamed(path, [Key(k)] + from, rule) == [Key(RenamedKey(path, k, rule))] + Renamed(ChildPath(path, k), from, rule)
    ensures Resolve(Obj(fields), [Key(k)] + from) == Resolve(fields[k], from)
    ensures Arrives(Obj(fields), path, rule, Obj(out), [Key(k)] + from)
       <==> Arrives(fields[k], ChildPath(path, k), rule, out[RenamedKey(path, k, rule)], from)
  {
    var there := Renamed(ChildPath(path, k), from, rule);
    assert ([Key(k)] + from)[1..] == from;
    assert ([Key(RenamedKey(path, k, rule))] + there)[1..] == there;
  }

  lemma ArrivesThroughIndex(items: seq<Json>, path: string, rule: Rule, out: seq<Json>, i: nat, from: seq<Step>)
    requires i < |items| == |out|
    ensures Renamed(path, [Index(i)] + from, rule) == [Index(i)] + Renamed(path, from, rule)
    ensures Resolve(Arr(items), [Index(i)] + from) == Resolve(items[i], from)
    ensures Arrives(Arr(items), path, rule, Arr(out), [Index(i)] + from) <==> Arrives(items[i], path, rule, out[i], from)
  {
    var there := Renamed(path, from, rule);
    assert ([Index(i)] + from)[1..] == from;
    assert ([Index(i)] + there)[1..] == there;
  }

  /** A node read by its own path is what it means, its children apart. */
  lemma PathwiseNode(v: Json, path: string, rule: Rule, out: Json)
    requires Pathwise(v, path, rule, out)
    ensures NodeMeans(v, out, path, rule) && Arrives(v, path, rule, out, [])
  {
    if v.Obj? {
      assert forall k :: k in v.fields ==> NewKey(path, k, rule) == RenamedKey(path, k, rule);
    }
  }

  /** An address of a node, taken apart at its first step. */
  lemma FirstStepOf(v: Json, address: seq<Step>)
    requires Resolve(v, address).Some? && address != []
    ensures !v.Leaf()
    ensures v.Obj? ==>
      && address[0].Key? && address[0].k in v.fields && address == [Key(address[0].k)] + address[1..]
      && Resolve(v.fields[address[0].k], address[1..]) == Resolve(v, address)
    ensures v.Arr? ==>
      && address[0].Index? && address[0].i < |v.items| && address == [Index(address[0].i)] + address[1..]
      && Resolve(v.items[address[0].i], address[1..]) == Resolve(v, address)
  {
  }

  /** Some child was sent to each key of the result. */
  lemma SomeChildAt(fields: map<string, Json>, path: string, rule: Rule, out: map<string, Json>, k': string) returns (k: string)
    requires Pathwise(Obj(fields), path, rule, Obj(out)) && k' in out
    ensures k in fields && RenamedKey(path, k, rule) == k' && Pathwise(fields[k], ChildPath(path, k), rule, out[k'])
  {
    k :| k in fields && NewKey(path, k, rule) == k' && PathwiseChild(fields, k, path, rule, out[k']);
  }

  /** With no two keys rewritten to one, each child is at its own. */
  lemma ThisChildAt(fields: map<string, Json>, path: string, rule: Rule, out: map<string, Json>, k: string)
    requires Pathwise(Obj(fields), path, rule, Obj(out)) && Unmerged(Obj(fields), path, rule) && k in fields
    ensures RenamedKey(path, k, rule) in out
    ensures Pathwise(fields[k], ChildPath(path, k), rule, out[RenamedKey(path, k, rule)])
  {
    assert NewKey(path, k, rule) in out;
    var j := SomeChildAt(fields, path, rule, out, RenamedKey(path, k, rule));
    assert j == k;
  }

  lemma ComesThroughKey(fields: map<string, Json>, path: string, rule: Rule, out: map<string, Json>, k: string,
                        to: seq<Step>, from: seq<Step>)
    requires k in fields && RenamedKey(path, k, rule) in out
    requires Comes(fields[k], ChildPath(path, k), rule, out[RenamedKey(path, k, rule)], to, from)
    ensures Comes(Obj(fields), path, rule, Obj(out), [Key(RenamedKey(path, k, rule))] + to, [Key(k)] + from)
  {
    ArrivesThroughKey(fields, path, rule, out, k, from);
  }

  lemma ComesThroughIndex(items: seq<Json>, path: string, rule: Rule, out: seq<Json>, i: nat, to: seq<Step>, from: seq<Step>)
    requires i < |items| == |out| && Comes(items[i], path, rule, out[i], to, from)
    ensures Comes(Arr(items), path, rule, Arr(out), [Index(i)] + to, [Index(i)] + from)
  {
    ArrivesThroughIndex(items, path, rule, out, i, from);
  }

  /** Every node of the result, in any order of the objects, is some node of the input, as that one's own path says. */
  lemma {:induction false} EveryNodeComes(v: Json, path: string, rule: Rule, out: Json, to: seq<Step>) returns (from: seq<Step>)
    requires Pathwise(v, path, rule, out) && Resolve(out, to).Some?
    ensures Comes(v, path, rule, out, to, from)
    decreases v
  {
    PathwiseNode(v, path, rule, out);
    if to == [] {
      from := [];
    } else {
      FirstStepOf(out, to);
      match v
      case Obj(fields) =>
        var k' := to[0].k;
        var k := SomeChildAt(fields, path, rule, out.fields, k');
        var rest := EveryNodeComes(fields[k], ChildPath(path, k), rule, out.fields[k'], to[1..]);
        from := [Key(k)] + rest;
        ComesThroughKey(fields, path, rule, out.fields, k, to[1..], rest);
      case Arr(items) =>
        var i := to[0].i;
        var rest := EveryNodeComes(items[i], path, rule, out.items[i], to[1..]);
        from := [Index(i)] + rest;
        ComesThroughIndex(items, path, rule, out.items, i, to[1..], rest);
      case _ =>
        assert false;
    }
  }

  /** With no two keys rewritten to one, every node of the input arrives. */
  lemma {:induction false} EveryNodeArrives(v: Json, path: string, rule: Rule, out: Json, from: seq<Step>)
    requires Pathwise(v, path, rule, out) && Unmerged(v, path, rule) && Resolve(v, from).Some?
    ensures Arrives(v, path, rule, out, from)
    decreases v
  {
    PathwiseNode(v, path, rule, out);
    if from != [] {
      FirstStepOf(v, from);
      match v
      case Obj(fields) =>
        var k := from[0].k;
        ThisChildAt(fields, path, rule, out.fields, k);
        EveryNodeArrives(fields[k], ChildPath(path, k), rule, out.fields[RenamedKey(path, k, rule)], from[1..]);
        ArrivesThroughKey(fields, path, rule, out.fields, k, from[1..]);
      case Arr(items) =>
        var i := from[0].i;
        EveryNodeArrives(items[i], path, rule, out.items[i], from[1..]);
        ArrivesThroughIndex(items, path, rule, out.items, i, from[1..]);
      case _ =>
    }
  }

  ghost predicate AllArrive(v: Json, path: string, rule: Rule, out: Json) {
    forall from :: Arrives(v, path, rule, out, from)
  }

  lemma ChildArrives(fields: map<string, Json>, path: string, rule: Rule, out: map<string, Json>, k: string)
    requires k in fields && RenamedKey(path, k, rule) in out && AllArrive(Obj(fields), path, rule, Obj(out))
    ensures AllArrive(fields[k], ChildPath(path, k), rule, out[RenamedKey(path, k, rule)])
  {
    forall from ensures Arrives(fields[k], ChildPath(path, k), rule, out[RenamedKey(path, k, rule)], from) {
      ArrivesThroughKey(fields, path, rule, out, k, from);
      assert Arrives(Obj(fields), path, rule, Obj(out), [Key(k)] + from);
    }
  }

  lemma ItemArrives(items: seq<Json>, path: string, rule: Rule, out: seq<Json>, i: nat)
    requires i < |items| == |out| && AllArrive(Arr(items), path, rule, Arr(out))
    ensures AllArrive(items[i], path, rule, out[i])
  {
    forall from ensures Arrives(items[i], path, rule, out[i], from) {
      ArrivesThroughIndex(items, path, rule, out, i, from);
      assert Arrives(Arr(items), path, rule, Arr(out), [Index(i)] + from);
    }
  }

  /** And nodes that all arrive are a walk. */
  lemma {:induction false} ArrivingIsPathwise(v: Json, path: string, rule: Rule, out: Json)
    requires AllArrive(v, path, rule, out)
    ensures Pathwise(v, path, rule, out)
    decreases v
  {
    assert Arrives(v, path, rule, out, []);
    match v
    case Obj(fields) =>
      assert forall k :: k in fields ==> NewKey(path, k, rule) == RenamedKey(path, k, rule);
      forall k | k in fields ensures PathwiseChild(fields, k, path, rule, out.fields[NewKey(path, k, rule)]) {
        ChildArrives(fields, path, rule, out.fields, k);
        ArrivingIsPathwise(fields[k], ChildPath(path, k), rule, out.fields[NewKey(path, k, rule)]);
      }
    case Arr(items) =>
      forall i | 0 <= i < |items| ensures Pathwise(items[i], path, rule, out.items[i]) {
        ItemArrives(items, path, rule, out.items, i);
        ArrivingIsPathwise(items[i], path, rule, out.items[i]);
      }
    case _ =>
  }

  /**
    A document whose keys stay apart is walked to out exactly when every node of it, at
    whatever address, is found in out as the filters say.
  */
  lemma WalkMeansEveryNode(v: Json, rule: Rule, out: Json)
    requires SkipsNothingAtTheTop(rule) && Unmerged(v, "", rule)
    ensures Walk(v, "", rule, out) <==> AllArrive(v, "", rule, out)
  {
    WalkOfDocument(v, rule, out);
    if Pathwise(v, "", rule, out) {
      forall from ensures Arrives(v, "", rule, out, from) {
        if Resolve(v, from).Some? {
          EveryNodeArrives(v, "", rule, out, from);
        }
      }
    }
    if AllArrive(v, "", rule, out) {
      ArrivingIsPathwise(v, "", rule, out);
    }
  }

  /** Of any document, merged keys or not, every node of the result is a node of the input as the filters say. */
  lemma WalkAddsNothing(v: Json, rule: Rule, out: Json, to: seq<Step>) returns (from: seq<Step>)
    requires SkipsNothingAtTheTop(rule) && Walk(v, "", rule, out) && Resolve(out, to).Some?
    ensures Comes(v, "", rule, out, to, from)
  {
    WalkOfDocument(v, rule, out);
    from := EveryNodeComes(v, "", rule, out, to);
  }

  // ---------- The flag ----------

  /** The rule changes a string, a number or a key of the node at this path. */
  ghost predicate Changes(a: Json, path: string, rule: Rule) {
    match a
    case Obj(fields) => exists k :: k in fields && RenamedKey(path, k, rule) != k
    case Str(s) => Rewritten(path, rule) && rule.replace(s) != s
    case Num(t) => Rewritten(path, rule) && rule.replace(t) != t
    case _ => false
  }

  ghost predicate ChangedAt(v: Json, path: string, rule: Rule, at: seq<Step>) {
    Resolve(v, at).Some? && Changes(Resolve(v, at).value, PathOf(path, at), rule)
  }

  ghost predicate SomethingChanges(v: Json, path: string, rule: Rule) {
    exists at :: ChangedAt(v, path, rule, at)
  }

  lemma ChangedThroughKey(fields: map<string, Json>, k: string, path: string, rule: Rule, at: seq<Step>)
    requires k in fields
    ensures ChangedAt(Obj(fields), path, rule, [Key(k)] + at) <==> ChangedAt(fields[k], ChildPath(path, k), rule, at)
  {
    assert ([Key(k)] + at)[1..] == at;
  }

  lemma ChangedThroughIndex(items: seq<Json>, i: nat, path: string, rule: Rule, at: seq<Step>)
    requires i < |items|
    ensures ChangedAt(Arr(items), path, rule, [Index(i)] + at) <==> ChangedAt(items[i], path, rule, at)
  {
    assert ([Index(i)] + at)[1..] == at;
  }

  /** What hits is changed somewhere. */
  lemma {:induction false} HitIsChange(v: Json, path: string, rule: Rule) returns (at: seq<Step>)
    requires Hits(v, path, rule)
    ensures ChangedAt(v, path, rule, at)
    decreases v
  {
    match v
    case Obj(fields) =>
      var k :| k in fields && HitsEntry(fields, k, path, rule);
      if NewKey(path, k, rule) != k {
        at := [];
        assert RenamedKey(path, k, rule) != k;
      } else {
        var rest := HitIsChange(fields[k], ChildPath(path, k), rule);
        at := [Key(k)] + rest;
        ChangedThroughKey(fields, k, path, rule, rest);
      }
    case Arr(items) =>
      var i :| 0 <= i < |items| && Hits(items[i], path, rule);
      var rest := HitIsChange(items[i], path, rule);
      at := [Index(i)] + rest;
      ChangedThroughIndex(items, i, path, rule, rest);
    case _ =>
      at := [];
  }

  /** Below a skipped path nothing changes. */
  lemma {:induction false} NothingChangesBelowASkip(v: Json, path: string, rule: Rule, at: seq<Step>)
    requires path != "" && Skipped(path, rule)
    ensures !ChangedAt(v, path, rule, at)
    decreases at
  {
    if at == [] {
      if v.Obj? {
        forall k | k in v.fields ensures RenamedKey(path, k, rule) == k {
          ScopeIsClosedDownwards(path, k, rule.skipFields.value);
        }
      }
    } else if Resolve(v, at).Some? {
      match v
      case Obj(fields) =>
        var k := at[0].k;
        ScopeIsClosedDownwards(path, k, rule.skipFields.value);
        NothingChangesBelowASkip(fields[k], ChildPath(path, k), rule, at[1..]);
      case Arr(items) =>
        NothingChangesBelowASkip(items[at[0].i], path, rule, at[1..]);
      case _ =>
    }
  }

  lemma {:induction false} ChangeIsHit(v: Json, path: string, rule: Rule, at: seq<Step>)
    requires (path != "" || SkipsNothingAtTheTop(rule)) && ChangedAt(v, path, rule, at)
    ensures Hits(v, path, rule)
    decreases at
  {
    if Skipped(path, rule) {
      if path != "" {
        NothingChangesBelowASkip(v, path, rule, at);
      }
    } else if at == [] {
      if v.Obj? {
        var k :| k in v.fields && RenamedKey(path, k, rule) != k;
        assert HitsEntry(v.fields, k, path, rule);
      }
    } else {
      match v
      case Obj(fields) =>
        var k := at[0].k;
        ChangeIsHit(fields[k], ChildPath(path, k), rule, at[1..]);
        assert HitsEntry(fields, k, path, rule);
      case Arr(items) =>
        ChangeIsHit(items[at[0].i], path, rule, at[1..]);
      case _ =>
    }
  }

  /** A walk of a document raises the flag exactly when some string, number or key in it is changed, and the document is not skipped whole. */
  lemma FlagMeansAChange(v: Json, rule: Rule)
    ensures Hits(v, "", rule) <==> SkipsNothingAtTheTop(rule) && SomethingChanges(v, "", rule)
  {
    if SkipsNothingAtTheTop(rule) {
      if Hits(v, "", rule) {
        var at := HitIsChange(v, "", rule);
      }
      if at :| ChangedAt(v, "", rule, at) {
        ChangeIsHit(v, "", rule, at);
      }
    } else {
      assert IsPathPrefix("", "");
    }
  }

  /** A blocklist that names the empty path leaves the document as it is. */
  lemma SkippedDocumentStays(v: Json, rule: Rule, out: Json)
    requires !SkipsNothingAtTheTop(rule)
    ensures Walk(v, "", rule, out) <==> out == v
  {
    WalkOfDocument(v, rule, out);
  }
}
