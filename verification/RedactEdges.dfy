/**
  Exactly when two readings of internal/redact/redact.go hold that its code does not
  keep throughout: that a filter's entry covers whole subtrees, and that the order an
  object is walked in does not show.
*/
module RedactEdges {
  import opened Wrappers
  import opened MapFill
  import opened RedactWalk

  // ---------- What an entry covers ----------

  /** The filters' documentation: what an entry covers it covers with everything beneath it. */
  ghost predicate CoversWholeSubtrees(entries: set<string>) {
    forall path, key :: PathPrefixIn(path, entries) ==> PathPrefixIn(ChildPath(path, key), entries)
  }

  /** A key no entry covers at the top of a document. */
  lemma {:induction false} UncoveredKey(entries: set<string>) returns (key: string)
    ensures key != "" && SEPARATOR !in key && forall e :: e in entries ==> |e| < |key|
    decreases entries
  {
    if entries == {} {
      key := "k";
    } else {
      var e :| e in entries;
      var shorter := UncoveredKey(entries - {e});
      key := shorter + seq(|e|, _ => 'k');
    }
  }

  /** It is so exactly when "" is no entry: at the top of a document "" covers the document and none of its keys. */
  lemma SubtreesAreCoveredExactly(entries: set<string>)
    ensures CoversWholeSubtrees(entries) <==> "" !in entries
  {
    if "" in entries {
      var key := UncoveredKey(entries);
      assert PathPrefixIn("", entries) by { assert IsPathPrefix("", ""); }
      assert !PathPrefixIn(ChildPath("", key), entries) by {
        forall p | p in entries ensures !IsPathPrefix(p, key) {
          assert key[|p|] in key;
        }
      }
    } else {
      forall path, key | PathPrefixIn(path, entries) ensures PathPrefixIn(ChildPath(path, key), entries) {
        var p :| p in entries && IsPathPrefix(p, path);
        ScopeIsClosedDownwards(path, key, entries);
      }
    }
  }

  // ---------- Orders ----------

  /** The key each key of an object is rewritten to. */
  ghost function Targets(fields: map<string, Json>, path: string, rule: Rule): map<string, string> {
    map k | k in fields :: NewKey(path, k, rule)
  }

  /** out is what the code leaves of v, each object on the way walked in some order of its own. */
  ghost predicate WalkInOrder(v: Json, path: string, rule: Rule, out: Json)
    decreases v, 0
  {
    if Skipped(path, rule) then out == v
    else match v
      case Obj(fields) =>
        && out.Obj?
        && exists order, images: map<string, Json> ::
          && IsOrder(order, fields.Keys) && images.Keys == fields.Keys
          && out.fields == Filled(order, images, Targets(fields, path, rule))
          && forall k :: k in fields ==> InOrderChild(fields, k, path, rule, images[k])
      case Arr(items) =>
        && out.Arr?
        && |out.items| == |items|
        && forall i :: 0 <= i < |items| ==> WalkInOrder(items[i], path, rule, out.items[i])
      case _ => out == LeafImage(v, path, rule)
  }

  ghost predicate InOrderChild(fields: map<string, Json>, k: string, path: string, rule: Rule, out: Json)
    requires k in fields
    decreases fields[k], 1
  {
    WalkInOrder(fields[k], ChildPath(path, k), rule, out)
  }

  // ---------- A walk is what some orders give ----------

  ghost function Pick(fields: map<string, Json>, k': string, path: string, rule: Rule): (k: string)
    requires exists k :: k in fields && NewKey(path, k, rule) == k'
    ensures k in fields && NewKey(path, k, rule) == k'
  {
    var k :| k in fields && NewKey(path, k, rule) == k';
    k
  }

  ghost function NewKeys(fields: map<string, Json>, path: string, rule: Rule): set<string> {
    set k | k in fields :: NewKey(path, k, rule)
  }

  /** One result of walking v. */
  ghost function Image(v: Json, path: string, rule: Rule): Json
    decreases v
  {
    if Skipped(path, rule) then v
    else match v
      case Obj(fields) =>
        Obj(map k' | k' in NewKeys(fields, path, rule) ::
          var k := Pick(fields, k', path, rule); Image(fields[k], ChildPath(path, k), rule))
      case Arr(items) => Arr(seq(|items|, i requires 0 <= i < |items| => Image(items[i], path, rule)))
      case _ => LeafImage(v, path, rule)
  }

  /** A child's image, out of the recursion. */
  ghost function ChildImage(fields: map<string, Json>, k: string, path: string, rule: Rule): Json
    requires k in fields
  {
    Image(fields[k], ChildPath(path, k), rule)
  }

  lemma {:induction false} ImageIsWalk(v: Json, path: string, rule: Rule)
    ensures Walk(v, path, rule, Image(v, path, rule))
    decreases v
  {
    if !Skipped(path, rule) {
      match v
      case Obj(fields) =>
        var out := Image(v, path, rule);
        assert out.fields.Keys == NewKeys(fields, path, rule);
        forall k' | k' in out.fields
          ensures exists k :: k in fields && NewKey(path, k, rule) == k' && WalkChild(fields, k, path, rule, out.fields[k'])
        {
          var k := Pick(fields, k', path, rule);
          ImageIsWalk(fields[k], ChildPath(path, k), rule);
          assert WalkChild(fields, k, path, rule, out.fields[k']);
        }
      case Arr(items) =>
        forall i | 0 <= i < |items| ensures Walk(items[i], path, rule, Image(items[i], path, rule)) {
          ImageIsWalk(items[i], path, rule);
        }
      case _ =>
    }
  }

  ghost predicate WinnerAt(fields: map<string, Json>, k': string, path: string, rule: Rule, x: Json) {
    exists k :: k in fields && NewKey(path, k, rule) == k' && WalkChild(fields, k, path, rule, x)
  }

  /** A key out's value at k' is the image of. */
  ghost function Winner(fields: map<string, Json>, k': string, path: string, rule: Rule, x: Json): (k: string)
    requires WinnerAt(fields, k', path, rule, x)
    ensures k in fields && NewKey(path, k, rule) == k' && WalkChild(fields, k, path, rule, x)
  {
    var k :| k in fields && NewKey(path, k, rule) == k' && WalkChild(fields, k, path, rule, x);
    k
  }

  ghost predicate HasWinners(fields: map<string, Json>, path: string, rule: Rule, out: map<string, Json>) {
    out.Keys == NewKeys(fields, path, rule) && forall k' :: k' in out ==> WinnerAt(fields, k', path, rule, out[k'])
  }

  ghost function WinnersOf(fields: map<string, Json>, path: string, rule: Rule, out: map<string, Json>): (winners: map<string, string>)
    requires HasWinners(fields, path, rule, out)
    ensures winners.Keys == out.Keys && Winners(winners, fields.Keys, Targets(fields, path, rule))
    ensures forall k' :: k' in winners ==> winners[k'] in fields && WalkChild(fields, winners[k'], path, rule, out[k'])
  {
    map k' | k' in out :: Winner(fields, k', path, rule, out[k'])
  }

  /** Images of the children that leave out when the winners are written last. */
  ghost function ImagesFor(fields: map<string, Json>, path: string, rule: Rule, out: map<string, Json>): (images: map<string, Json>)
    requires HasWinners(fields, path, rule, out)
    ensures images.Keys == fields.Keys
    ensures forall k' :: k' in out ==> images[WinnersOf(fields, path, rule, out)[k']] == out[k']
  {
    var winners := WinnersOf(fields, path, rule, out);
    map k | k in fields ::
      if NewKey(path, k, rule) in winners && winners[NewKey(path, k, rule)] == k then out[NewKey(path, k, rule)]
      else ChildImage(fields, k, path, rule)
  }

  lemma ImagesForAreImages(fields: map<string, Json>, path: string, rule: Rule, out: map<string, Json>)
    requires HasWinners(fields, path, rule, out)
    ensures forall k :: k in fields ==> WalkChild(fields, k, path, rule, ImagesFor(fields, path, rule, out)[k])
  {
    forall k | k in fields ensures WalkChild(fields, k, path, rule, ImagesFor(fields, path, rule, out)[k]) {
      ImageIsWalk(fields[k], ChildPath(path, k), rule);
    }
  }

  /** A walk of an object is a fill of images its children have, in some order. */
  lemma WalkOfObjectIsFilled(fields: map<string, Json>, path: string, rule: Rule, out: map<string, Json>)
    returns (order: seq<string>, images: map<string, Json>)
    requires HasWinners(fields, path, rule, out)
    ensures IsOrder(order, fields.Keys) && images.Keys == fields.Keys
    ensures out == Filled(order, images, Targets(fields, path, rule))
    ensures forall k :: k in fields ==> WalkChild(fields, k, path, rule, images[k])
  {
    var winners := WinnersOf(fields, path, rule, out);
    images := ImagesFor(fields, path, rule, out);
    ImagesForAreImages(fields, path, rule, out);
    order := OrderFor(fields.Keys, winners, images, Targets(fields, path, rule));
    FillIs(Filled(order, images, Targets(fields, path, rule)), out, winners, images);
  }

  /** And the other way. */
  lemma FilledIsWalkOfObject(fields: map<string, Json>, path: string, rule: Rule, order: seq<string>, images: map<string, Json>)
    requires !Skipped(path, rule) && IsOrder(order, fields.Keys) && images.Keys == fields.Keys
    requires forall k :: k in fields ==> WalkChild(fields, k, path, rule, images[k])
    ensures Walk(Obj(fields), path, rule, Obj(Filled(order, images, Targets(fields, path, rule))))
  {
    var target := Targets(fields, path, rule);
    var out := Filled(order, images, target);
    FilledHolds(order, images, target);
    assert out.Keys == NewKeys(fields, path, rule);
    forall k' | k' in out
      ensures exists k :: k in fields && NewKey(path, k, rule) == k' && WalkChild(fields, k, path, rule, out[k'])
    {
      var k :| k in order && target[k] == k' && out[k'] == images[k];
    }
  }

  /** The walks of a tree are exactly what the code leaves of it, over all the orders of all its objects. */
  lemma {:induction false} WalksAreOrders(v: Json, path: string, rule: Rule, out: Json)
    ensures Walk(v, path, rule, out) <==> WalkInOrder(v, path, rule, out)
    decreases v
  {
    if !Skipped(path, rule) {
      match v
      case Obj(fields) =>
        forall k, o | k in fields
          ensures WalkChild(fields, k, path, rule, o) <==> InOrderChild(fields, k, path, rule, o)
        {
          WalksAreOrders(fields[k], ChildPath(path, k), rule, o);
        }
        if Walk(v, path, rule, out) {
          assert HasWinners(fields, path, rule, out.fields);
          var order, images := WalkOfObjectIsFilled(fields, path, rule, out.fields);
          assert out.fields == Filled(order, images, Targets(fields, path, rule));
        }
        if WalkInOrder(v, path, rule, out) {
          var order, images: map<string, Json> :|
            && IsOrder(order, fields.Keys) && images.Keys == fields.Keys
            && out.fields == Filled(order, images, Targets(fields, path, rule))
            && forall k :: k in fields ==> InOrderChild(fields, k, path, rule, images[k]);
          FilledIsWalkOfObject(fields, path, rule, order, images);
        }
      case Arr(items) =>
        forall i, o | 0 <= i < |items| ensures Walk(items[i], path, rule, o) <==> WalkInOrder(items[i], path, rule, o) {
          WalksAreOrders(items[i], path, rule, o);
        }
      case _ =>
    }
  }

  // ---------- Whether the order shows ----------

  /** At every object the children sent to one key have the same image, and so do the trees below. */
  ghost predicate Determined(v: Json, path: string, rule: Rule)
    decreases v
  {
    Skipped(path, rule) ||
    match v
    case Obj(fields) =>
      && (forall k :: k in fields ==> Determined(fields[k], ChildPath(path, k), rule))
      && (forall j, k :: j in fields && k in fields && NewKey(path, j, rule) == NewKey(path, k, rule) ==>
        ChildImage(fields, j, path, rule) == ChildImage(fields, k, path, rule))
    case Arr(items) => forall i :: 0 <= i < |items| ==> Determined(items[i], path, rule)
    case _ => true
  }

  lemma {:induction false} DeterminedHasOneWalk(v: Json, path: string, rule: Rule, out: Json)
    requires Determined(v, path, rule) && Walk(v, path, rule, out)
    ensures out == Image(v, path, rule)
    decreases v
  {
    if !Skipped(path, rule) {
      match v
      case Obj(fields) =>
        var image := Image(v, path, rule);
        assert image.fields.Keys == NewKeys(fields, path, rule);
        forall k' | k' in out.fields ensures out.fields[k'] == image.fields[k'] {
          var k :| k in fields && NewKey(path, k, rule) == k' && WalkChild(fields, k, path, rule, out.fields[k']);
          DeterminedHasOneWalk(fields[k], ChildPath(path, k), rule, out.fields[k']);
          var j := Pick(fields, k', path, rule);
          assert ChildImage(fields, j, path, rule) == ChildImage(fields, k, path, rule);
        }
        assert out.fields == image.fields;
      case Arr(items) =>
        forall i | 0 <= i < |items| ensures out.items[i] == Image(items[i], path, rule) {
          DeterminedHasOneWalk(items[i], path, rule, out.items[i]);
        }
        assert out.items == Image(v, path, rule).items;
      case _ =>
    }
  }

  ghost predicate OneWalk(v: Json, path: string, rule: Rule) {
    forall a, b :: Walk(v, path, rule, a) && Walk(v, path, rule, b) ==> a == b
  }

  /** Some order leaves any image of any child at the key it is rewritten to. */
  lemma OrderLeaves(fields: map<string, Json>, k: string, path: string, rule: Rule, x: Json) returns (out: Json)
    requires !Skipped(path, rule) && k in fields && WalkChild(fields, k, path, rule, x)
    ensures Walk(Obj(fields), path, rule, out) && NewKey(path, k, rule) in out.fields && out.fields[NewKey(path, k, rule)] == x
  {
    ImageIsWalk(Obj(fields), path, rule);
    var any := Image(Obj(fields), path, rule);
    out := Obj(any.fields[NewKey(path, k, rule) := x]);
    assert out.fields.Keys == any.fields.Keys;
  }

  lemma OneWalkOfChild(fields: map<string, Json>, k: string, path: string, rule: Rule)
    requires !Skipped(path, rule) && k in fields && OneWalk(Obj(fields), path, rule)
    ensures OneWalk(fields[k], ChildPath(path, k), rule)
  {
    var childPath := ChildPath(path, k);
    forall x, y | Walk(fields[k], childPath, rule, x) && Walk(fields[k], childPath, rule, y) ensures x == y {
      var a := OrderLeaves(fields, k, path, rule, x);
      var b := OrderLeaves(fields, k, path, rule, y);
      assert a == b;
    }
  }

  lemma OneWalkOfItem(items: seq<Json>, i: nat, path: string, rule: Rule)
    requires !Skipped(path, rule) && i < |items| && OneWalk(Arr(items), path, rule)
    ensures OneWalk(items[i], path, rule)
  {
    ImageIsWalk(Arr(items), path, rule);
    var any := Image(Arr(items), path, rule).items;
    forall x, y | Walk(items[i], path, rule, x) && Walk(items[i], path, rule, y) ensures x == y {
      assert Walk(Arr(items), path, rule, Arr(any[i := x])) && Walk(Arr(items), path, rule, Arr(any[i := y]));
      assert any[i := x][i] == x && any[i := y][i] == y;
    }
  }

  lemma {:induction false} OneWalkIsDetermined(v: Json, path: string, rule: Rule)
    requires OneWalk(v, path, rule)
    ensures Determined(v, path, rule)
    decreases v
  {
    if !Skipped(path, rule) {
      match v
      case Obj(fields) =>
        forall k | k in fields ensures Determined(fields[k], ChildPath(path, k), rule) {
          OneWalkOfChild(fields, k, path, rule);
          OneWalkIsDetermined(fields[k], ChildPath(path, k), rule);
        }
        forall j, k | j in fields && k in fields && NewKey(path, j, rule) == NewKey(path, k, rule)
          ensures ChildImage(fields, j, path, rule) == ChildImage(fields, k, path, rule)
        {
          ImageIsWalk(fields[j], ChildPath(path, j), rule);
          ImageIsWalk(fields[k], ChildPath(path, k), rule);
          var a := OrderLeaves(fields, j, path, rule, ChildImage(fields, j, path, rule));
          var b := OrderLeaves(fields, k, path, rule, ChildImage(fields, k, path, rule));
          assert a == b;
        }
      case Arr(items) =>
        forall i | 0 <= i < |items| ensures Determined(items[i], path, rule) {
          OneWalkOfItem(items, i, path, rule);
          OneWalkIsDetermined(items[i], path, rule);
        }
      case _ =>
    }
  }

  ghost predicate OneResult(v: Json, path: string, rule: Rule) {
    forall a, b :: WalkInOrder(v, path, rule, a) && WalkInOrder(v, path, rule, b) ==> a == b
  }

  lemma OneResultIsOneWalk(v: Json, path: string, rule: Rule)
    ensures OneResult(v, path, rule) <==> OneWalk(v, path, rule)
  {
    if OneResult(v, path, rule) {
      forall a, b | Walk(v, path, rule, a) && Walk(v, path, rule, b) ensures a == b {
        WalksAreOrders(v, path, rule, a);
        WalksAreOrders(v, path, rule, b);
      }
    }
    if OneWalk(v, path, rule) {
      forall a, b | WalkInOrder(v, path, rule, a) && WalkInOrder(v, path, rule, b) ensures a == b {
        WalksAreOrders(v, path, rule, a);
        WalksAreOrders(v, path, rule, b);
      }
    }
  }

  /** Over a whole tree, the orders of its objects show in the result exactly when somewhere two children sent to one key differ there. */
  lemma CollisionsShowTheOrder(v: Json, path: string, rule: Rule)
    ensures OneResult(v, path, rule) <==> Determined(v, path, rule)
  {
    OneResultIsOneWalk(v, path, rule);
    if Determined(v, path, rule) {
      forall a, b | Walk(v, path, rule, a) && Walk(v, path, rule, b) ensures a == b {
        DeterminedHasOneWalk(v, path, rule, a);
        DeterminedHasOneWalk(v, path, rule, b);
      }
    }
    if OneWalk(v, path, rule) {
      OneWalkIsDetermined(v, path, rule);
    }
  }

  /** A rule that rewrites both keys of {"a": "1", "b": "2"} to x. */
  const MERGES := Rule("merge", s => if s == "a" || s == "b" then "x" else s, true, None, None, None)

  const TWO_KEYS := map["a" := Str("1"), "b" := Str("2")]

  const BOTH_TO_X: map<string, string> := map["a" := "x", "b" := "x"]

  /** Walked a then b it leaves {"x": "2"}, walked b then a {"x": "1"}. */
  lemma TwoOrdersTwoResults()
    ensures Targets(TWO_KEYS, "", MERGES) == BOTH_TO_X
    ensures Filled(["a", "b"], TWO_KEYS, BOTH_TO_X) == map["x" := Str("2")]
    ensures Filled(["b", "a"], TWO_KEYS, BOTH_TO_X) == map["x" := Str("1")]
    ensures WalkInOrder(Obj(TWO_KEYS), "", MERGES, Obj(map["x" := Str("2")]))
    ensures WalkInOrder(Obj(TWO_KEYS), "", MERGES, Obj(map["x" := Str("1")]))
  {
    BothGoToX();
    TwoWrites("a", "b");
    TwoWrites("b", "a");
    ThatOrderWalks(["a", "b"]);
    ThatOrderWalks(["b", "a"]);
  }

  lemma BothGoToX()
    ensures Targets(TWO_KEYS, "", MERGES) == BOTH_TO_X
  {
    assert TWO_KEYS.Keys == {"a", "b"} == BOTH_TO_X.Keys;
  }

  lemma TextStays(k: string)
    requires k in TWO_KEYS
    ensures InOrderChild(TWO_KEYS, k, "", MERGES, TWO_KEYS[k])
  {
  }

  lemma ThatOrderWalks(order: seq<string>)
    requires order == ["a", "b"] || order == ["b", "a"]
    ensures WalkInOrder(Obj(TWO_KEYS), "", MERGES, Obj(Filled(order, TWO_KEYS, BOTH_TO_X)))
  {
    BothGoToX();
    TextStays("a");
    TextStays("b");
    assert TWO_KEYS.Keys == {"a", "b"};
    assert IsOrder(order, TWO_KEYS.Keys);
  }

  lemma TwoWrites(j: string, k: string)
    requires j in TWO_KEYS && k in TWO_KEYS
    ensures Filled([j, k], TWO_KEYS, BOTH_TO_X) == map["x" := TWO_KEYS[k]]
  {
    assert [] + [j] == [j] && [j] + [k] == [j, k];
    FilledOneMore([], j, TWO_KEYS, BOTH_TO_X);
    FilledOneMore([j], k, TWO_KEYS, BOTH_TO_X);
  }
}
