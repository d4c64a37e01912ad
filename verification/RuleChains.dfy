/**
  What a list of rules does to a body in internal/redact/redact.go: each rule that
  takes part is run over what the ones before it left, in the order of the list, in
  the byte-level pass and in the structured one.
*/
module RuleChains {
  import opened Wrappers
  import opened RedactWalk
  import opened RedactMeaning
  import opened RedactRules

  /** The rule has no hosts, or one of its matchers accepts the name. */
  ghost predicate Covers(rule: Rule, canonical: string) {
    rule.hostMatchers.Some? ==> exists m :: m in rule.hostMatchers.value && m(canonical)
  }

  lemma CoversIsApplies(rule: Rule, canonical: string)
    ensures AppliesToHost(rule, canonical) <==> Covers(rule, canonical)
  {
    if rule.hostMatchers.Some? {
      var ms: seq<string -> bool> := rule.hostMatchers.value;
      if m :| m in ms && m(canonical) {
        var i :| 0 <= i < |ms| && ms[i] == m;
        assert ms[i](canonical);
      }
    }
  }

  // ---------- Bytes ----------

  /** One text for each rule and one before them, each made of the one before by its rule, or left alone. */
  ghost predicate IsChain(rules: seq<Rule>, canonical: string, texts: seq<string>) {
    && |texts| == |rules| + 1
    && forall i :: 0 <= i < |rules| ==>
      texts[i + 1] == if !rules[i].structured && Covers(rules[i], canonical) then rules[i].replace(texts[i]) else texts[i]
  }

  ghost predicate SomeLinkDiffers(texts: seq<string>) {
    exists i :: 0 <= i < |texts| - 1 && texts[i] != texts[i + 1]
  }

  lemma OneLinkMore(rules: seq<Rule>, canonical: string, texts: seq<string>, rule: Rule, text: string)
    requires IsChain(rules, canonical, texts)
    requires text == if !rule.structured && Covers(rule, canonical) then rule.replace(texts[|rules|]) else texts[|rules|]
    ensures IsChain(rules + [rule], canonical, texts + [text])
    ensures SomeLinkDiffers(texts + [text]) <==> SomeLinkDiffers(texts) || text != texts[|rules|]
  {
    var more := texts + [text];
    assert more[|rules| + 1] == text && more[|rules|] == texts[|rules|];
    if i :| 0 <= i < |more| - 1 && more[i] != more[i + 1] && i < |texts| - 1 {
      assert texts[i] != texts[i + 1];
    }
    if i :| 0 <= i < |texts| - 1 && texts[i] != texts[i + 1] {
      assert more[i] != more[i + 1];
    }
  }

  lemma {:induction false} ChainOf(rules: seq<Rule>, canonical: string, src: string) returns (texts: seq<string>)
    ensures IsChain(rules, canonical, texts) && texts[0] == src
    ensures ApplyBytes(rules, canonical, src) == (texts[|rules|], SomeLinkDiffers(texts))
    decreases |rules|
  {
    if rules == [] {
      texts := [src];
    } else {
      var n := |rules| - 1;
      var rule := rules[n];
      var before := ChainOf(rules[..n], canonical, src);
      CoversIsApplies(rule, canonical);
      var text := if !rule.structured && Covers(rule, canonical) then rule.replace(before[n]) else before[n];
      OneLinkMore(rules[..n], canonical, before, rule, text);
      texts := before + [text];
      assert rules[..n] + [rule] == rules;
    }
  }

  lemma {:induction false} OneChain(rules: seq<Rule>, canonical: string, a: seq<string>, b: seq<string>, i: nat)
    requires IsChain(rules, canonical, a) && IsChain(rules, canonical, b) && a[0] == b[0] && i <= |rules|
    ensures a[i] == b[i]
  {
    if i > 0 {
      OneChain(rules, canonical, a, b, i - 1);
      assert a[i - 1 + 1] == b[i - 1 + 1];
    }
  }

  /** The byte-level pass ends with the chain's last text, and says it changed something exactly when some link differs. */
  lemma BytesAreAChain(rules: seq<Rule>, canonical: string, src: string, texts: seq<string>)
    requires IsChain(rules, canonical, texts) && texts[0] == src
    ensures ApplyBytes(rules, canonical, src) == (texts[|rules|], SomeLinkDiffers(texts))
  {
    var chain := ChainOf(rules, canonical, src);
    forall i | 0 <= i <= |rules| ensures chain[i] == texts[i] {
      OneChain(rules, canonical, chain, texts, i);
    }
    assert chain == texts;
  }

  /** Running a + b is running b over what a left. */
  lemma {:induction false} BytesCompose(a: seq<Rule>, b: seq<Rule>, canonical: string, src: string)
    ensures
      var (between, first) := ApplyBytes(a, canonical, src);
      var (out, second) := ApplyBytes(b, canonical, between);
      ApplyBytes(a + b, canonical, src) == (out, first || second)
    decreases |b|
  {
    if b == [] {
      assert a + b == a;
    } else {
      var n := |b| - 1;
      assert (a + b)[..|a + b| - 1] == a + b[..n];
      BytesCompose(a, b[..n], canonical, src);
    }
  }

  /** One rule alone. */
  lemma BytesOfOne(rule: Rule, canonical: string, src: string)
    ensures ApplyBytes([rule], canonical, src) ==
      if !rule.structured && Covers(rule, canonical) then (rule.replace(src), rule.replace(src) != src) else (src, false)
  {
    CoversIsApplies(rule, canonical);
    assert [rule][..0] == [];
    assert ApplyBytes([], canonical, src) == (src, false);
  }

  // ---------- Structured rules ----------

  lemma {:induction false} ActiveCompose(a: seq<Rule>, b: seq<Rule>, canonical: string)
    ensures Active(a + b, canonical) == Active(a, canonical) + Active(b, canonical)
    decreases |b|
  {
    if b == [] {
      assert a + b == a;
    } else {
      var n := |b| - 1;
      assert (a + b)[..|a + b| - 1] == a + b[..n];
      ActiveCompose(a, b[..n], canonical);
    }
  }

  lemma ActiveOfOne(rule: Rule, canonical: string)
    ensures Active([rule], canonical) == if rule.structured && Covers(rule, canonical) then [rule] else []
  {
    CoversIsApplies(rule, canonical);
    assert [rule][..0] == [];
    assert Active([], canonical) == [];
  }

  /** One tree for each rule and one before them, each a walk of the one before by its rule, or left alone. */
  ghost predicate IsWalkChain(rules: seq<Rule>, canonical: string, trees: seq<Json>) {
    && |trees| == |rules| + 1
    && forall i :: 0 <= i < |rules| ==> Link(rules[i], canonical, trees[i], trees[i + 1])
  }

  ghost predicate Link(rule: Rule, canonical: string, before: Json, after: Json) {
    if rule.structured && Covers(rule, canonical) then Walk(before, "", rule, after) else after == before
  }

  /** The rule takes part, and changes a string, a number or a key of the tree. */
  ghost predicate LinkChanges(rule: Rule, canonical: string, before: Json) {
    && rule.structured && Covers(rule, canonical)
    && SkipsNothingAtTheTop(rule) && SomethingChanges(before, "", rule)
  }

  ghost predicate SomeLinkChanges(rules: seq<Rule>, canonical: string, trees: seq<Json>)
    requires |trees| == |rules| + 1
  {
    exists i :: 0 <= i < |rules| && LinkChanges(rules[i], canonical, trees[i])
  }

  lemma WalkChainOneMore(rules: seq<Rule>, rule: Rule, canonical: string, trees: seq<Json>, out: Json)
    requires |trees| == |rules| + 1
    ensures IsWalkChain(rules + [rule], canonical, trees + [out]) <==>
      IsWalkChain(rules, canonical, trees) && Link(rule, canonical, trees[|rules|], out)
    ensures SomeLinkChanges(rules + [rule], canonical, trees + [out]) <==>
      SomeLinkChanges(rules, canonical, trees) || LinkChanges(rule, canonical, trees[|rules|])
  {
    var all, more := rules + [rule], trees + [out];
    assert forall i :: 0 <= i < |rules| ==> all[i] == rules[i];
    assert forall i :: 0 <= i < |trees| ==> more[i] == trees[i];
    assert all[|rules|] == rule && more[|rules|] == trees[|rules|] && more[|rules| + 1] == out;
    if IsWalkChain(all, canonical, more) {
      forall i | 0 <= i < |rules| ensures Link(rules[i], canonical, trees[i], trees[i + 1]) {
        assert Link(all[i], canonical, more[i], more[i + 1]);
      }
      assert Link(all[|rules|], canonical, more[|rules|], more[|rules| + 1]);
    }
    if SomeLinkChanges(rules, canonical, trees) {
      var i :| 0 <= i < |rules| && LinkChanges(rules[i], canonical, trees[i]);
      assert LinkChanges(all[i], canonical, more[i]);
    }
    if LinkChanges(rule, canonical, trees[|rules|]) {
      assert LinkChanges(all[|rules|], canonical, more[|rules|]);
    }
  }

  /** One more rule in a list, from the rules that take part. */
  lemma ActiveOneMore(rules: seq<Rule>, rule: Rule, canonical: string)
    ensures Active(rules + [rule], canonical) ==
      Active(rules, canonical) + if rule.structured && Covers(rule, canonical) then [rule] else []
  {
    ActiveCompose(rules, [rule], canonical);
    ActiveOfOne(rule, canonical);
  }

  /** out comes of one more walk, of a tree that the rules before may make of v. */
  ghost predicate Extends(v: Json, active: seq<Rule>, rule: Rule, mid: Json, before: bool, out: Json, hit: bool) {
    WalkAll(v, "", active, mid, before) && Walk(mid, "", rule, out) && hit == (before || Hits(mid, "", rule))
  }

  lemma WalkAllFrom(active: seq<Rule>, rule: Rule, v: Json, out: Json, hit: bool) returns (mid: Json, before: bool)
    requires rule.structured && WalkAll(v, "", active + [rule], out, hit)
    ensures Extends(v, active, rule, mid, before, out, hit)
  {
    var all := active + [rule];
    assert all[..|all| - 1] == active && all[|all| - 1] == rule;
    assert WalkAllThen(v, "", active, rule, out, hit);
    mid, before :| WalkAll(v, "", active, mid, before) && WalkOne(mid, before, "", rule, out, hit);
  }

  lemma WalkAllTo(active: seq<Rule>, rule: Rule, v: Json, mid: Json, before: bool, out: Json, hit: bool)
    requires rule.structured && Extends(v, active, rule, mid, before, out, hit)
    ensures WalkAll(v, "", active + [rule], out, hit)
  {
    var all := active + [rule];
    assert all[..|all| - 1] == active && all[|all| - 1] == rule;
    assert WalkOne(mid, before, "", rule, out, hit);
    assert WalkAllThen(v, "", active, rule, out, hit);
  }

  /** What the active rules may make of a tree comes of a chain over the whole list. */
  lemma {:induction false} WalkAllIsChain(rules: seq<Rule>, canonical: string, v: Json, out: Json, hit: bool) returns (trees: seq<Json>)
    requires WalkAll(v, "", Active(rules, canonical), out, hit)
    ensures IsWalkChain(rules, canonical, trees) && trees[0] == v && trees[|rules|] == out
    ensures hit <==> SomeLinkChanges(rules, canonical, trees)
    decreases |rules|
  {
    if rules == [] {
      trees := [v];
    } else {
      var n := |rules| - 1;
      var rule, earlier := rules[n], rules[..n];
      assert earlier + [rule] == rules;
      ActiveOneMore(earlier, rule, canonical);
      if rule.structured && Covers(rule, canonical) {
        var mid, before := WalkAllFrom(Active(earlier, canonical), rule, v, out, hit);
        var fewer := WalkAllIsChain(earlier, canonical, v, mid, before);
        FlagMeansAChange(mid, rule);
        WalkChainOneMore(earlier, rule, canonical, fewer, out);
        trees := fewer + [out];
      } else {
        assert Active(earlier, canonical) + [] == Active(earlier, canonical);
        var fewer := WalkAllIsChain(earlier, canonical, v, out, hit);
        WalkChainOneMore(earlier, rule, canonical, fewer, out);
        trees := fewer + [out];
      }
    }
  }

  /** And every chain is something they may make of it. */
  lemma {:induction false} ChainIsWalkAll(rules: seq<Rule>, canonical: string, trees: seq<Json>)
    requires IsWalkChain(rules, canonical, trees)
    ensures WalkAll(trees[0], "", Active(rules, canonical), trees[|rules|], SomeLinkChanges(rules, canonical, trees))
    decreases |rules|
  {
    if rules != [] {
      var n := |rules| - 1;
      var rule, earlier, fewer, out := rules[n], rules[..n], trees[..n + 1], trees[n + 1];
      assert earlier + [rule] == rules && fewer + [out] == trees;
      WalkChainOneMore(earlier, rule, canonical, fewer, out);
      ChainIsWalkAll(earlier, canonical, fewer);
      ActiveOneMore(earlier, rule, canonical);
      if rule.structured && Covers(rule, canonical) {
        FlagMeansAChange(fewer[n], rule);
        WalkAllTo(Active(earlier, canonical), rule, trees[0], fewer[n], SomeLinkChanges(earlier, canonical, fewer), out,
                  SomeLinkChanges(rules, canonical, trees));
      } else {
        assert Active(earlier, canonical) + [] == Active(earlier, canonical);
      }
    }
  }

  /** Some structured rule covers the host. */
  ghost predicate SomeTakesPart(rules: seq<Rule>, canonical: string) {
    exists i :: 0 <= i < |rules| && rules[i].structured && Covers(rules[i], canonical)
  }

  lemma {:induction false} NoneActive(rules: seq<Rule>, canonical: string)
    ensures Active(rules, canonical) != [] <==> SomeTakesPart(rules, canonical)
    decreases |rules|
  {
    if rules != [] {
      var n := |rules| - 1;
      NoneActive(rules[..n], canonical);
      assert rules[..n] + [rules[n]] == rules;
      ActiveOneMore(rules[..n], rules[n], canonical);
    }
  }

  /** The result of a chain of walks: its last tree, encoded, and whether some link changed something. */
  ghost predicate ChainResult(lib: Library, rules: seq<Rule>, canonical: string, trees: seq<Json>, r: Result<(string, bool), JsonFault>) {
    && IsWalkChain(rules, canonical, trees)
    && r == match lib.encode(trees[|rules|])
       case Err(e) => Err(e)
       case Ok(text) => Ok((text, SomeLinkChanges(rules, canonical, trees)))
  }

  /**
    The structured pass over a text: the text itself if no structured rule covers the
    host; else a refusal if it does not decode, or the result of a chain of walks of
    the tree it decodes to, one for each structured rule that covers the host, in order.
  */
  lemma JSONIsAChain(lib: Library, rules: seq<Rule>, canonical: string, src: string, r: Result<(string, bool), JsonFault>)
    ensures AppliedJSON(lib, rules, canonical, src, r) <==>
      if !SomeTakesPart(rules, canonical) then r == Ok((src, false))
      else match lib.decode(src)
        case Err(e) => r == Err(e)
        case Ok(v) => exists trees :: ChainResult(lib, rules, canonical, trees, r) && trees[0] == v
  {
    NoneActive(rules, canonical);
    if SomeTakesPart(rules, canonical) && lib.decode(src).Ok? {
      var v := lib.decode(src).value;
      if out, hit :| WalkAll(v, "", Active(rules, canonical), out, hit) && r == Encoded(lib, out, hit) {
        var trees := WalkAllIsChain(rules, canonical, v, out, hit);
        assert ChainResult(lib, rules, canonical, trees, r);
      }
      if trees :| ChainResult(lib, rules, canonical, trees, r) && trees[0] == v {
        ChainIsWalkAll(rules, canonical, trees);
      }
    }
  }
}
