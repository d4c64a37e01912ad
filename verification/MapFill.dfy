/**
  Filling a fresh map from another's keys in an explicit order, each value written
  under a new key and the last write to a key winning: the object case of
  internal/redact/redact.go with the order of its range loop made visible.
*/
module MapFill {
  /** An order the keys of a map may come in: each of them, once. */
  ghost predicate IsOrder(order: seq<string>, keys: set<string>) {
    && (forall i, j :: 0 <= i < j < |order| ==> order[i] != order[j])
    && (forall k :: k in order <==> k in keys)
  }

  /** The keys of order written one after the other, key k's value under target[k]. */
  ghost function Filled<V>(order: seq<string>, values: map<string, V>, target: map<string, string>): map<string, V>
    requires forall k :: k in order ==> k in values && k in target
    decreases |order|
  {
    if order == [] then map[]
    else
      var k := order[|order| - 1];
      Filled(order[..|order| - 1], values, target)[target[k] := values[k]]
  }

  /** What a fill holds: a key for each key of the order, and at it the value of one sent there. */
  lemma {:induction false} FilledHolds<V>(order: seq<string>, values: map<string, V>, target: map<string, string>)
    requires forall k :: k in order ==> k in values && k in target
    ensures forall k :: k in order ==> target[k] in Filled(order, values, target)
    ensures forall k' :: k' in Filled(order, values, target) ==>
      exists k :: k in order && target[k] == k' && Filled(order, values, target)[k'] == values[k]
    decreases |order|
  {
    if order != [] {
      var n := |order| - 1;
      FilledHolds(order[..n], values, target);
      assert forall k :: k in order <==> k in order[..n] || k == order[n];
    }
  }

  lemma FilledOneMore<V>(order: seq<string>, k: string, values: map<string, V>, target: map<string, string>)
    requires k in values && k in target && forall j :: j in order ==> j in values && j in target
    ensures Filled(order + [k], values, target) == Filled(order, values, target)[target[k] := values[k]]
  {
    assert (order + [k])[..|order|] == order;
  }

  lemma {:induction false} SomeOrder(keys: set<string>) returns (order: seq<string>)
    ensures IsOrder(order, keys)
    decreases keys
  {
    if keys == {} {
      order := [];
    } else {
      var k :| k in keys;
      var rest := SomeOrder(keys - {k});
      order := rest + [k];
    }
  }

  /** A choice, for each new key, of the key sent there that is to be written last. */
  ghost predicate Winners(winners: map<string, string>, keys: set<string>, target: map<string, string>) {
    && keys == target.Keys
    && (forall k' :: k' in winners ==> winners[k'] in keys && target[winners[k']] == k')
    && (forall k :: k in keys ==> target[k] in winners)
  }

  /** Keys sent to different places and written last leave their values there. */
  lemma {:induction false} LastWritesStand<V>(before: seq<string>, last: seq<string>, values: map<string, V>, target: map<string, string>)
    requires forall k :: k in before + last ==> k in values && k in target
    requires forall i, j :: 0 <= i < j < |last| ==> target[last[i]] != target[last[j]]
    ensures forall i :: 0 <= i < |last| ==>
      && target[last[i]] in Filled(before + last, values, target)
      && Filled(before + last, values, target)[target[last[i]]] == values[last[i]]
    decreases |last|
  {
    if last != [] {
      var n := |last| - 1;
      assert before + last == (before + last[..n]) + [last[n]];
      LastWritesStand(before, last[..n], values, target);
      FilledOneMore(before + last[..n], last[n], values, target);
    }
  }

  /** Any choice of winners is what some order leaves. */
  lemma OrderFor<V>(keys: set<string>, winners: map<string, string>, values: map<string, V>, target: map<string, string>)
    returns (order: seq<string>)
    requires Winners(winners, keys, target) && values.Keys == keys
    ensures IsOrder(order, keys)
    ensures Filled(order, values, target).Keys == winners.Keys
    ensures forall k' :: k' in winners ==> Filled(order, values, target)[k'] == values[winners[k']]
  {
    var winning := set k' | k' in winners :: winners[k'];
    var losers := SomeOrder(keys - winning);
    var last := SomeOrder(winning);
    order := losers + last;
    OrdersJoin(losers, keys - winning, last, winning);
    assert keys - winning + winning == keys;
    FilledKeys(order, keys, winners, values, target);
    forall i, j | 0 <= i < j < |last| ensures target[last[i]] != target[last[j]] {
      assert last[i] in winning && last[j] in winning;
    }
    LastWritesStand(losers, last, values, target);
    forall k' | k' in winners ensures Filled(order, values, target)[k'] == values[winners[k']] {
      assert winners[k'] in last;
    }
  }

  /** A fill that holds, key by key, what out holds is out. */
  lemma FillIs<V>(filled: map<string, V>, out: map<string, V>, winners: map<string, string>, values: map<string, V>)
    requires filled.Keys == winners.Keys == out.Keys
    requires forall k' :: k' in winners ==> winners[k'] in values && filled[k'] == values[winners[k']] && values[winners[k']] == out[k']
    ensures filled == out
  {
  }

  lemma FilledKeys<V>(order: seq<string>, keys: set<string>, winners: map<string, string>, values: map<string, V>,
                      target: map<string, string>)
    requires Winners(winners, keys, target) && values.Keys == keys && IsOrder(order, keys)
    ensures Filled(order, values, target).Keys == winners.Keys
  {
    FilledHolds(order, values, target);
    forall k' ensures k' in Filled(order, values, target) <==> k' in winners {
      if k' in winners {
        assert winners[k'] in order;
      }
    }
  }

  lemma OrdersJoin(a: seq<string>, xs: set<string>, b: seq<string>, ys: set<string>)
    requires IsOrder(a, xs) && IsOrder(b, ys) && xs !! ys
    ensures IsOrder(a + b, xs + ys)
  {
    forall i, j | 0 <= i < j < |a + b| ensures (a + b)[i] != (a + b)[j] {
      assert i < |a| ==> a[i] in a;
      assert j >= |a| ==> b[j - |a|] in b;
    }
  }
}
