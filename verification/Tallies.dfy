/** Counter maps (`discard_reasons`) and their sums. */
module Tallies {

  type Tally = map<string, nat>

  function Get(m: Tally, k: string): nat {
    if k in m then m[k] else 0
  }

  ghost function SumOver(keys: set<string>, m: Tally): nat {
    if keys == {} then 0
    else
      var k :| k in keys;
      Get(m, k) + SumOver(keys - {k}, m)
  }

  ghost function Sum(m: Tally): nat {
    SumOver(m.Keys, m)
  }

  lemma {:induction false} SumOverSplit(keys: set<string>, m: Tally, k: string)
    requires k in keys
    ensures SumOver(keys, m) == Get(m, k) + SumOver(keys - {k}, m)
  {
    var j :| j in keys && SumOver(keys, m) == Get(m, j) + SumOver(keys - {j}, m);
    if j != k {
      SumOverSplit(keys - {j}, m, k);
      SumOverSplit(keys - {k}, m, j);
      assert keys - {j} - {k} == keys - {k} - {j};
    }
  }

  /** Keys outside the map add nothing. */
  lemma {:induction false} SumOverWider(keys: set<string>, m: Tally)
    requires m.Keys <= keys
    ensures SumOver(keys, m) == Sum(m)
    decreases keys - m.Keys
  {
    if keys - m.Keys != {} {
      var k :| k in keys - m.Keys;
      SumOverSplit(keys, m, k);
      SumOverWider(keys - {k}, m);
    } else {
      assert forall k :: k in keys ==> k in keys - m.Keys || k in m.Keys;
      assert keys == m.Keys;
    }
  }

  lemma {:induction false} SumOverAdds(keys: set<string>, a: Tally, b: Tally, c: Tally)
    requires forall k :: k in keys ==> Get(c, k) == Get(a, k) + Get(b, k)
    ensures SumOver(keys, c) == SumOver(keys, a) + SumOver(keys, b)
  {
    if keys != {} {
      var k :| k in keys;
      SumOverSplit(keys, a, k);
      SumOverSplit(keys, b, k);
      SumOverSplit(keys, c, k);
      SumOverAdds(keys - {k}, a, b, c);
    }
  }

  /** Adding two tallies pointwise adds their sums. */
  lemma SumAdds(a: Tally, b: Tally, c: Tally)
    requires forall k :: Get(c, k) == Get(a, k) + Get(b, k)
    ensures Sum(c) == Sum(a) + Sum(b)
  {
    var keys := a.Keys + b.Keys + c.Keys;
    SumOverWider(keys, a);
    SumOverWider(keys, b);
    SumOverWider(keys, c);
    SumOverAdds(keys, a, b, c);
  }

  /** Counting one more occurrence of `k`. */
  lemma SumIncrement(m: Tally, k: string)
    ensures Sum(m[k := Get(m, k) + 1]) == Sum(m) + 1
  {
    var one: Tally := map[k := 1];
    SumAdds(m, one, m[k := Get(m, k) + 1]);
    SumOverSplit({k}, one, k);
    assert {k} - {k} == {} && one.Keys == {k};
  }

  /** What has been flushed of a counter map: no reason ahead of the count, and both sums right. */
  ghost predicate Flushable(flushed: Tally, counted: Tally, flushedTotal: nat, total: nat) {
    && (forall r :: r in flushed ==> r in counted && flushed[r] <= counted[r])
    && (forall r :: r in counted ==> counted[r] > 0)
    && Sum(counted) == total
    && Sum(flushed) == flushedTotal
  }

  lemma FlushableIncrement(flushed: Tally, counted: Tally, flushedTotal: nat, total: nat, k: string)
    requires Flushable(flushed, counted, flushedTotal, total)
    ensures Flushable(flushed, counted[k := Get(counted, k) + 1], flushedTotal, total + 1)
  {
    SumIncrement(counted, k);
  }

  function Deltas(counted: Tally, flushed: Tally): map<string, int> {
    map r | r in counted :: counted[r] - Get(flushed, r)
  }

  function Positive(deltas: map<string, int>, r: string): nat {
    if r in deltas && deltas[r] > 0 then deltas[r] else 0
  }

  /** The positive deltas are exactly what is missing from the flushed map. */
  lemma DeltasComplete(flushed: Tally, counted: Tally, flushedTotal: nat, total: nat)
    requires Flushable(flushed, counted, flushedTotal, total)
    ensures forall r :: Get(counted, r) == Get(flushed, r) + Positive(Deltas(counted, flushed), r)
    ensures (forall r :: Positive(Deltas(counted, flushed), r) == 0) ==> flushed == counted
    ensures Flushable(counted, counted, total, total)
  {
    if forall r :: Positive(Deltas(counted, flushed), r) == 0 {
      forall r | r in counted ensures r in flushed && flushed[r] == counted[r] {
        assert Positive(Deltas(counted, flushed), r) == 0;
      }
    }
  }

  lemma FlushableSum(flushed: Tally, counted: Tally, flushedTotal: nat, total: nat)
    requires Flushable(flushed, counted, flushedTotal, total)
    ensures Sum(flushed) == flushedTotal && Sum(counted) == total
  {
  }
}
