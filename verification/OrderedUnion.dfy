/** The order-stable union of `common/records.py`: first occurrences win, order is kept. */
module OrderedUnion {

  ghost predicate Distinct(s: seq<string>) {
    forall i, j :: 0 <= i < j < |s| ==> s[i] != s[j]
  }

  /** What `list(dict.fromkeys(s))` returns. */
  function Dedup(s: seq<string>): (d: seq<string>)
    ensures Distinct(d)
    ensures forall x :: x in d <==> x in s
  {
    if s == [] then []
    else
      var d := Dedup(s[..|s| - 1]);
      var x := s[|s| - 1];
      assert s == s[..|s| - 1] + [x];
      if x in d then d else d + [x]
  }

  function Union(existing: seq<string>, incoming: seq<string>): seq<string> {
    Dedup(existing + incoming)
  }

  /** `dict.fromkeys` itself: keys are inserted one at a time and never move. */
  method FromKeys(s: seq<string>) returns (keys: seq<string>)
    ensures keys == Dedup(s)
  {
    keys := [];
    for i := 0 to |s|
      invariant keys == Dedup(s[..i])
    {
      assert s[..i + 1][..i] == s[..i];
      if s[i] !in keys {
        keys := keys + [s[i]];
      }
    }
    assert s[..|s|] == s;
  }

  lemma DedupStep(s: seq<string>, x: string)
    ensures Dedup(s + [x]) == if x in s then Dedup(s) else Dedup(s) + [x]
  {
    assert (s + [x])[..|s|] == s;
  }

  /** A list without repetitions is left alone. */
  lemma {:induction false} DedupDistinct(s: seq<string>)
    requires Distinct(s)
    ensures Dedup(s) == s
  {
    if s != [] {
      var front, x := s[..|s| - 1], s[|s| - 1];
      assert s == front + [x];
      DedupDistinct(front);
      DedupStep(front, x);
    }
  }

  /** Values already present on the left add nothing. */
  lemma {:induction false} DedupAbsorbs(a: seq<string>, b: seq<string>)
    requires forall x :: x in b ==> x in a
    ensures Dedup(a + b) == Dedup(a)
  {
    if b == [] {
      assert a + b == a;
    } else {
      var front, x := b[..|b| - 1], b[|b| - 1];
      assert x in b && a + b == (a + front) + [x];
      assert forall y :: y in front ==> y in b;
      DedupAbsorbs(a, front);
      DedupStep(a + front, x);
    }
  }

  /** Deduplicating a left part early changes nothing. */
  lemma {:induction false} DedupLeft(a: seq<string>, b: seq<string>)
    ensures Dedup(Dedup(a) + b) == Dedup(a + b)
  {
    var d := Dedup(a);
    if b == [] {
      assert d + b == d && a + b == a;
      DedupDistinct(d);
    } else {
      var front, x := b[..|b| - 1], b[|b| - 1];
      assert d + b == (d + front) + [x] && a + b == (a + front) + [x];
      DedupLeft(a, front);
      DedupStep(d + front, x);
      DedupStep(a + front, x);
    }
  }

  /** Deduplicating a right part early changes nothing. */
  lemma {:induction false} DedupRight(a: seq<string>, b: seq<string>)
    ensures Dedup(a + Dedup(b)) == Dedup(a + b)
  {
    if b != [] {
      var front, x := b[..|b| - 1], b[|b| - 1];
      var d := Dedup(front);
      assert b == front + [x] && a + b == (a + front) + [x] && a + (d + [x]) == (a + d) + [x];
      DedupRight(a, front);
      DedupStep(front, x);
      DedupStep(a + front, x);
      DedupStep(a + d, x);
    }
  }

  lemma UnionAssociative(a: seq<string>, b: seq<string>, c: seq<string>)
    ensures Union(Union(a, b), c) == Union(a, Union(b, c))
  {
    hide Dedup;
    DedupLeft(a + b, c);
    DedupRight(a, b + c);
    assert (a + b) + c == a + (b + c);
  }

  lemma UnionIdempotent(a: seq<string>, b: seq<string>)
    ensures Union(Union(a, b), b) == Union(a, b)
  {
    assert forall x :: x in b ==> x in Union(a, b);
    hide Dedup;
    DedupAbsorbs(Union(a, b), b);
    DedupDistinct(Union(a, b));
  }

  // ---- An independent description of the result ----------------------------

  /** Position of the first `x`. */
  function First(s: seq<string>, x: string): (i: nat)
    requires x in s
    ensures i < |s| && s[i] == x && forall j :: 0 <= j < i ==> s[j] != x
  {
    if s[0] == x then 0 else 1 + First(s[1..], x)
  }

  /** `d` lists the values of `s` once each, ordered by where they first appear. */
  ghost predicate FirstOccurrences(s: seq<string>, d: seq<string>) {
    && (forall x :: x in d <==> x in s)
    && (forall i, j :: 0 <= i < j < |d| ==> d[i] in s && d[j] in s && First(s, d[i]) < First(s, d[j]))
  }

  lemma FirstExtends(s: seq<string>, x: string, y: string)
    requires x in s
    ensures x in s + [y] && First(s + [y], x) == First(s, x)
  {
    var i, k := First(s, x), First(s + [y], x);
    assert (s + [y])[i] == x;
    assert (s + [y])[..|s|] == s;
  }

  lemma {:induction false} DedupIsFirstOccurrences(s: seq<string>)
    ensures FirstOccurrences(s, Dedup(s))
  {
    if s != [] {
      var front, x := s[..|s| - 1], s[|s| - 1];
      assert s == front + [x];
      DedupIsFirstOccurrences(front);
      DedupStep(front, x);
      var d := Dedup(s);
      forall i, j | 0 <= i < j < |d| ensures First(s, d[i]) < First(s, d[j]) {
        assert d[i] in front by { assert Dedup(front)[i] == d[i]; }
        FirstExtends(front, d[i], x);
        if d[j] in front {
          FirstExtends(front, d[j], x);
        }
      }
    }
  }

  lemma NextFirst(s: seq<string>, c: seq<string>, d: seq<string>, k: nat)
    requires FirstOccurrences(s, c) && FirstOccurrences(s, d)
    requires k < |c| && k <= |d| && c[..k] == d[..k]
    ensures k < |d| && First(s, d[k]) <= First(s, c[k])
  {
    forall j | 0 <= j < k ensures c[j] == d[j] {
      assert c[..k][j] == d[..k][j];
    }
    assert c[k] in s && c[k] in d;
    var i :| 0 <= i < |d| && d[i] == c[k];
  }

  /** The description determines the list, so it is exactly what the union returns. */
  lemma FirstOccurrencesUnique(s: seq<string>, c: seq<string>, d: seq<string>)
    requires FirstOccurrences(s, c) && FirstOccurrences(s, d)
    ensures c == d
  {
    var k := 0;
    while k < |c|
      invariant k <= |c| && k <= |d| && c[..k] == d[..k]
    {
      NextFirst(s, c, d, k);
      NextFirst(s, d, c, k);
      assert c[k] in s && d[k] in s;
      k := k + 1;
    }
    if k < |d| { NextFirst(s, d, c, k); }
  }
}
