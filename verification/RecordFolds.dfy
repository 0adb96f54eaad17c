/** Folding any sequence of records for one MD5, as `process_batch` does, in closed form. */
module RecordFolds {
  import opened Options
  import opened OrderedUnion
  import opened Records

  /** Merges `rs` into `e` in arrival order. */
  function FoldFrom(e: Entry, rs: seq<Rec>): Entry {
    if rs == [] then e else Absorb(FoldFrom(e, rs[..|rs| - 1]), rs[|rs| - 1])
  }

  function Fold(rs: seq<Rec>): Entry
    requires rs != []
  {
    FoldFrom(Start(rs[0]), rs[1..])
  }

  /** The fold with the exception that a merge can raise. */
  ghost function TryFoldFrom(e: Entry, rs: seq<Rec>): Result<Entry, MergeError> {
    if rs == [] then Ok(e)
    else
      var m :- TryFoldFrom(e, rs[..|rs| - 1]);
      TryMerge(m, rs[|rs| - 1])
  }

  ghost function TryFold(rs: seq<Rec>): Result<Entry, MergeError>
    requires rs != []
  {
    TryFoldFrom(Start(rs[0]), rs[1..])
  }

  lemma TryFoldSnoc(rs: seq<Rec>, r: Rec)
    ensures rs == [] ==> TryFold(rs + [r]) == Ok(Start(r))
    ensures rs != [] ==> TryFold(rs + [r]) == if TryFold(rs).Err? then TryFold(rs) else TryMerge(TryFold(rs).value, r)
  {
    hide TryMerge, Start;
    if rs == [] {
      assert (rs + [r])[1..] == [];
    } else {
      assert (rs + [r])[1..] == rs[1..] + [r];
      assert (rs[1..] + [r])[..|rs| - 1] == rs[1..];
    }
  }

  /** A fold that does not raise is `FoldFrom`, and it raises where the first merge does. */
  lemma {:induction false} TryFoldFromIsFold(e: Entry, rs: seq<Rec>)
    ensures TryFoldFrom(e, rs).Ok? ==> TryFoldFrom(e, rs).value == FoldFrom(e, rs)
    ensures TryFoldFrom(e, rs).Err? <==> exists i :: 0 <= i < |rs| && TieRaises(FoldFrom(e, rs[..i]), rs[i])
  {
    hide Absorb, TieRaises, FoldFrom;
    if rs == [] {
      assert FoldFrom(e, []) == e by { FoldFromNil(e); }
    } else {
      var n := |rs| - 1;
      var front, r := rs[..n], rs[n];
      TryFoldFromIsFold(e, front);
      FoldFromLast(e, rs);
      forall i | 0 <= i < n
        ensures TieRaises(FoldFrom(e, front[..i]), front[i]) <==> TieRaises(FoldFrom(e, rs[..i]), rs[i])
      {
        assert front[..i] == rs[..i];
      }
      if TieRaises(FoldFrom(e, front), r) { assert TieRaises(FoldFrom(e, rs[..n]), rs[n]); }
    }
  }

  lemma TryFoldIsFold(rs: seq<Rec>)
    requires rs != []
    ensures TryFold(rs).Ok? ==> TryFold(rs).value == Fold(rs)
  {
    TryFoldFromIsFold(Start(rs[0]), rs[1..]);
  }

  lemma FoldFromNil(e: Entry)
    ensures FoldFrom(e, []) == e
  {
  }

  lemma FoldFromLast(e: Entry, rs: seq<Rec>)
    requires rs != []
    ensures FoldFrom(e, rs) == Absorb(FoldFrom(e, rs[..|rs| - 1]), rs[|rs| - 1])
  {
    hide Absorb;
  }

  lemma FoldSnoc(rs: seq<Rec>, r: Rec)
    ensures rs == [] ==> Fold(rs + [r]) == Start(r)
    ensures rs != [] ==> Fold(rs + [r]) == Absorb(Fold(rs), r)
  {
    hide Absorb, Quality;
    if rs == [] {
      assert (rs + [r])[1..] == [];
    } else {
      assert (rs + [r])[1..] == rs[1..] + [r];
      assert (rs[1..] + [r])[..|rs| - 1] == rs[1..];
    }
  }

  lemma FoldLast(rs: seq<Rec>)
    requires |rs| > 1
    ensures Fold(rs) == Absorb(Fold(rs[..|rs| - 1]), rs[|rs| - 1])
  {
    hide Absorb, Quality;
    FoldSnoc(rs[..|rs| - 1], rs[|rs| - 1]);
    assert rs == rs[..|rs| - 1] + [rs[|rs| - 1]];
  }

  lemma {:induction false} FoldFromCons(e: Entry, r: Rec, rs: seq<Rec>)
    ensures FoldFrom(e, [r] + rs) == FoldFrom(Absorb(e, r), rs)
  {
    hide Absorb, Quality;
    if rs == [] {
      assert [r] + rs == [r] && [r][..0] == [];
      assert FoldFrom(e, [r]) == Absorb(FoldFrom(e, []), r);
    } else {
      var front := rs[..|rs| - 1];
      FoldFromCons(e, r, front);
      assert ([r] + rs)[..|rs|] == [r] + front;
    }
  }

  // ---- Score, timestamp and key ---------------------------------------------

  /** The carried score is the maximum, and is attained. */
  lemma {:induction false} FoldScore(rs: seq<Rec>)
    requires rs != []
    ensures forall i :: 0 <= i < |rs| ==> Quality(rs[i]) <= Fold(rs).score
    ensures exists i :: 0 <= i < |rs| && Quality(rs[i]) == Fold(rs).score
    ensures Fold(rs).score <= Quality(Fold(rs).rec)
  {
    hide Quality, MergeScalars, MergeLists, Tombstone;
    if |rs| > 1 {
      var front, r := rs[..|rs| - 1], rs[|rs| - 1];
      FoldScore(front);
      FoldLast(rs);
      CarriedScoreIsLowerBound(Fold(front), r);
      var i :| 0 <= i < |front| && Quality(front[i]) == Fold(front).score;
      assert Quality(rs[i]) == Fold(front).score;
    } else {
      assert Quality(rs[0]) == Fold(rs).score;
    }
  }

  /** A timestamp is newer than the fold exactly when it is newer than every input. */
  lemma {:induction false} FoldTimestamp(rs: seq<Rec>, t: Option<int>)
    requires rs != [] && t.Some?
    ensures Newer(t, Fold(rs).rec.sourceTimestamp) <==> forall i :: 0 <= i < |rs| ==> Newer(t, rs[i].sourceTimestamp)
  {
    hide Quality, MergeScalars, MergeLists, Tombstone;
    if |rs| > 1 {
      var front, r := rs[..|rs| - 1], rs[|rs| - 1];
      FoldTimestamp(front, t);
      FoldLast(rs);
      assert forall i :: 0 <= i < |front| ==> front[i] == rs[i];
    }
  }

  /** The folded timestamp is the latest of all, and absent only if all are. */
  lemma {:induction false} FoldLatest(rs: seq<Rec>)
    requires rs != []
    ensures var ts := Fold(rs).rec.sourceTimestamp;
            && (ts.None? <==> forall i :: 0 <= i < |rs| ==> rs[i].sourceTimestamp.None?)
            && (ts.Some? ==> exists i :: 0 <= i < |rs| && rs[i].sourceTimestamp == ts)
            && (ts.Some? ==> forall i :: 0 <= i < |rs| && rs[i].sourceTimestamp.Some? ==> rs[i].sourceTimestamp.value <= ts.value)
  {
    hide Quality, MergeScalars, MergeLists, Tombstone;
    if |rs| > 1 {
      var front, r := rs[..|rs| - 1], rs[|rs| - 1];
      FoldLatest(front);
      FoldLast(rs);
      assert forall i :: 0 <= i < |front| ==> front[i] == rs[i];
      assert rs[|front|] == r;
      if Fold(front).rec.sourceTimestamp.Some? {
        var i :| 0 <= i < |front| && front[i].sourceTimestamp == Fold(front).rec.sourceTimestamp;
        assert rs[i].sourceTimestamp == Fold(front).rec.sourceTimestamp;
      }
    } else {
      assert rs[0].sourceTimestamp == Fold(rs).rec.sourceTimestamp;
    }
  }

  lemma {:induction false} FoldKeepsKey(rs: seq<Rec>)
    requires rs != []
    ensures Fold(rs).rec.md5 == rs[0].md5
  {
    if |rs| > 1 {
      FoldKeepsKey(rs[..|rs| - 1]);
      FoldLast(rs);
    }
  }

  // ---- Tombstones -----------------------------------------------------------

  /** `rs[i]` is strictly newer than everything up to and including `rs[d]`. */
  ghost predicate Outdates(rs: seq<Rec>, i: nat, d: nat)
    requires d < i < |rs|
  {
    && rs[i].sourceTimestamp.Some?
    && forall j :: 0 <= j <= d && rs[j].sourceTimestamp.Some? ==> rs[i].sourceTimestamp.value > rs[j].sourceTimestamp.value
  }

  /** `rs[d]` is the last deleted record and nothing after it outdates it. */
  ghost predicate Buried(rs: seq<Rec>, d: nat)
    requires d < |rs|
  {
    rs[d].deleted && forall i :: d < i < |rs| ==> !rs[i].deleted && !Outdates(rs, i, d)
  }

  lemma BuriedSnoc(rs: seq<Rec>, r: Rec, d: nat)
    requires d < |rs| && rs != []
    ensures Buried(rs + [r], d) <==> Buried(rs, d) && !r.deleted && !Outdates(rs + [r], |rs|, d)
  {
    var all := rs + [r];
    assert all[|rs|] == r && forall i :: 0 <= i < |rs| ==> all[i] == rs[i];
    forall i | d < i < |rs| ensures Outdates(all, i, d) <==> Outdates(rs, i, d) {
      assert forall j :: 0 <= j <= d ==> all[j] == rs[j];
    }
    if Buried(rs, d) && !r.deleted && !Outdates(all, |rs|, d) {
      forall i | d < i < |all| ensures !all[i].deleted && !Outdates(all, i, d) {
        if i < |rs| { assert !rs[i].deleted && !Outdates(rs, i, d); }
      }
    }
    if Buried(all, d) {
      assert !all[|rs|].deleted && !Outdates(all, |rs|, d);
      forall i | d < i < |rs| ensures !rs[i].deleted && !Outdates(rs, i, d) {
        assert !all[i].deleted && !Outdates(all, i, d);
      }
    }
  }

  /** If the fold does not yield to `r`, a record up to the burial is at least as new as `r`. */
  lemma NotOutdated(rs: seq<Rec>, r: Rec, d: nat)
    requires d < |rs| && Buried(rs, d)
    requires !Newer(r.sourceTimestamp, Fold(rs).rec.sourceTimestamp)
    ensures !Outdates(rs + [r], |rs|, d)
  {
    var all := rs + [r];
    if r.sourceTimestamp.Some? {
      FoldTimestamp(rs, r.sourceTimestamp);
      var j :| 0 <= j < |rs| && !Newer(r.sourceTimestamp, rs[j].sourceTimestamp);
      if j > d {
        assert !Outdates(rs, j, d) && rs[j].sourceTimestamp.Some?;
        var k :| 0 <= k <= d && rs[k].sourceTimestamp.Some? && rs[j].sourceTimestamp.value <= rs[k].sourceTimestamp.value;
        assert all[k] == rs[k] && all[|rs|] == r;
        assert all[k].sourceTimestamp.Some? && r.sourceTimestamp.value <= all[k].sourceTimestamp.value;
      } else {
        assert all[j] == rs[j] && all[|rs|] == r;
      }
    }
  }

  lemma NotNewer(rs: seq<Rec>, r: Rec, d: nat)
    requires d < |rs| && !Outdates(rs + [r], |rs|, d)
    ensures !Newer(r.sourceTimestamp, Fold(rs).rec.sourceTimestamp)
  {
    var all := rs + [r];
    if r.sourceTimestamp.Some? {
      FoldTimestamp(rs, r.sourceTimestamp);
      var j :| 0 <= j <= d && !Newer(all[|rs|].sourceTimestamp, all[j].sourceTimestamp);
      assert all[j] == rs[j] && all[|rs|] == r;
    }
  }

  /** The folded row is deleted exactly when some deleted record is never outdated. */
  lemma {:induction false} TombstoneClosedForm(rs: seq<Rec>)
    requires rs != []
    ensures Fold(rs).rec.deleted <==> exists d :: 0 <= d < |rs| && Buried(rs, d)
  {
    hide Quality;
    if |rs| == 1 {
      if rs[0].deleted { assert Buried(rs, 0); }
    } else {
      var front, r := rs[..|rs| - 1], rs[|rs| - 1];
      assert rs == front + [r];
      TombstoneClosedForm(front);
      FoldLast(rs);
      if r.deleted {
        assert Buried(rs, |front|);
      } else {
        if Fold(rs).rec.deleted {
          var d :| 0 <= d < |front| && Buried(front, d);
          NotOutdated(front, r, d);
          BuriedSnoc(front, r, d);
          assert Buried(rs, d);
        }
        if d :| 0 <= d < |rs| && Buried(rs, d) {
          assert rs[|front|] == r;
          BuriedSnoc(front, r, d);
          NotNewer(front, r, d);
        }
      }
    }
  }

  /** `rs[d]` buried the row, and it has stayed buried since. */
  ghost predicate BuriedBy(rs: seq<Rec>, d: nat)
    requires d < |rs|
  {
    && rs[d].deleted
    && (d > 0 ==> !Fold(rs[..d]).rec.deleted)
    && forall m :: d < m <= |rs| ==> Fold(rs[..m]).rec.deleted
  }

  lemma AbsorbTombstone(e: Entry, r: Rec)
    ensures Absorb(e, r).rec.deleted == Tombstone(e.rec, r).0 && Absorb(e, r).rec.removedReason == Tombstone(e.rec, r).1
  {
    hide Quality;
  }

  lemma BuriedByStep(rs: seq<Rec>, d: nat)
    requires |rs| > 1 && d < |rs| - 1 && Fold(rs).rec.deleted && BuriedBy(rs[..|rs| - 1], d)
    ensures BuriedBy(rs, d)
  {
    hide Fold;
    var front := rs[..|rs| - 1];
    assert rs[..|rs|] == rs;
    forall m | d <= m <= |front| ensures front[..m] == rs[..m] {
    }
    forall m | d < m <= |rs| ensures Fold(rs[..m]).rec.deleted {
      if m <= |front| { assert Fold(front[..m]).rec.deleted; }
    }
  }

  /** A tombstone keeps the reason of the record that buried the row; a revived row has none. */
  lemma {:induction false} TombstoneReason(rs: seq<Rec>)
    requires rs != []
    ensures Fold(rs).rec.deleted ==> exists d :: 0 <= d < |rs| && BuriedBy(rs, d) && Fold(rs).rec.removedReason == rs[d].removedReason
    ensures !Fold(rs).rec.deleted && |rs| > 1 ==> Fold(rs).rec.removedReason.None?
  {
    var n := |rs| - 1;
    if n == 0 {
      if rs[0].deleted { FirstBuries(rs); }
    } else {
      hide Absorb, Fold, BuriedBy;
      var front, r := rs[..n], rs[n];
      FoldLast(rs);
      AbsorbTombstone(Fold(front), r);
      TombstoneReason(front);
      if Fold(rs).rec.deleted {
        if Fold(front).rec.deleted {
          var d :| 0 <= d < n && BuriedBy(front, d) && Fold(front).rec.removedReason == front[d].removedReason;
          BuriedByStep(rs, d);
          assert front[d] == rs[d];
        } else {
          JustBuried(rs);
        }
      }
    }
  }

  lemma FirstBuries(rs: seq<Rec>)
    requires |rs| == 1 && rs[0].deleted
    ensures BuriedBy(rs, 0) && Fold(rs).rec.removedReason == rs[0].removedReason
  {
    assert rs[..1] == rs;
  }

  lemma JustBuried(rs: seq<Rec>)
    requires |rs| > 1 && rs[|rs| - 1].deleted && Fold(rs).rec.deleted && !Fold(rs[..|rs| - 1]).rec.deleted
    ensures BuriedBy(rs, |rs| - 1)
  {
    hide Fold;
    assert rs[..|rs|] == rs;
  }

  // ---- Lists ----------------------------------------------------------------

  function Concat(rs: seq<Rec>, f: ListField): seq<string> {
    if rs == [] then [] else Concat(rs[..|rs| - 1], f) + ListOf(rs[|rs| - 1].lists, f)
  }

  /** After two or more records a list field is the first-occurrence union of all inputs. */
  lemma {:induction false} ListsClosedForm(rs: seq<Rec>, f: ListField)
    requires |rs| >= 2
    ensures ListOf(Fold(rs).rec.lists, f) == Dedup(Concat(rs, f))
  {
    var front, r := rs[..|rs| - 1], rs[|rs| - 1];
    FoldLast(rs);
    MergeList(Fold(front), r, f);
    if |rs| == 2 {
      assert front[..0] == [] && Concat([], f) == [];
      assert Concat(front, f) == [] + ListOf(rs[0].lists, f) == ListOf(rs[0].lists, f);
    } else {
      ListsClosedForm(front, f);
      DedupLeft(Concat(front, f), ListOf(r.lists, f));
    }
  }

  // ---- Scalars --------------------------------------------------------------

  /** A scalar is filled in the fold exactly when some record fills it. */
  lemma {:induction false} FilledScalars(rs: seq<Rec>, f: ScalarField)
    requires rs != []
    ensures Filled(ScalarOf(Fold(rs).rec.scalars, f)) <==> exists i :: 0 <= i < |rs| && Filled(ScalarOf(rs[i].scalars, f))
  {
    hide Quality, ScalarOf, Absorb, IncomingWins, Filled;
    if |rs| == 1 {
      if Filled(ScalarOf(Fold(rs).rec.scalars, f)) { assert Filled(ScalarOf(rs[0].scalars, f)); }
    } else {
      var front, r := rs[..|rs| - 1], rs[|rs| - 1];
      FilledScalars(front, f);
      FoldLast(rs);
      MergeScalar(Fold(front), r, f);
      assert forall i :: 0 <= i < |front| ==> front[i] == rs[i];
      if Filled(ScalarOf(Fold(rs).rec.scalars, f)) {
        if Filled(ScalarOf(r.scalars, f)) {
          assert Filled(ScalarOf(rs[|front|].scalars, f));
        } else {
          var i :| 0 <= i < |front| && Filled(ScalarOf(front[i].scalars, f));
          assert Filled(ScalarOf(rs[i].scalars, f));
        }
      }
      if i :| 0 <= i < |rs| && Filled(ScalarOf(rs[i].scalars, f)) {
        if i < |front| { assert Filled(ScalarOf(front[i].scalars, f)); }
      }
    }
  }

  ghost predicate StrictBest(rs: seq<Rec>, b: nat)
    requires b < |rs|
  {
    forall i :: 0 <= i < |rs| && i != b ==> Quality(rs[i]) < Quality(rs[b])
  }

  /** The one record of highest score supplies every scalar it fills, wherever it arrived. */
  lemma {:induction false} StrictBestDecides(rs: seq<Rec>, b: nat, f: ScalarField)
    requires b < |rs| && StrictBest(rs, b)
    requires Filled(ScalarOf(rs[b].scalars, f))
    ensures ScalarOf(Fold(rs).rec.scalars, f) == ScalarOf(rs[b].scalars, f)
    ensures Fold(rs).score == Quality(rs[b])
  {
    hide Quality, Absorb, ScalarOf, Filled;
    FoldScore(rs);
    if |rs| > 1 {
      var front, r := rs[..|rs| - 1], rs[|rs| - 1];
      FoldLast(rs);
      MergeScalar(Fold(front), r, f);
      FoldScore(front);
      if b < |front| {
        assert forall i :: 0 <= i < |front| ==> front[i] == rs[i];
        StrictBestDecides(front, b, f);
      } else {
        var i :| 0 <= i < |front| && Quality(front[i]) == Fold(front).score;
        assert front[i] == rs[i];
      }
    }
  }

  /**
    `rs[i]` takes the scalar over: it fills it and no earlier record does, or it scores above all earlier
    ones, or at least as high as all of them and is strictly newer than each.
    */
  ghost predicate TakesOver(rs: seq<Rec>, i: nat, f: ScalarField)
    requires i < |rs|
  {
    && Filled(ScalarOf(rs[i].scalars, f))
    && (|| (forall j :: 0 <= j < i ==> !Filled(ScalarOf(rs[j].scalars, f)))
        || (forall j :: 0 <= j < i ==> Quality(rs[j]) < Quality(rs[i]))
        || (&& (forall j :: 0 <= j < i ==> Quality(rs[j]) <= Quality(rs[i]))
            && rs[i].sourceTimestamp.Some?
            && forall j :: 0 <= j < i && rs[j].sourceTimestamp.Some? ==> rs[j].sourceTimestamp.value < rs[i].sourceTimestamp.value))
  }

  lemma TakesOverPrefix(rs: seq<Rec>, i: nat, f: ScalarField)
    requires i < |rs| - 1
    ensures TakesOver(rs[..|rs| - 1], i, f) <==> TakesOver(rs, i, f)
  {
    hide Quality, ScalarOf, Filled;
    var front := rs[..|rs| - 1];
    assert forall j :: 0 <= j < |front| ==> front[j] == rs[j];
  }

  /** Whether the last record beats the fold of those before it. */
  lemma LastTakesOver(rs: seq<Rec>, f: ScalarField)
    requires |rs| > 1
    ensures var n := |rs| - 1;
            var e, r := Fold(rs[..n]), rs[n];
            TakesOver(rs, n, f) <==> Filled(ScalarOf(r.scalars, f)) && (!Filled(ScalarOf(e.rec.scalars, f)) || IncomingWins(e, r))
  {
    hide Quality, Fold, ScalarOf, Filled;
    var n := |rs| - 1;
    var front, r := rs[..n], rs[n];
    assert forall j :: 0 <= j < n ==> front[j] == rs[j];
    FilledScalars(front, f);
    FoldScore(front);
    FoldLatest(front);
    var i :| 0 <= i < n && Quality(front[i]) == Fold(front).score;
    assert Quality(rs[i]) == Fold(front).score;
    var ts := Fold(front).rec.sourceTimestamp;
    if ts.Some? {
      var j :| 0 <= j < n && front[j].sourceTimestamp == ts;
      assert rs[j].sourceTimestamp == ts;
    }
    BeatsTimestamp(rs, f);
  }

  /** A timestamp is strictly newer than the fold's when it is strictly newer than each earlier one. */
  lemma BeatsTimestamp(rs: seq<Rec>, f: ScalarField)
    requires |rs| > 1
    ensures var n := |rs| - 1;
            Newer(rs[n].sourceTimestamp, Fold(rs[..n]).rec.sourceTimestamp) <==>
              && rs[n].sourceTimestamp.Some?
              && forall j :: 0 <= j < n && rs[j].sourceTimestamp.Some? ==> rs[j].sourceTimestamp.value < rs[n].sourceTimestamp.value
  {
    hide Fold;
    var n := |rs| - 1;
    var front := rs[..n];
    assert forall j :: 0 <= j < n ==> front[j] == rs[j];
    FoldLatest(front);
    var ts := Fold(front).rec.sourceTimestamp;
    if ts.Some? {
      var j :| 0 <= j < n && front[j].sourceTimestamp == ts;
      assert rs[j].sourceTimestamp == ts;
    }
  }

  /** A folded scalar is that of the last record that took it over. */
  lemma {:induction false} LastTakeoverSupplies(rs: seq<Rec>, i: nat, f: ScalarField)
    requires i < |rs| && TakesOver(rs, i, f) && forall j :: i < j < |rs| ==> !TakesOver(rs, j, f)
    ensures ScalarOf(Fold(rs).rec.scalars, f) == ScalarOf(rs[i].scalars, f)
  {
    hide Quality, Absorb, ScalarOf, Filled, IncomingWins, TakesOver;
    var n := |rs| - 1;
    if n == 0 {
      assert Fold(rs).rec == rs[0] by { SingleFold(rs); }
    } else {
      var front, r := rs[..n], rs[n];
      FoldLast(rs);
      MergeScalar(Fold(front), r, f);
      LastTakesOver(rs, f);
      if i < n {
        TakesOverPrefix(rs, i, f);
        forall j | i < j < n ensures !TakesOver(front, j, f) { TakesOverPrefix(rs, j, f); }
        LastTakeoverSupplies(front, i, f);
        assert !TakesOver(rs, n, f);
      }
    }
  }

  lemma SingleFold(rs: seq<Rec>)
    requires |rs| == 1
    ensures Fold(rs) == Start(rs[0])
  {
    hide Quality;
  }

  /** A filled scalar always has such a supplier: the first record that fills it takes over. */
  lemma SupplierExists(rs: seq<Rec>, b: nat, f: ScalarField)
    requires b < |rs| && Filled(ScalarOf(rs[b].scalars, f)) && forall j :: 0 <= j < b ==> !Filled(ScalarOf(rs[j].scalars, f))
    ensures exists i :: b <= i < |rs| && TakesOver(rs, i, f) && forall j :: i < j < |rs| ==> !TakesOver(rs, j, f)
  {
    hide Quality, ScalarOf, Filled;
    var i := |rs| - 1;
    assert TakesOver(rs, b, f);
    hide TakesOver;
    while !TakesOver(rs, i, f)
      invariant b <= i < |rs| && forall j :: i < j < |rs| ==> !TakesOver(rs, j, f)
      decreases i
    {
      i := i - 1;
    }
  }

  /** The record of highest score that is strictly newer than every other supplies every scalar it fills. */
  lemma NewestBestDecides(rs: seq<Rec>, b: nat, f: ScalarField)
    requires b < |rs| && rs[b].sourceTimestamp.Some? && Filled(ScalarOf(rs[b].scalars, f))
    requires forall i :: 0 <= i < |rs| && i != b ==> Quality(rs[i]) <= Quality(rs[b])
    requires forall i :: 0 <= i < |rs| && i != b && rs[i].sourceTimestamp.Some? ==> rs[i].sourceTimestamp.value < rs[b].sourceTimestamp.value
    ensures ScalarOf(Fold(rs).rec.scalars, f) == ScalarOf(rs[b].scalars, f)
  {
    hide Quality, ScalarOf, Filled, Fold;
    assert TakesOver(rs, b, f);
    forall j | b < j < |rs| ensures !TakesOver(rs, j, f) {
      assert Filled(ScalarOf(rs[b].scalars, f)) && Quality(rs[j]) <= Quality(rs[b]);
    }
    LastTakeoverSupplies(rs, b, f);
  }

  /** With equal scores and timestamps the first record that fills a scalar supplies it. */
  lemma FirstOfEqualsDecides(rs: seq<Rec>, b: nat, f: ScalarField)
    requires b < |rs| && Filled(ScalarOf(rs[b].scalars, f)) && forall i :: 0 <= i < b ==> !Filled(ScalarOf(rs[i].scalars, f))
    requires forall i :: 0 <= i < |rs| ==> Quality(rs[i]) == Quality(rs[0]) && rs[i].sourceTimestamp == rs[0].sourceTimestamp
    ensures ScalarOf(Fold(rs).rec.scalars, f) == ScalarOf(rs[b].scalars, f)
  {
    hide Quality, ScalarOf, Filled, Fold;
    assert TakesOver(rs, b, f);
    forall j | b < j < |rs| ensures !TakesOver(rs, j, f) {
      assert Filled(ScalarOf(rs[b].scalars, f)) && Quality(rs[b]) == Quality(rs[j]) && rs[b].sourceTimestamp == rs[j].sourceTimestamp;
    }
    LastTakeoverSupplies(rs, b, f);
  }

  const NAMES_COLLECTION: Rec -> bool := (r: Rec) => r.origin.collection != ""
  const NAMES_RECORD: Rec -> bool := (r: Rec) => Truthy(r.origin.recordId)
  const NAMES_AACID: Rec -> bool := (r: Rec) => Truthy(r.origin.aacid)

  /** One merge, as far as provenance is concerned. */
  lemma AbsorbOrigin(e: Entry, r: Rec)
    ensures var m := Absorb(e, r);
            && m.score == Max(e.score, Quality(r))
            && m.rec.origin.collection == (if Quality(r) >= e.score && NAMES_COLLECTION(r) then r.origin.collection else e.rec.origin.collection)
            && m.rec.origin.recordId == (if Quality(r) >= e.score && NAMES_RECORD(r) then r.origin.recordId else e.rec.origin.recordId)
            && m.rec.origin.aacid == (if NAMES_AACID(r) then r.origin.aacid else e.rec.origin.aacid)
  {
    hide Quality;
  }

  /** `rs[b]` is the last record of highest score that is `named`. */
  ghost predicate LastBest(rs: seq<Rec>, b: nat, named: Rec -> bool)
    requires b < |rs|
  {
    && named(rs[b])
    && (forall i :: 0 <= i < |rs| ==> Quality(rs[i]) <= Quality(rs[b]))
    && (forall i :: b < i < |rs| && Quality(rs[i]) == Quality(rs[b]) ==> !named(rs[i]))
  }

  lemma LastBestPrefix(rs: seq<Rec>, b: nat, named: Rec -> bool)
    requires b < |rs| - 1 && LastBest(rs, b, named)
    ensures LastBest(rs[..|rs| - 1], b, named)
  {
  }

  lemma BestScores(rs: seq<Rec>, b: nat, named: Rec -> bool)
    requires b < |rs| && LastBest(rs, b, named)
    ensures Fold(rs).score == Quality(rs[b])
    ensures |rs| > 1 ==> Fold(rs[..|rs| - 1]).score <= Quality(rs[b])
  {
    hide Quality, Absorb;
    FoldScore(rs);
    if |rs| > 1 {
      var front := rs[..|rs| - 1];
      FoldScore(front);
      var i :| 0 <= i < |front| && Quality(front[i]) == Fold(front).score;
      assert front[i] == rs[i];
    }
  }

  /** Provenance is that of the best record ever seen, the last of them on a tie. */
  lemma {:induction false} BestCollection(rs: seq<Rec>, b: nat)
    requires b < |rs| && LastBest(rs, b, NAMES_COLLECTION)
    ensures Fold(rs).rec.origin.collection == rs[b].origin.collection
  {
    hide Quality, Absorb;
    if |rs| > 1 {
      var front, r := rs[..|rs| - 1], rs[|rs| - 1];
      AbsorbOrigin(Fold(front), r);
      FoldLast(rs);
      BestScores(rs, b, NAMES_COLLECTION);
      if b < |front| {
        LastBestPrefix(rs, b, NAMES_COLLECTION);
        BestScores(front, b, NAMES_COLLECTION);
        BestCollection(front, b);
      }
    }
  }

  lemma {:induction false} BestRecordId(rs: seq<Rec>, b: nat)
    requires b < |rs| && LastBest(rs, b, NAMES_RECORD)
    ensures Fold(rs).rec.origin.recordId == rs[b].origin.recordId
  {
    hide Quality, Absorb;
    if |rs| > 1 {
      var front, r := rs[..|rs| - 1], rs[|rs| - 1];
      AbsorbOrigin(Fold(front), r);
      FoldLast(rs);
      BestScores(rs, b, NAMES_RECORD);
      if b < |front| {
        LastBestPrefix(rs, b, NAMES_RECORD);
        BestScores(front, b, NAMES_RECORD);
        BestRecordId(front, b);
      }
    }
  }

  /** The AACID is that of the last record that has one, whatever its score. */
  lemma {:induction false} LastAacid(rs: seq<Rec>, b: nat)
    requires b < |rs| && NAMES_AACID(rs[b]) && forall i :: b < i < |rs| ==> !NAMES_AACID(rs[i])
    ensures Fold(rs).rec.origin.aacid == rs[b].origin.aacid
  {
    hide Quality, Absorb;
    if |rs| > 1 {
      var front, r := rs[..|rs| - 1], rs[|rs| - 1];
      AbsorbOrigin(Fold(front), r);
      FoldLast(rs);
      if b < |front| { LastAacid(front, b); }
    }
  }

  /** The IPFS cid is that of the first record that has one. */
  lemma {:induction false} FirstCid(rs: seq<Rec>, b: nat)
    requires b < |rs| && Truthy(rs[b].ipfsCid) && forall i :: 0 <= i < b ==> !Truthy(rs[i].ipfsCid)
    ensures Fold(rs).rec.ipfsCid == rs[b].ipfsCid
  {
    hide Quality, Absorb, Truthy;
    if |rs| > 1 {
      var front, r := rs[..|rs| - 1], rs[|rs| - 1];
      FalsyFold(rs);
      if b < |front| {
        FirstCid(front, b);
      } else {
        NoCid(front);
      }
    }
  }

  /** If no record has one, what stays is the last record's absent or empty value. */
  lemma {:induction false} NoCid(rs: seq<Rec>)
    requires rs != [] && forall i :: 0 <= i < |rs| ==> !Truthy(rs[i].ipfsCid)
    ensures Fold(rs).rec.ipfsCid == rs[|rs| - 1].ipfsCid
  {
    hide Quality, Absorb;
    if |rs| > 1 {
      assert !Truthy(rs[|rs| - 1].ipfsCid);
      NoCid(rs[..|rs| - 1]);
      FalsyFold(rs);
    }
  }

  // ---- Replay ---------------------------------------------------------------

  /** What makes `r` unable to change anything but the provenance of `e`. */
  ghost predicate Subsumes(e: Entry, r: Rec) {
    && Quality(r) <= e.score
    && !Newer(r.sourceTimestamp, e.rec.sourceTimestamp)
    && (forall f :: Filled(ScalarOf(r.scalars, f)) ==> Filled(ScalarOf(e.rec.scalars, f)))
    && (forall f, x :: x in ListOf(r.lists, f) ==> x in ListOf(e.rec.lists, f))
    && (Truthy(r.ipfsCid) ==> Truthy(e.rec.ipfsCid))
  }

  lemma SubsumesPreserved(e: Entry, r: Rec, x: Rec)
    requires Subsumes(e, r)
    ensures Subsumes(Absorb(e, x), r)
  {
    var m := Absorb(e, x);
    forall f | Filled(ScalarOf(r.scalars, f)) ensures Filled(ScalarOf(m.rec.scalars, f)) {
      MergeScalar(e, x, f);
    }
    forall f, v | v in ListOf(r.lists, f) ensures v in ListOf(m.rec.lists, f) {
      MergeList(e, x, f);
      assert v in ListOf(e.rec.lists, f) + ListOf(x.lists, f);
    }
  }

  lemma AbsorbSubsumes(e: Entry, r: Rec)
    ensures Subsumes(Absorb(e, r), r)
  {
    var m := Absorb(e, r);
    forall f | Filled(ScalarOf(r.scalars, f)) ensures Filled(ScalarOf(m.rec.scalars, f)) {
      MergeScalar(e, r, f);
    }
    forall f, v | v in ListOf(r.lists, f) ensures v in ListOf(m.rec.lists, f) {
      MergeList(e, r, f);
      assert v in ListOf(e.rec.lists, f) + ListOf(r.lists, f);
    }
  }

  lemma {:induction false} FoldSubsumes(rs: seq<Rec>, i: nat)
    requires i < |rs|
    ensures Subsumes(Fold(rs), rs[i])
  {
    hide Absorb, Quality;
    if |rs| > 1 {
      var front, r := rs[..|rs| - 1], rs[|rs| - 1];
      FoldLast(rs);
      if i == |front| {
        AbsorbSubsumes(Fold(front), r);
      } else {
        FoldSubsumes(front, i);
        SubsumesPreserved(Fold(front), rs[i], r);
      }
    }
  }

  /** Alive, without repetitions inside a list, and without a removal reason. */
  ghost predicate Replayable(r: Rec) {
    !r.deleted && r.removedReason.None? && !r.discarded && r.discardReason.None?
    && forall f :: Distinct(ListOf(r.lists, f))
  }

  lemma {:induction false} FoldReplayable(rs: seq<Rec>)
    requires rs != [] && forall i :: 0 <= i < |rs| ==> Replayable(rs[i])
    ensures Replayable(Fold(rs).rec)
  {
    if |rs| > 1 {
      var front, r := rs[..|rs| - 1], rs[|rs| - 1];
      assert forall i :: 0 <= i < |front| ==> front[i] == rs[i];
      FoldReplayable(front);
      FoldLast(rs);
      assert Replayable(r) by { assert Replayable(rs[|front|]); }
      forall f ensures Distinct(ListOf(Fold(rs).rec.lists, f)) {
        MergeList(Fold(front), r, f);
      }
    }
  }

  /** Absorbing a subsumed record leaves everything but provenance and an empty cid alone. */
  lemma AbsorbSubsumed(e: Entry, r: Rec)
    requires Subsumes(e, r) && Replayable(e.rec) && Replayable(r)
    ensures Absorb(e, r) == e.(rec := e.rec.(origin := Absorb(e, r).rec.origin, ipfsCid := Or(e.rec.ipfsCid, r.ipfsCid)))
  {
    var m := Absorb(e, r);
    assert m.rec.scalars == e.rec.scalars by {
      forall f ensures ScalarOf(m.rec.scalars, f) == ScalarOf(e.rec.scalars, f) {
        MergeScalar(e, r, f);
      }
      ScalarsExtensional(m.rec.scalars, e.rec.scalars);
    }
    assert m.rec.lists == e.rec.lists by {
      forall f ensures ListOf(m.rec.lists, f) == ListOf(e.rec.lists, f) {
        MergeList(e, r, f);
        DedupAbsorbs(ListOf(e.rec.lists, f), ListOf(r.lists, f));
        DedupDistinct(ListOf(e.rec.lists, f));
      }
      ListsExtensional(m.rec.lists, e.rec.lists);
    }
  }

  /** The provenance and cid after a replay, whatever the replay does on the way. */
  lemma {:induction false} ReplayKeepsRest(e: Entry, rs: seq<Rec>)
    requires Replayable(e.rec)
    requires forall i :: 0 <= i < |rs| ==> Replayable(rs[i]) && Subsumes(e, rs[i])
    ensures var g := FoldFrom(e, rs);
            g == e.(rec := e.rec.(origin := g.rec.origin, ipfsCid := g.rec.ipfsCid))
    ensures Truthy(e.rec.ipfsCid) ==> FoldFrom(e, rs).rec.ipfsCid == e.rec.ipfsCid
    ensures !Truthy(e.rec.ipfsCid) && rs != [] ==> FoldFrom(e, rs).rec.ipfsCid == rs[|rs| - 1].ipfsCid
  {
    if rs != [] {
      var front, r := rs[..|rs| - 1], rs[|rs| - 1];
      assert forall i :: 0 <= i < |front| ==> front[i] == rs[i];
      ReplayKeepsRest(e, front);
      var g := FoldFrom(e, front);
      assert Replayable(r) && Subsumes(e, r) by { assert Replayable(rs[|front|]); }
      if !Truthy(e.rec.ipfsCid) && front != [] {
        assert Subsumes(e, rs[|front| - 1]);
      }
      assert Subsumes(g, r) && Replayable(g.rec);
      AbsorbSubsumed(g, r);
    }
  }

  /** Some record of `rs` scores `score` and names `what`. */
  ghost predicate Names(rs: seq<Rec>, score: nat, named: Rec -> bool) {
    exists i :: 0 <= i < |rs| && Quality(rs[i]) == score && named(rs[i])
  }

  lemma NamesCons(r: Rec, rs: seq<Rec>, score: nat, named: Rec -> bool)
    ensures Names([r] + rs, score, named) <==> (Quality(r) == score && named(r)) || Names(rs, score, named)
  {
    var all := [r] + rs;
    assert all[0] == r && forall i :: 0 <= i < |rs| ==> all[i + 1] == rs[i];
    if Names(all, score, named) {
      var i :| 0 <= i < |all| && Quality(all[i]) == score && named(all[i]);
      if i > 0 { assert all[i] == rs[i - 1]; }
    }
    if Quality(r) == score && named(r) { assert named(all[0]); }
    if Names(rs, score, named) {
      var i :| 0 <= i < |rs| && Quality(rs[i]) == score && named(rs[i]);
      assert named(all[i + 1]);
    }
  }

  ghost predicate AnyAacid(rs: seq<Rec>) {
    exists i :: 0 <= i < |rs| && NAMES_AACID(rs[i])
  }

  function CollectionAfter(e: Entry, rs: seq<Rec>): string { FoldFrom(e, rs).rec.origin.collection }
  function RecordIdAfter(e: Entry, rs: seq<Rec>): Option<string> { FoldFrom(e, rs).rec.origin.recordId }
  function AacidAfter(e: Entry, rs: seq<Rec>): Option<string> { FoldFrom(e, rs).rec.origin.aacid }

  /**
    Provenance of a second pass (from `y`, already at the top score) against the first (from `x`):
    the top-scoring records rewrite it in the same order, the others no longer touch it.
    */
  lemma {:induction false} ReplayProvenance(x: Entry, y: Entry, rs: seq<Rec>)
    requires x.score <= y.score && forall i :: 0 <= i < |rs| ==> Quality(rs[i]) <= y.score
    ensures CollectionAfter(y, rs)
         == if Names(rs, y.score, NAMES_COLLECTION) then CollectionAfter(x, rs) else y.rec.origin.collection
    ensures RecordIdAfter(y, rs)
         == if Names(rs, y.score, NAMES_RECORD) then RecordIdAfter(x, rs) else y.rec.origin.recordId
    ensures AacidAfter(y, rs) == if AnyAacid(rs) then AacidAfter(x, rs) else y.rec.origin.aacid
    decreases |rs|
  {
    hide Quality, Absorb, NAMES_COLLECTION, NAMES_RECORD, NAMES_AACID;
    if rs != [] {
      var r, rest := rs[0], rs[1..];
      assert rs == [r] + rest;
      assert forall i :: 0 <= i < |rest| ==> rest[i] == rs[i + 1];
      var x', y' := Absorb(x, r), Absorb(y, r);
      AbsorbOrigin(x, r);
      AbsorbOrigin(y, r);
      FoldFromCons(x, r, rest);
      FoldFromCons(y, r, rest);
      NamesCons(r, rest, y.score, NAMES_COLLECTION);
      NamesCons(r, rest, y.score, NAMES_RECORD);
      AacidCons(r, rest);
      ReplayProvenance(x', y', rest);
      if Quality(r) == y.score {
        ReplayProvenance(x', x', rest);
      } else if !AnyAacid(rest) {
        AacidUntouched(x', rest);
      }
    }
  }

  lemma AacidCons(r: Rec, rs: seq<Rec>)
    ensures AnyAacid([r] + rs) <==> NAMES_AACID(r) || AnyAacid(rs)
  {
    var all := [r] + rs;
    assert all[0] == r && forall i :: 0 <= i < |rs| ==> all[i + 1] == rs[i];
    if i :| 0 <= i < |all| && NAMES_AACID(all[i]) {
      if i > 0 { assert NAMES_AACID(rs[i - 1]); }
    }
    if i :| 0 <= i < |rs| && NAMES_AACID(rs[i]) { assert NAMES_AACID(all[i + 1]); }
    if NAMES_AACID(r) { assert NAMES_AACID(all[0]); }
  }

  lemma {:induction false} AacidUntouched(e: Entry, rs: seq<Rec>)
    requires !AnyAacid(rs)
    ensures FoldFrom(e, rs).rec.origin.aacid == e.rec.origin.aacid
  {
    if rs != [] {
      var front := rs[..|rs| - 1];
      assert !NAMES_AACID(rs[|front|]);
      forall i | 0 <= i < |front| ensures !NAMES_AACID(front[i]) {
        assert !NAMES_AACID(rs[i]);
      }
      AacidUntouched(e, front);
    }
  }

  /** Folding a tombstone-free batch onto its own merged values changes no field and no score. */
  lemma ReplayKeepsValues(rs: seq<Rec>)
    requires rs != [] && forall i :: 0 <= i < |rs| ==> Replayable(rs[i])
    ensures FoldFrom(Fold(rs), rs) == Fold(rs)
  {
    hide Quality, Absorb, Subsumes, Replayable;
    var e := Fold(rs);
    FoldReplayable(rs);
    forall i | 0 <= i < |rs| ensures Subsumes(e, rs[i]) { FoldSubsumes(rs, i); }
    ReplayKeepsRest(e, rs);
    // the first pass restarted from its own first record is the first pass
    var s := Start(rs[0]);
    assert rs == [rs[0]] + rs[1..];
    FoldScore(rs);
    FirstPass(rs);
    ReplayProvenance(s, e, rs);
  }

  /** A record of highest score has no timestamp and fills a scalar, and another record has a timestamp. */
  ghost predicate RaisesOnReplay(rs: seq<Rec>) {
    && (exists j :: 0 <= j < |rs| && rs[j].sourceTimestamp.Some?)
    && exists i :: 0 <= i < |rs| && UnstampedBest(rs, i)
  }

  ghost predicate UnstampedBest(rs: seq<Rec>, i: nat)
    requires i < |rs|
  {
    && rs[i].sourceTimestamp.None? && FillsScalar(rs[i].scalars)
    && forall j :: 0 <= j < |rs| ==> Quality(rs[j]) <= Quality(rs[i])
  }

  lemma {:induction false} FoldStamped(rs: seq<Rec>)
    requires rs != []
    ensures Fold(rs).rec.sourceTimestamp.Some? <==> exists j :: 0 <= j < |rs| && rs[j].sourceTimestamp.Some?
  {
    hide Quality, MergeScalars, MergeLists, Tombstone;
    if |rs| > 1 {
      var front, r := rs[..|rs| - 1], rs[|rs| - 1];
      FoldStamped(front);
      FoldLast(rs);
      assert forall i :: 0 <= i < |front| ==> front[i] == rs[i];
      assert rs[|front|] == r;
    } else {
      assert Fold(rs).rec == rs[0];
    }
  }

  /** Which record of a replay would raise against the entry that the first pass left. */
  lemma ReplayTie(rs: seq<Rec>, i: nat)
    requires i < |rs|
    ensures TieRaises(Fold(rs), rs[i]) <==> UnstampedBest(rs, i) && exists j :: 0 <= j < |rs| && rs[j].sourceTimestamp.Some?
  {
    hide Quality, Fold, Absorb, Filled, ScalarOf;
    FoldScore(rs);
    FoldStamped(rs);
    SharesScalarMeaning(rs[i].scalars, rs[i].scalars);
    hide SharesScalar;
    forall f ensures Filled(ScalarOf(rs[i].scalars, f)) ==> Filled(ScalarOf(Fold(rs).rec.scalars, f)) {
      FilledScalars(rs, f);
    }
    if Quality(rs[i]) == Fold(rs).score && rs[i].sourceTimestamp.Some? {
      assert Fold(rs).rec.sourceTimestamp.Some?;
    }
  }

  lemma TieSeesNoProvenance(e: Entry, g: Entry, r: Rec)
    requires g == e.(rec := e.rec.(origin := g.rec.origin, ipfsCid := g.rec.ipfsCid))
    ensures TieRaises(g, r) <==> TieRaises(e, r)
  {
  }

  /**
    Replay of a tombstone-free batch onto its own result: it raises exactly when a record of highest
    score has no timestamp and fills a scalar while another record has a timestamp; otherwise it changes
    no field and no score.
    */
  lemma ReplayChangesNothing(rs: seq<Rec>)
    requires rs != [] && (forall i :: 0 <= i < |rs| ==> Replayable(rs[i])) && TryFold(rs).Ok?
    ensures TryFoldFrom(TryFold(rs).value, rs) == if RaisesOnReplay(rs) then Err(MixedTimestamps) else TryFold(rs)
  {
    hide Quality, Absorb, Subsumes, Replayable, TieRaises, UnstampedBest, TryFoldFrom;
    var e := Fold(rs);
    TryFoldFromIsFold(Start(rs[0]), rs[1..]);
    TryFoldFromIsFold(e, rs);
    ReplayKeepsValues(rs);
    FoldReplayable(rs);
    forall i | 0 <= i < |rs| ensures TieRaises(FoldFrom(e, rs[..i]), rs[i]) <==> TieRaises(e, rs[i]) {
      forall j | 0 <= j < i ensures Subsumes(e, rs[..i][j]) && Replayable(rs[..i][j]) {
        FoldSubsumes(rs, j);
        assert rs[..i][j] == rs[j];
      }
      ReplayKeepsRest(e, rs[..i]);
      TieSeesNoProvenance(e, FoldFrom(e, rs[..i]), rs[i]);
    }
    forall i | 0 <= i < |rs| ensures TieRaises(e, rs[i]) <==> UnstampedBest(rs, i) && exists j :: 0 <= j < |rs| && rs[j].sourceTimestamp.Some? {
      ReplayTie(rs, i);
    }
    OnlyOneError(TryFoldFrom(e, rs));
  }

  lemma OnlyOneError(r: Result<Entry, MergeError>)
    ensures r.Err? ==> r == Err(MixedTimestamps)
  {
    if r.Err? {
      match r.error {
        case MixedTimestamps =>
      }
    }
  }

  /** In particular a batch in which every record has a timestamp replays without a trace. */
  lemma StampedReplay(rs: seq<Rec>)
    requires rs != [] && forall i :: 0 <= i < |rs| ==> Replayable(rs[i]) && rs[i].sourceTimestamp.Some?
    ensures TryFold(rs).Ok? && TryFoldFrom(TryFold(rs).value, rs) == TryFold(rs)
  {
    hide Quality, Replayable, TieRaises, TryFoldFrom, FillsScalar, Fold;
    var s, rest := Start(rs[0]), rs[1..];
    TryFoldFromIsFold(s, rest);
    forall i | 0 <= i < |rest| ensures !TieRaises(FoldFrom(s, rest[..i]), rest[i]) {
      assert rest[i] == rs[i + 1];
      StampedPrefix(rs, i);
      StampedNeverRaises(FoldFrom(s, rest[..i]), rest[i]);
    }
    ReplayChangesNothing(rs);
  }

  lemma StampedPrefix(rs: seq<Rec>, i: nat)
    requires i < |rs| && forall j :: 0 <= j < |rs| ==> rs[j].sourceTimestamp.Some?
    ensures FoldFrom(Start(rs[0]), rs[1..][..i]).rec.sourceTimestamp.Some?
  {
    var some := rs[..i + 1];
    assert some[0] == rs[0] && some[1..] == rs[1..][..i];
    FoldStamped(some);
  }

  /** The second pass can raise where the first did not. */
  lemma SecondPassRaises()
    ensures var rs := [Titled("A", None, Some(1)), Titled("B", Some("P"), None)];
            (forall i :: 0 <= i < |rs| ==> Replayable(rs[i])) && TryFold(rs).Ok? && TryFoldFrom(TryFold(rs).value, rs).Err?
  {
    hide Quality, Absorb, TieRaises, TryFoldFrom;
    var a, b := Titled("A", None, Some(1)), Titled("B", Some("P"), None);
    var rs := [a, b];
    SecondMergeRaises();
    TryFoldTwo(a, b);
    TitledScores();
    assert rs[0].sourceTimestamp.Some? && rs[1] == b;
    assert UnstampedBest(rs, 1);
    ReplayChangesNothing(rs);
  }

  lemma TryFoldTwo(a: Rec, b: Rec)
    ensures TryFold([a, b]) == TryMerge(Start(a), b)
  {
    hide TryMerge, Start;
    assert [a, b][1..] == [b] && [b][..0] == [];
    assert TryFoldFrom(Start(a), []) == Ok(Start(a));
  }

  /** Merging the first record into itself is harmless for provenance and cid. */
  lemma FirstPass(rs: seq<Rec>)
    requires rs != [] && forall i :: 0 <= i < |rs| ==> Replayable(rs[i])
    ensures FoldFrom(Start(rs[0]), rs).rec.origin == Fold(rs).rec.origin
    ensures !Truthy(Fold(rs).rec.ipfsCid) ==> Fold(rs).rec.ipfsCid == rs[|rs| - 1].ipfsCid
  {
    var s := Start(rs[0]);
    FoldFromCons(s, rs[0], rs[1..]);
    assert rs == [rs[0]] + rs[1..];
    assert Subsumes(s, rs[0]) by { FoldSubsumes(rs[..1], 0); }
    assert Replayable(rs[0]);
    AbsorbSubsumed(s, rs[0]);
    assert Absorb(s, rs[0]) == s;
    if |rs| > 1 { FoldLast(rs); FalsyFold(rs); }
  }

  lemma FalsyFold(rs: seq<Rec>)
    requires |rs| > 1
    ensures Fold(rs).rec.ipfsCid == Or(Fold(rs[..|rs| - 1]).rec.ipfsCid, rs[|rs| - 1].ipfsCid)
  {
    FoldLast(rs);
  }
}
