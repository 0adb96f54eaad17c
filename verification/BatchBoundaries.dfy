/** What the rows of a whole import hold, and what a batch boundary does to the documented merge. */
module BatchBoundaries {
  import opened Options
  import opened OrderedUnion
  import opened Bytes
  import opened Records
  import opened RecordFolds
  import opened MetadataTable
  import opened ImportPipeline
  import opened BatchCids
  import opened ImportResume

  // ---- An import is its batches, written in turn ------------------------------------

  function WriteAll(batches: seq<seq<Rec>>): Table {
    if batches == [] then map[] else Apply(WriteAll(batches[..|batches| - 1]), Delta(batches[|batches| - 1]))
  }

  lemma WriteAllSnoc(batches: seq<seq<Rec>>, batch: seq<Rec>)
    ensures WriteAll(batches + [batch]) == Apply(WriteAll(batches), Delta(batch))
  {
    hide Apply, Delta;
    assert (batches + [batch])[..|batches|] == batches;
  }

  lemma {:induction false} ClosedIsWritten(lines: seq<Parsed>, batchSize: nat)
    ensures FeedAll(Begin(map[]), lines, batchSize).table == WriteAll(ClosedBatches(lines, batchSize))
  {
    hide Apply, Delta, WriteAll, KeptOf;
    if lines == [] {
      assert WriteAll([]) == map[] by { NothingWritten(); }
    } else {
      var front := lines[..|lines| - 1];
      ClosedIsWritten(front, batchSize);
      WriteAllSnoc(ClosedBatches(front, batchSize), OpenBatch(front, batchSize) + KeptOf(lines[|lines| - 1]));
    }
  }

  lemma NothingWritten()
    ensures WriteAll([]) == map[]
  {
  }

  lemma ImportedIsWritten(t: Table, lines: seq<Parsed>, batchSize: nat)
    ensures Imported(t, lines, batchSize) == Apply(t, WriteAll(AllBatches(lines, batchSize)))
  {
    hide Apply, Delta, WriteAll, FeedAll, ClosedBatches;
    ImportedIsApply(t, lines, batchSize);
    ClosedIsWritten(lines, batchSize);
    WriteAllSnoc(ClosedBatches(lines, batchSize), OpenBatch(lines, batchSize));
  }

  // ---- All records of a key, wherever the boundaries fall ---------------------------

  function AllArrivals(batches: seq<seq<Rec>>, k: Md5): seq<Rec> {
    if batches == [] then [] else AllArrivals(batches[..|batches| - 1], k) + Arrivals(batches[|batches| - 1], k)
  }

  lemma AllArrivalsSnoc(batches: seq<seq<Rec>>, batch: seq<Rec>, k: Md5)
    ensures AllArrivals(batches + [batch], k) == AllArrivals(batches, k) + Arrivals(batch, k)
  {
    hide Arrivals;
    assert (batches + [batch])[..|batches|] == batches;
  }

  /** The arrivals of a key are the records of that key, in order. */
  lemma {:induction false} ArrivalsAppend(a: seq<Rec>, c: seq<Rec>, k: Md5)
    ensures Arrivals(a + c, k) == Arrivals(a, k) + Arrivals(c, k)
    ensures Arrivals([], k) == [] && forall r :: Arrivals([r], k) == if r.md5 == k then [r] else []
  {
    forall r ensures Arrivals([r], k) == if r.md5 == k then [r] else [] {
      assert [r][..0] == [];
    }
    if c == [] {
      assert a + c == a;
    } else {
      assert (a + c)[..|a + c| - 1] == a + c[..|c| - 1];
      ArrivalsAppend(a, c[..|c| - 1], k);
    }
  }

  lemma {:induction false} ClosedArrivals(lines: seq<Parsed>, batchSize: nat, k: Md5)
    ensures AllArrivals(ClosedBatches(lines, batchSize), k) + Arrivals(OpenBatch(lines, batchSize), k) == Arrivals(AllKept(lines), k)
  {
    hide Arrivals, KeptOf, Settle;
    if lines == [] {
      assert Arrivals([], k) == [] by { NoArrivals(k); }
    } else {
      var n := |lines| - 1;
      var front, kept := lines[..n], KeptOf(lines[n]);
      var open := OpenBatch(front, batchSize);
      assert lines[..n + 1] == lines;
      ClosedArrivals(front, batchSize, k);
      ReadOne(lines, n, batchSize);
      ArrivalsAppend(open, kept, k);
      ArrivalsAppend(AllKept(front), kept, k);
      NoArrivals(k);
      AllArrivalsSnoc(ClosedBatches(front, batchSize), open + kept, k);
    }
  }

  lemma NoArrivals(k: Md5)
    ensures Arrivals([], k) == []
  {
  }

  /** The batch size decides where the boundaries fall, not which records of a key there are nor their order. */
  lemma SameArrivals(lines: seq<Parsed>, batchSize: nat, k: Md5)
    ensures AllArrivals(AllBatches(lines, batchSize), k) == Arrivals(AllKept(lines), k)
  {
    hide Arrivals, OpenBatch, ClosedBatches, AllKept;
    ClosedArrivals(lines, batchSize, k);
    AllArrivalsSnoc(ClosedBatches(lines, batchSize), OpenBatch(lines, batchSize), k);
  }

  // ---- The row of a key after any batches --------------------------------------------

  /** Batch `i` is the last one with a record of `k`. */
  ghost predicate LastNaming(batches: seq<seq<Rec>>, k: Md5, i: nat) {
    i < |batches| && Arrivals(batches[i], k) != [] && forall j :: i < j < |batches| ==> Arrivals(batches[j], k) == []
  }

  lemma ApplyRow(t: Table, d: Table, k: Md5)
    ensures k in Apply(t, d) <==> k in t || k in d
    ensures k in t && k !in d ==> Apply(t, d)[k] == t[k]
    ensures k !in t && k in d ==> Apply(t, d)[k] == d[k]
    ensures k in t && k in d ==> Apply(t, d)[k] == Upsert(t[k], d[k])
  {
  }

  lemma DeltaRow(batch: seq<Rec>, k: Md5)
    ensures k in Delta(batch) <==> Arrivals(batch, k) != []
    ensures k in Delta(batch) ==> Delta(batch)[k] == ToRow(Fold(Arrivals(batch, k)))
  {
    hide FoldBatch, Arrivals, Fold, ToRow;
    FoldBatchPerKey(batch, k);
  }

  /** A key has a row exactly when some record of it arrived. */
  lemma {:induction false} WrittenKey(batches: seq<seq<Rec>>, k: Md5)
    ensures k in WriteAll(batches) <==> AllArrivals(batches, k) != []
  {
    hide Apply, Delta, Arrivals;
    if batches != [] {
      var front, batch := batches[..|batches| - 1], batches[|batches| - 1];
      WrittenKey(front, k);
      ApplyRow(WriteAll(front), Delta(batch), k);
      DeltaRow(batch, k);
    }
  }

  /** The overwritten columns are those of the last batch that names the key, and of nothing before it. */
  lemma {:induction false} WrittenPlain(batches: seq<seq<Rec>>, k: Md5, i: nat)
    requires LastNaming(batches, k, i)
    ensures k in WriteAll(batches) && WriteAll(batches)[k].plain == ToOverwritten(Fold(Arrivals(batches[i], k)).rec)
  {
    hide Apply, Delta, Arrivals, Fold, ToOverwritten;
    var n := |batches| - 1;
    var front, batch := batches[..n], batches[n];
    ApplyRow(WriteAll(front), Delta(batch), k);
    DeltaRow(batch, k);
    if i < n {
      assert Arrivals(batches[n], k) == [];
      assert forall j :: 0 <= j < n ==> front[j] == batches[j];
      WrittenPlain(front, k, i);
    }
  }

  /** The coalesced columns. */
  datatype KeptColumn = KeptSeriesName | KeptSeriesPosition | KeptEdition | KeptTimestamp | KeptCid

  function KeptOfRow(row: Row, c: KeptColumn): Scalar {
    match c
    case KeptSeriesName => OfText(row.kept.seriesName)
    case KeptSeriesPosition => OfNum(row.kept.seriesPosition)
    case KeptEdition => OfText(row.kept.edition)
    case KeptTimestamp => OfNum(row.kept.sourceTimestamp)
    case KeptCid => OfText(row.kept.ipfsCid)
  }

  function KeptIn(t: Table, k: Md5, c: KeptColumn): Scalar {
    if k in t then KeptOfRow(t[k], c) else Null
  }

  lemma ApplyKept(t: Table, d: Table, k: Md5, c: KeptColumn)
    ensures KeptIn(Apply(t, d), k, c) == if KeptIn(d, k, c) != Null then KeptIn(d, k, c) else KeptIn(t, k, c)
  {
  }

  /** A coalesced column is that of the last batch that writes any value into it, NULL if none does. */
  lemma {:induction false} WrittenKept(batches: seq<seq<Rec>>, k: Md5, c: KeptColumn)
    ensures KeptIn(WriteAll(batches), k, c) == Null <==> forall i :: 0 <= i < |batches| ==> KeptIn(Delta(batches[i]), k, c) == Null
    ensures forall i :: 0 <= i < |batches| && KeptIn(Delta(batches[i]), k, c) != Null
                        && (forall j :: i < j < |batches| ==> KeptIn(Delta(batches[j]), k, c) == Null) ==>
              KeptIn(WriteAll(batches), k, c) == KeptIn(Delta(batches[i]), k, c)
  {
    hide Apply, Delta, KeptIn;
    if batches == [] {
      assert KeptIn(map[], k, c) == Null by { NoRow(k, c); }
    } else {
      var n := |batches| - 1;
      var front, batch := batches[..n], batches[n];
      assert forall j :: 0 <= j < n ==> front[j] == batches[j];
      WrittenKept(front, k, c);
      ApplyKept(WriteAll(front), Delta(batch), k, c);
      forall i | 0 <= i < |batches| && KeptIn(Delta(batches[i]), k, c) != Null
                 && (forall j :: i < j < |batches| ==> KeptIn(Delta(batches[j]), k, c) == Null)
        ensures KeptIn(WriteAll(batches), k, c) == KeptIn(Delta(batches[i]), k, c)
      {
        if i < n {
          assert KeptIn(Delta(batches[n]), k, c) == Null;
          assert KeptIn(Delta(front[i]), k, c) != Null;
        }
      }
    }
  }

  lemma NoRow(k: Md5, c: KeptColumn)
    ensures KeptIn(map[], k, c) == Null
  {
  }

  /** `score` is the highest that a record of `rs` reaches. */
  ghost predicate BestOf(rs: seq<Rec>, score: nat) {
    (forall i :: 0 <= i < |rs| ==> Quality(rs[i]) <= score) && exists i :: 0 <= i < |rs| && Quality(rs[i]) == score
  }

  lemma BestOfAppend(a: seq<Rec>, c: seq<Rec>, x: nat, y: nat)
    requires BestOf(a, x) && BestOf(c, y)
    ensures BestOf(a + c, Max(x, y))
  {
    hide Quality;
    var all := a + c;
    assert forall i :: 0 <= i < |c| ==> all[|a| + i] == c[i];
    assert forall i :: |a| <= i < |all| ==> all[i] == c[i - |a|];
    var i :| 0 <= i < |a| && Quality(a[i]) == x;
    var j :| 0 <= j < |c| && Quality(c[j]) == y;
    assert Quality(all[i]) == x && Quality(all[|a| + j]) == y;
  }

  /** The score alone is as in the documented merge: the best of all records, wherever the boundaries fall. */
  lemma {:induction false} WrittenScore(batches: seq<seq<Rec>>, k: Md5)
    requires k in WriteAll(batches)
    ensures BestOf(AllArrivals(batches, k), WriteAll(batches)[k].qualityScore)
  {
    hide Apply, Delta, Arrivals, BestOf, Fold;
    var n := |batches| - 1;
    var front, batch := batches[..n], batches[n];
    ApplyRow(WriteAll(front), Delta(batch), k);
    DeltaRow(batch, k);
    WrittenKey(front, k);
    var ra, rb := AllArrivals(front, k), Arrivals(batch, k);
    if k in WriteAll(front) { WrittenScore(front, k); }
    if rb != [] { FoldBest(rb); }
    if ra != [] && rb != [] {
      BestOfAppend(ra, rb, WriteAll(front)[k].qualityScore, Fold(rb).score);
    } else if ra == [] {
      assert ra + rb == rb;
    } else {
      assert ra + rb == ra;
    }
  }

  lemma FoldBest(rs: seq<Rec>)
    requires rs != []
    ensures BestOf(rs, Fold(rs).score)
  {
    hide Quality, Fold;
    FoldScore(rs);
  }

  // ---- The row of a key after an import ------------------------------------------------

  /** `ra` arrived before, and `rb` in, the last batch of the import that names `k`. */
  ghost predicate SplitAt(lines: seq<Parsed>, batchSize: nat, k: Md5, ra: seq<Rec>, rb: seq<Rec>) {
    exists i: nat :: SplitAtBatch(AllBatches(lines, batchSize), k, i, ra, rb)
  }

  ghost predicate SplitAtBatch(batches: seq<seq<Rec>>, k: Md5, i: nat, ra: seq<Rec>, rb: seq<Rec>) {
    LastNaming(batches, k, i) && ra == AllArrivals(batches[..i], k) && rb == Arrivals(batches[i], k)
  }

  lemma {:induction false} SplitIsAll(batches: seq<seq<Rec>>, k: Md5, i: nat)
    requires LastNaming(batches, k, i)
    ensures AllArrivals(batches, k) == AllArrivals(batches[..i], k) + Arrivals(batches[i], k)
  {
    hide Arrivals;
    var n := |batches| - 1;
    if i < n {
      var front := batches[..n];
      assert Arrivals(batches[n], k) == [];
      assert forall j :: 0 <= j < n ==> front[j] == batches[j];
      SplitIsAll(front, k, i);
      assert front[..i] == batches[..i];
    }
  }

  lemma {:induction false} SomeBatchNames(batches: seq<seq<Rec>>, k: Md5) returns (i: nat)
    requires AllArrivals(batches, k) != []
    ensures LastNaming(batches, k, i)
  {
    hide Arrivals;
    var n := |batches| - 1;
    if Arrivals(batches[n], k) != [] {
      i := n;
    } else {
      i := SomeBatchNames(batches[..n], k);
    }
  }

  /** Every key of the payload has such a split, and its two sides are all its records in order. */
  lemma SplitExists(lines: seq<Parsed>, batchSize: nat, k: Md5)
    requires Arrivals(AllKept(lines), k) != []
    ensures exists ra, rb :: SplitAt(lines, batchSize, k, ra, rb)
  {
    hide Arrivals, AllBatches, AllKept, LastNaming, AllArrivals;
    SameArrivals(lines, batchSize, k);
    var batches := AllBatches(lines, batchSize);
    var i := SomeBatchNames(batches, k);
    assert i < |batches| by { LastNamingInside(batches, k, i); }
    assert SplitAtBatch(batches, k, i, AllArrivals(batches[..i], k), Arrivals(batches[i], k));
    assert SplitAt(lines, batchSize, k, AllArrivals(batches[..i], k), Arrivals(batches[i], k));
  }

  lemma LastNamingInside(batches: seq<seq<Rec>>, k: Md5, i: nat)
    requires LastNaming(batches, k, i)
    ensures i < |batches| && Arrivals(batches[i], k) != []
  {
  }

  /**
    The row of a key after an import into any table: the overwritten columns are those of the documented
    merge of `rb` alone, although the key's records are `ra + rb`.
    */
  lemma ImportedRow(t: Table, lines: seq<Parsed>, batchSize: nat, k: Md5, ra: seq<Rec>, rb: seq<Rec>)
    requires SplitAt(lines, batchSize, k, ra, rb)
    ensures rb != [] && ra + rb == Arrivals(AllKept(lines), k)
    ensures k in Imported(t, lines, batchSize)
    ensures Imported(t, lines, batchSize)[k].plain == ToOverwritten(Fold(rb).rec)
  {
    hide Arrivals, AllBatches, AllKept, AllArrivals, WriteAll, Imported, Apply, Fold, ToOverwritten, LastNaming;
    var batches := AllBatches(lines, batchSize);
    var i :| SplitAtBatch(batches, k, i, ra, rb);
    LastNamingInside(batches, k, i);
    SameArrivals(lines, batchSize, k);
    SplitIsAll(batches, k, i);
    WrittenPlain(batches, k, i);
    ImportedIsWritten(t, lines, batchSize);
    ApplyRow(t, WriteAll(batches), k);
  }

  /** The other columns: a coalesced value of the table stays if no batch has one, and its score if it is higher. */
  lemma ImportedKept(t: Table, lines: seq<Parsed>, batchSize: nat, k: Md5, c: KeptColumn)
    ensures var written := KeptIn(WriteAll(AllBatches(lines, batchSize)), k, c);
            KeptIn(Imported(t, lines, batchSize), k, c) == if written != Null then written else KeptIn(t, k, c)
  {
    hide Imported, WriteAll, AllBatches, Apply, KeptIn;
    ImportedIsWritten(t, lines, batchSize);
    ApplyKept(t, WriteAll(AllBatches(lines, batchSize)), k, c);
  }

  lemma ImportedScore(t: Table, lines: seq<Parsed>, batchSize: nat, k: Md5)
    requires Arrivals(AllKept(lines), k) != []
    ensures k in Imported(t, lines, batchSize)
    ensures exists best :: BestOf(Arrivals(AllKept(lines), k), best)
                           && Imported(t, lines, batchSize)[k].qualityScore == if k in t then Max(t[k].qualityScore, best) else best
  {
    hide Imported, WriteAll, AllBatches, Apply, AllKept, Arrivals, BestOf, AllArrivals;
    var batches := AllBatches(lines, batchSize);
    SameArrivals(lines, batchSize, k);
    WrittenKey(batches, k);
    WrittenScore(batches, k);
    ImportedIsWritten(t, lines, batchSize);
    ApplyRow(t, WriteAll(batches), k);
    assert BestOf(Arrivals(AllKept(lines), k), WriteAll(batches)[k].qualityScore);
  }

  // ---- Tombstones across a boundary -----------------------------------------------------

  ghost predicate SomeBuried(rs: seq<Rec>) {
    exists d :: 0 <= d < |rs| && Buried(rs, d)
  }

  /** What is buried on the right of a boundary is buried in the whole. */
  lemma BuriedOnTheRight(ra: seq<Rec>, rb: seq<Rec>, d: nat)
    requires d < |rb| && Buried(rb, d)
    ensures Buried(ra + rb, |ra| + d)
  {
    var all, e := ra + rb, |ra| + d;
    assert all[e] == rb[d] && forall j :: 0 <= j < |rb| ==> all[|ra| + j] == rb[j];
    forall i | e < i < |all| ensures !all[i].deleted && !Outdates(all, i, e) {
      var m := i - |ra|;
      assert all[i] == rb[m] && !rb[m].deleted && !Outdates(rb, m, d);
      if all[i].sourceTimestamp.Some? {
        var j :| 0 <= j <= d && !Newer(rb[m].sourceTimestamp, rb[j].sourceTimestamp);
        assert all[|ra| + j] == rb[j];
      }
    }
  }

  /**
    Tombstones: an import deletes a row only where the documented merge of all its records does, and it
    revives one exactly when some record is buried in the whole and none in the last batch by itself.
    */
  lemma ImportedTombstone(t: Table, lines: seq<Parsed>, batchSize: nat, k: Md5, ra: seq<Rec>, rb: seq<Rec>)
    requires SplitAt(lines, batchSize, k, ra, rb)
    ensures k in Imported(t, lines, batchSize)
    ensures Imported(t, lines, batchSize)[k].plain.deleted <==> SomeBuried(rb)
    ensures Fold(ra + rb).rec.deleted <==> SomeBuried(ra + rb)
    ensures SomeBuried(rb) ==> SomeBuried(ra + rb)
  {
    hide Buried, Imported, SplitAt, Fold;
    ImportedRow(t, lines, batchSize, k, ra, rb);
    TombstoneClosedForm(rb);
    TombstoneClosedForm(ra + rb);
    if d :| 0 <= d < |rb| && Buried(rb, d) { BuriedOnTheRight(ra, rb, d); }
  }

  // ---- Scalars across a boundary ---------------------------------------------------------

  ghost predicate SomeFills(rs: seq<Rec>, f: ScalarField) {
    exists i :: 0 <= i < |rs| && Filled(ScalarOf(rs[i].scalars, f))
  }

  /** No text that is filled is stored as an empty one: none consists of NUL characters only. */
  ghost predicate StoredFilled(rs: seq<Rec>, f: ScalarField) {
    forall i :: 0 <= i < |rs| ==> (Filled(ScalarOf(rs[i].scalars, f)) ==> Filled(StoredScalar(f, ScalarOf(rs[i].scalars, f))))
  }

  /** A folded scalar is one of the inputs; if none is filled, the first. */
  lemma {:induction false} FoldedScalar(rs: seq<Rec>, f: ScalarField)
    requires rs != []
    ensures exists i :: 0 <= i < |rs| && ScalarOf(Fold(rs).rec.scalars, f) == ScalarOf(rs[i].scalars, f)
    ensures !SomeFills(rs, f) ==> ScalarOf(Fold(rs).rec.scalars, f) == ScalarOf(rs[0].scalars, f)
  {
    hide Quality, Absorb, ScalarOf, Filled, IncomingWins;
    if |rs| == 1 {
      assert Fold(rs).rec == rs[0] by { FoldOne(rs); }
    } else {
      var n := |rs| - 1;
      var front, r := rs[..n], rs[n];
      assert forall i :: 0 <= i < n ==> front[i] == rs[i];
      FoldedScalar(front, f);
      FoldLast(rs);
      MergeScalar(Fold(front), r, f);
      FilledScalars(front, f);
      var i :| 0 <= i < n && ScalarOf(Fold(front).rec.scalars, f) == ScalarOf(front[i].scalars, f);
      assert ScalarOf(front[i].scalars, f) == ScalarOf(rs[i].scalars, f);
      if SomeFills(front, f) {
        var j :| 0 <= j < n && Filled(ScalarOf(front[j].scalars, f));
        assert Filled(ScalarOf(rs[j].scalars, f));
      }
      if Filled(ScalarOf(r.scalars, f)) { assert Filled(ScalarOf(rs[n].scalars, f)); }
    }
  }

  /** What one batch leaves in a scalar column: filled exactly when some record fills it, else its first value. */
  lemma StoredColumn(rs: seq<Rec>, f: ScalarField)
    requires rs != [] && StoredFilled(rs, f)
    ensures Filled(ColumnOf(ToRow(Fold(rs)), f)) <==> SomeFills(rs, f)
    ensures !SomeFills(rs, f) ==> ColumnOf(ToRow(Fold(rs)), f) == ScalarOf(rs[0].scalars, f)
  {
    hide Fold, ToRow, ScalarOf, ColumnOf, StripNul;
    FoldedScalar(rs, f);
    FilledScalars(rs, f);
    ColumnHoldsField(Fold(rs), f);
    StripEmpty(ScalarOf(rs[0].scalars, f));
    if !SomeFills(rs, f) {
      assert !Filled(ScalarOf(rs[0].scalars, f));
    }
  }

  /** Which coalesced scalars a batch leaves NULL: none of its records fills them and its first has no value. */
  lemma BatchKept(batch: seq<Rec>, k: Md5, f: ScalarField)
    requires IsCoalesced(f) && StoredFilled(Arrivals(batch, k), f)
    ensures var c := if f == SeriesName then KeptSeriesName else if f == SeriesPosition then KeptSeriesPosition else KeptEdition;
            var rs := Arrivals(batch, k);
            KeptIn(Delta(batch), k, c) == Null <==> rs == [] || (!SomeFills(rs, f) && ScalarOf(rs[0].scalars, f) == Null)
  {
    hide Delta, Arrivals, Fold, ToRow, ScalarOf, SomeFills, StoredFilled;
    DeltaRow(batch, k);
    if Arrivals(batch, k) != [] {
      StoredColumn(Arrivals(batch, k), f);
      NullIsEmpty(ColumnOf(ToRow(Fold(Arrivals(batch, k))), f));
    }
  }

  lemma StripEmpty(v: Scalar)
    ensures !Filled(v) ==> StripScalar(v) == v
  {
  }

  /** An overwritten scalar is filled after an import exactly when a record of the last batch fills it. */
  lemma ImportedScalar(t: Table, lines: seq<Parsed>, batchSize: nat, k: Md5, ra: seq<Rec>, rb: seq<Rec>, f: ScalarField)
    requires SplitAt(lines, batchSize, k, ra, rb) && !IsCoalesced(f) && StoredFilled(rb, f)
    ensures k in Imported(t, lines, batchSize)
    ensures Filled(ColumnOf(Imported(t, lines, batchSize)[k], f)) <==> SomeFills(rb, f)
    ensures Filled(ScalarOf(Fold(ra + rb).rec.scalars, f)) <==> SomeFills(ra, f) || SomeFills(rb, f)
  {
    hide Imported, SplitAt, Fold, ToOverwritten, Filled, ScalarOf, SomeFills, StoredFilled;
    ImportedRow(t, lines, batchSize, k, ra, rb);
    StoredColumn(rb, f);
    PlainColumn(Imported(t, lines, batchSize)[k], ToRow(Fold(rb)), f);
    FilledAppend(ra, rb, f);
  }

  lemma PlainColumn(a: Row, c: Row, f: ScalarField)
    requires a.plain == c.plain && !IsCoalesced(f)
    ensures ColumnOf(a, f) == ColumnOf(c, f)
  {
  }

  lemma FilledAppend(ra: seq<Rec>, rb: seq<Rec>, f: ScalarField)
    requires rb != []
    ensures Filled(ScalarOf(Fold(ra + rb).rec.scalars, f)) <==> SomeFills(ra, f) || SomeFills(rb, f)
  {
    hide Fold, Filled, ScalarOf;
    var all := ra + rb;
    FilledScalars(all, f);
    assert forall i :: 0 <= i < |ra| ==> all[i] == ra[i];
    assert forall i :: 0 <= i < |rb| ==> all[|ra| + i] == rb[i];
    if i :| 0 <= i < |all| && Filled(ScalarOf(all[i].scalars, f)) {
      if i < |ra| { assert Filled(ScalarOf(ra[i].scalars, f)); } else { assert Filled(ScalarOf(rb[i - |ra|].scalars, f)); }
    }
    if i :| 0 <= i < |ra| && Filled(ScalarOf(ra[i].scalars, f)) { assert Filled(ScalarOf(all[i].scalars, f)); }
    if i :| 0 <= i < |rb| && Filled(ScalarOf(rb[i].scalars, f)) { assert Filled(ScalarOf(all[|ra| + i].scalars, f)); }
  }

  /**
    One boundary between `ra` and `rb`: a scalar that `ra` fills is lost exactly when no record of `rb` fills
    it, unless it is coalesced and the first of `rb` has no value at all; without the boundary it is kept.
    */
  lemma BoundaryLosesScalarIff(ra: seq<Rec>, rb: seq<Rec>, f: ScalarField)
    requires ra != [] && rb != [] && StoredFilled(ra, f) && StoredFilled(rb, f) && SomeFills(ra, f)
    ensures !Filled(ColumnOf(Upsert(ToRow(Fold(ra)), ToRow(Fold(rb))), f))
       <==> !SomeFills(rb, f) && !(IsCoalesced(f) && ScalarOf(rb[0].scalars, f) == Null)
    ensures Filled(ScalarOf(Fold(ra + rb).rec.scalars, f))
  {
    hide Fold, ToRow, ScalarOf, ColumnOf, Upsert, Filled, SomeFills, StoredFilled;
    StoredColumn(ra, f);
    StoredColumn(rb, f);
    UpsertLosesColumnIff(ToRow(Fold(ra)), ToRow(Fold(rb)), f);
    FilledAppend(ra, rb, f);
    NullIsEmpty(ColumnOf(ToRow(Fold(rb)), f));
  }

  lemma NullIsEmpty(v: Scalar)
    ensures v == Null ==> !Filled(v)
  {
  }

  // ---- Lists across a boundary -------------------------------------------------------------

  /** Some record's list holds `x`, as it is stored. */
  ghost predicate SomeLists(rs: seq<Rec>, f: ListField, x: string) {
    exists i :: 0 <= i < |rs| && x in StoredList(f, ListOf(rs[i].lists, f))
  }

  lemma {:induction false} NonEmptyMembers(s: seq<string>, x: string)
    ensures x in NonEmpty(s) <==> x in s && x != ""
  {
    if s != [] {
      NonEmptyMembers(s[1..], x);
      assert s == [s[0]] + s[1..];
    }
  }

  /** The entry `y` is stored as `x`. */
  predicate StoredAs(f: ListField, y: string, x: string) {
    if f == Authors then y != "" && x == StripNul(y) else if f == Languages then x == StripNul(y) else x == y
  }

  /** An entry is stored exactly when some entry is stored as it. */
  lemma StoredMembers(f: ListField, s: seq<string>, x: string)
    ensures x in StoredList(f, s) <==> exists y :: y in s && x in StoredList(f, [y])
  {
    hide StripNul, StoredAs, StoredList;
    forall y ensures x in StoredList(f, [y]) <==> StoredAs(f, y, x) {
      StoredOne(f, y, x);
    }
    StoredMembersOf(f, s, x);
  }

  lemma StoredOne(f: ListField, y: string, x: string)
    ensures x in StoredList(f, [y]) <==> StoredAs(f, y, x)
  {
    hide StripNul;
    assert [y][1..] == [] && NonEmpty([]) == [];
    assert NonEmpty([y]) == (if y == "" then [] else [y]);
    if f == Authors || f == Languages {
      var e := if f == Authors then NonEmpty([y]) else [y];
      if e != [] { assert StripAll(e)[0] == StripNul(y) && |StripAll(e)| == 1; }
    }
  }

  lemma StoredMembersOf(f: ListField, s: seq<string>, x: string)
    ensures x in StoredList(f, s) <==> exists y :: y in s && StoredAs(f, y, x)
  {
    hide StripNul, NonEmpty;
    forall y ensures y in NonEmpty(s) <==> y in s && y != "" { NonEmptyMembers(s, y); }
    if f == Authors || f == Languages {
      var e := if f == Authors then NonEmpty(s) else s;
      if x in StripAll(e) {
        var i :| 0 <= i < |e| && StripAll(e)[i] == x;
        assert e[i] in e && x == StripNul(e[i]);
      }
      if y :| y in s && StoredAs(f, y, x) {
        assert y in e;
        var i :| 0 <= i < |e| && e[i] == y;
        assert StripAll(e)[i] == x;
      }
    }
  }

  lemma {:induction false} ConcatMembers(rs: seq<Rec>, f: ListField, y: string)
    ensures y in Concat(rs, f) <==> exists i :: 0 <= i < |rs| && y in ListOf(rs[i].lists, f)
  {
    hide ListOf;
    if rs != [] {
      var n := |rs| - 1;
      var front := rs[..n];
      assert forall i :: 0 <= i < n ==> front[i] == rs[i];
      ConcatMembers(front, f, y);
      if i :| 0 <= i < n && y in ListOf(front[i].lists, f) { assert y in ListOf(rs[i].lists, f); }
      if i :| 0 <= i < |rs| && y in ListOf(rs[i].lists, f) {
        if i < n { assert y in ListOf(front[i].lists, f); }
      }
      if y in ListOf(rs[n].lists, f) { assert 0 <= n < |rs|; }
    }
  }

  lemma FoldedMembers(rs: seq<Rec>, f: ListField, y: string)
    requires rs != []
    ensures y in ListOf(Fold(rs).rec.lists, f) <==> exists i :: 0 <= i < |rs| && y in ListOf(rs[i].lists, f)
  {
    hide ListOf, Fold, Concat;
    if |rs| >= 2 {
      ListsClosedForm(rs, f);
      ConcatMembers(rs, f, y);
    } else {
      FoldOne(rs);
    }
  }

  /** What one batch leaves in a list column. */
  lemma StoredLists(rs: seq<Rec>, f: ListField, x: string)
    requires rs != []
    ensures x in StoredList(f, ListOf(Fold(rs).rec.lists, f)) <==> SomeLists(rs, f, x)
  {
    hide ListOf, Fold, StoredList;
    var folded := ListOf(Fold(rs).rec.lists, f);
    StoredMembers(f, folded, x);
    if x in StoredList(f, folded) {
      var y :| y in folded && x in StoredList(f, [y]);
      FoldedMembers(rs, f, y);
      var i :| 0 <= i < |rs| && y in ListOf(rs[i].lists, f);
      StoredMembers(f, ListOf(rs[i].lists, f), x);
    }
    if i :| 0 <= i < |rs| && x in StoredList(f, ListOf(rs[i].lists, f)) {
      StoredMembers(f, ListOf(rs[i].lists, f), x);
      var y :| y in ListOf(rs[i].lists, f) && x in StoredList(f, [y]);
      FoldedMembers(rs, f, y);
    }
  }

  lemma ListColumns(r: Rec, f: ListField)
    ensures ListOf(ToOverwritten(r).lists, f) == StoredList(f, ListOf(r.lists, f))
  {
    hide StripAll, NonEmpty, StripNul, WorkKey;
  }

  lemma SomeListsAppend(ra: seq<Rec>, rb: seq<Rec>, f: ListField, x: string)
    ensures SomeLists(ra + rb, f, x) <==> SomeLists(ra, f, x) || SomeLists(rb, f, x)
  {
    hide ListOf, StoredList;
    var all := ra + rb;
    assert forall i :: 0 <= i < |ra| ==> all[i] == ra[i];
    assert forall i :: 0 <= i < |rb| ==> all[|ra| + i] == rb[i];
    if i :| 0 <= i < |all| && x in StoredList(f, ListOf(all[i].lists, f)) {
      if i < |ra| { assert x in StoredList(f, ListOf(ra[i].lists, f)); } else { assert x in StoredList(f, ListOf(rb[i - |ra|].lists, f)); }
    }
    if i :| 0 <= i < |ra| && x in StoredList(f, ListOf(ra[i].lists, f)) { assert x in StoredList(f, ListOf(all[i].lists, f)); }
    if i :| 0 <= i < |rb| && x in StoredList(f, ListOf(rb[i].lists, f)) { assert x in StoredList(f, ListOf(all[|ra| + i].lists, f)); }
  }

  /**
    Lists: after an import a value is in a list column exactly when a record of the last batch has it, so a
    value is lost exactly when only records before that batch have it.
    */
  lemma ImportedList(t: Table, lines: seq<Parsed>, batchSize: nat, k: Md5, ra: seq<Rec>, rb: seq<Rec>, f: ListField, x: string)
    requires SplitAt(lines, batchSize, k, ra, rb)
    ensures k in Imported(t, lines, batchSize)
    ensures x in ListOf(Imported(t, lines, batchSize)[k].plain.lists, f) <==> SomeLists(rb, f, x)
    ensures x in StoredList(f, ListOf(Fold(ra + rb).rec.lists, f)) <==> SomeLists(ra, f, x) || SomeLists(rb, f, x)
  {
    hide Imported, SplitAt, Fold, ToOverwritten, ListOf, StoredList, SomeLists;
    ImportedRow(t, lines, batchSize, k, ra, rb);
    ListColumns(Fold(rb).rec, f);
    StoredLists(rb, f, x);
    StoredLists(ra + rb, f, x);
    SomeListsAppend(ra, rb, f, x);
  }

  // ---- Witnesses -----------------------------------------------------------------------------

  function Dated(deleted: bool, timestamp: int): Rec {
    Sample(None, None).(deleted := deleted, sourceTimestamp := Some(timestamp))
  }

  /** A record older than a tombstone leaves it alone within a batch and revives it across a boundary. */
  lemma BoundaryRevivesTombstone()
    ensures var a, b := Dated(true, 2), Dated(false, 1);
            Delta([a, b])[KEY].plain.deleted && !Apply(Delta([a]), Delta([b]))[KEY].plain.deleted
  {
    hide ToRow, Absorb, Start, Upsert;
    var a, b := Dated(true, 2), Dated(false, 1);
    TwoRecords(a, b);
    TwoRecords(b, b);
    DatedRows();
  }

  lemma DatedRows()
    ensures var a, b := Dated(true, 2), Dated(false, 1);
            && ToRow(Absorb(Start(a), b)).plain.deleted
            && !Upsert(ToRow(Start(a)), ToRow(Start(b))).plain.deleted
  {
    hide StripNul, StripAll, NonEmpty, WorkKey, Quality, MergeScalars, MergeLists;
  }

  /** A later record with an empty title takes the title away across a boundary. */
  lemma BoundaryEmptiesTitle()
    ensures var a, b := Titled("A", None, Some(1)), Titled("", None, Some(1));
            ColumnOf(Upsert(ToRow(Start(a)), ToRow(Start(b))), Title) == Text("")
            && ColumnOf(ToRow(Absorb(Start(a), b)), Title) == Text("A")
  {
    assert "A"[1..] == [] && "A"[0] == 'A';
    assert StripNul("A") == ['A'] + StripNul([]) == "A";
  }
}
