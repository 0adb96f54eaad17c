/** Whole imports: interrupting one and importing again from the start. */
module ImportResume {
  import opened Options
  import opened Bytes
  import opened Records
  import opened MetadataTable
  import opened ImportPipeline
  import opened BatchCids
  import opened Tallies

  /** How an import ends early after `n` lines: with a last flush, or between two flushes. */
  datatype Interruption = Flushed(n: nat) | Crashed(n: nat)

  function TableAfter(t: Table, lines: seq<Parsed>, how: Interruption, batchSize: nat): Table
    requires how.n <= |lines|
  {
    var p := FeedAll(Begin(t), lines[..how.n], batchSize);
    if how.Flushed? then Settle(p) else p.table
  }

  /** What the lines write, apart from any table. */
  function Written(lines: seq<Parsed>, batchSize: nat): Table {
    Imported(map[], lines, batchSize)
  }

  lemma {:induction false} FeedIsApply(t: Table, lines: seq<Parsed>, batchSize: nat)
    ensures FeedAll(Begin(t), lines, batchSize).table == Apply(t, FeedAll(Begin(map[]), lines, batchSize).table)
  {
    hide KeptOf, Apply, Delta;
    if lines == [] {
      ApplyEmpty(t);
    } else {
      var front := lines[..|lines| - 1];
      var line := lines[|lines| - 1];
      FeedIsApply(t, front, batchSize);
      FeedIgnoresTable(t, map[], front, batchSize);
      var p := FeedAll(Begin(map[]), front, batchSize);
      ApplyAssociative(t, p.table, Delta(p.batch + KeptOf(line)));
    }
  }

  lemma TableAfterIsApply(t: Table, lines: seq<Parsed>, how: Interruption, batchSize: nat)
    requires how.n <= |lines|
    ensures TableAfter(t, lines, how, batchSize) == Apply(t, TableAfter(map[], lines, how, batchSize))
  {
    hide Apply, Delta, FeedAll;
    var read := lines[..how.n];
    FeedIsApply(t, read, batchSize);
    FeedIgnoresTable(t, map[], read, batchSize);
    var p := FeedAll(Begin(map[]), read, batchSize);
    ApplyAssociative(t, p.table, Delta(p.batch));
  }

  lemma ImportedIsApply(t: Table, lines: seq<Parsed>, batchSize: nat)
    ensures Imported(t, lines, batchSize) == Apply(t, Written(lines, batchSize))
  {
    TableAfterIsApply(t, lines, Flushed(|lines|), batchSize);
    assert lines[..|lines|] == lines;
  }

  // ---- Convergence --------------------------------------------------------------

  /** Re-importing from the start leaves the same table as never having been interrupted. */
  ghost predicate Converges(t: Table, lines: seq<Parsed>, how: Interruption, stop: nat, batchSize: nat)
    requires how.n <= |lines| && stop <= |lines|
  {
    Imported(TableAfter(t, lines, how, batchSize), lines[..stop], batchSize) == Imported(t, lines[..stop], batchSize)
  }

  /** Exactly when a payload converges from every table: the interrupted writes lie below the full ones. */
  lemma ConvergesIff(lines: seq<Parsed>, how: Interruption, stop: nat, batchSize: nat)
    requires how.n <= |lines| && stop <= |lines|
    ensures (forall t :: Converges(t, lines, how, stop, batchSize))
       <==> Below(TableAfter(map[], lines, how, batchSize), Written(lines[..stop], batchSize), true)
  {
    hide Imported, TableAfter, Apply, Below;
    var part, full := TableAfter(map[], lines, how, batchSize), Written(lines[..stop], batchSize);
    AbsorbedIff(part, full);
    forall t ensures Converges(t, lines, how, stop, batchSize) <==> Apply(t, Apply(part, full)) == Apply(t, full) {
      TableAfterIsApply(t, lines, how, batchSize);
      ImportedIsApply(Apply(t, part), lines[..stop], batchSize);
      ImportedIsApply(t, lines[..stop], batchSize);
      ApplyAssociative(t, part, full);
    }
    if forall t :: Converges(t, lines, how, stop, batchSize) {
      assert Converges(map[], lines, how, stop, batchSize);
      ApplyEmpty(Apply(part, full));
      ApplyEmpty(full);
    }
  }

  /** Every record that reaches the table has a filled or absent cid. */
  ghost predicate LinesCidsFilled(lines: seq<Parsed>) {
    forall i :: 0 <= i < |lines| ==> CidsFilled(KeptOf(lines[i]))
  }

  lemma {:induction false} OpenBatchCids(lines: seq<Parsed>, batchSize: nat)
    requires LinesCidsFilled(lines)
    ensures CidsFilled(FeedAll(Begin(map[]), lines, batchSize).batch)
  {
    hide KeptOf, Settle;
    if lines != [] {
      var front := lines[..|lines| - 1];
      assert forall i :: 0 <= i < |front| ==> front[i] == lines[i];
      OpenBatchCids(front, batchSize);
      assert CidsFilled(KeptOf(lines[|front|]));
    }
  }

  /** One more line never takes back what the lines so far write, except perhaps an empty cid. */
  lemma SettleGrows(lines: seq<Parsed>, n: nat, batchSize: nat, cids: bool)
    requires n < |lines| && (cids ==> LinesCidsFilled(lines))
    ensures Below(Written(lines[..n], batchSize), Written(lines[..n + 1], batchSize), cids)
  {
    hide FeedAll, KeptOf, Delta, Below, Apply, LinesCidsFilled;
    var p := FeedAll(Begin(map[]), lines[..n], batchSize);
    NextLine(Begin(map[]), lines, n, batchSize);
    if cids {
      CidsOfPrefix(lines, n);
      OpenBatchCids(lines[..n], batchSize);
    }
    var kept := KeptOf(lines[n]);
    DeltaPrefixBelow(p.batch, kept, cids);
    BelowApply(p.table, Delta(p.batch), Delta(p.batch + kept), cids);
    EmptyBatchWritesNothing(Apply(p.table, Delta(p.batch + kept)));
  }

  lemma CidsOfPrefix(lines: seq<Parsed>, n: nat)
    requires n <= |lines| && LinesCidsFilled(lines)
    ensures LinesCidsFilled(lines[..n]) && (n < |lines| ==> CidsFilled(KeptOf(lines[n])))
  {
  }

  lemma {:induction false} WrittenGrows(lines: seq<Parsed>, n: nat, stop: nat, batchSize: nat, cids: bool)
    requires n <= stop <= |lines| && (cids ==> LinesCidsFilled(lines))
    ensures Below(Written(lines[..n], batchSize), Written(lines[..stop], batchSize), cids)
    decreases stop - n
  {
    hide Written, Below, LinesCidsFilled;
    if n == stop {
      BelowReflexive(Written(lines[..n], batchSize), cids);
    } else {
      WrittenGrows(lines, n, stop - 1, batchSize, cids);
      SettleGrows(lines, stop - 1, batchSize, cids);
      BelowTransitive(Written(lines[..n], batchSize), Written(lines[..stop - 1], batchSize), Written(lines[..stop], batchSize), cids);
    }
  }

  /** Rows that full batches wrote are covered by whatever is read and written after them. */
  lemma {:induction false} TablesGrow(lines: seq<Parsed>, n: nat, m: nat, batchSize: nat)
    requires n <= m <= |lines|
    ensures Below(FeedAll(Begin(map[]), lines[..n], batchSize).table, FeedAll(Begin(map[]), lines[..m], batchSize).table, true)
    decreases m - n
  {
    hide Below, KeptOf, Apply, Delta, FeedAll;
    var first := FeedAll(Begin(map[]), lines[..n], batchSize).table;
    if n == m {
      BelowReflexive(first, true);
    } else {
      var p := FeedAll(Begin(map[]), lines[..m - 1], batchSize);
      TablesGrow(lines, n, m - 1, batchSize);
      NextLine(Begin(map[]), lines, m - 1, batchSize);
      DeltaCovers(p.table, Delta(p.batch + KeptOf(lines[m - 1])));
      if FeedAll(Begin(map[]), lines[..m], batchSize).table != p.table {
        BelowTransitive(first, p.table, FeedAll(Begin(map[]), lines[..m], batchSize).table, true);
      }
    }
  }

  lemma DeltaCovers(t: Table, d: Table)
    ensures Below(t, Apply(t, d), true)
  {
    BelowReflexive(d, true);
    BelowApply(t, d, d, true);
  }

  /**
    A crash loses only the open batch, so from every table, for every payload, batch size and line at
    which the process dies, importing again from the start converges.
    */
  lemma CrashConverges(t: Table, lines: seq<Parsed>, n: nat, stop: nat, batchSize: nat)
    requires n <= stop <= |lines|
    ensures Converges(t, lines, Crashed(n), stop, batchSize)
  {
    hide FeedAll, Below, Apply, Delta;
    var p, q := FeedAll(Begin(map[]), lines[..n], batchSize), FeedAll(Begin(map[]), lines[..stop], batchSize);
    TablesGrow(lines, n, stop, batchSize);
    DeltaCovers(q.table, Delta(q.batch));
    BelowTransitive(p.table, q.table, Apply(q.table, Delta(q.batch)), true);
    ConvergesIff(lines, Crashed(n), stop, batchSize);
  }

  /**
    From every table, for every payload, batch size and interruption point up to where the run stops by
    itself: a crash always converges, and so does a shutdown when no record has an empty cid.
    */
  lemma ReimportConverges(t: Table, lines: seq<Parsed>, how: Interruption, stop: nat, batchSize: nat)
    requires how.n <= stop <= |lines| && (how.Flushed? ==> LinesCidsFilled(lines))
    ensures Converges(t, lines, how, stop, batchSize)
  {
    hide TableAfter, Imported, Below, LinesCidsFilled, Apply;
    match how {
      case Crashed(n) =>
        CrashConverges(t, lines, n, stop, batchSize);
      case Flushed(n) =>
        WrittenGrows(lines, n, stop, batchSize, true);
        AfterFlush(map[], lines, n, batchSize);
        ConvergesIff(lines, how, stop, batchSize);
    }
  }

  /**
    The batch open at line `n` would store an empty cid for `k`, and no batch of the full pass stores any:
    in each of them `k` has no non-empty cid, and its last record, if any, has none at all.
    */
  ghost predicate LosesEmptyCid(lines: seq<Parsed>, n: nat, stop: nat, batchSize: nat, k: Md5)
    requires n <= |lines| && stop <= |lines|
  {
    && EndsEmpty(Arrivals(OpenBatch(lines[..n], batchSize), k))
    && !SomeStores(AllBatches(lines[..stop], batchSize), k)
  }

  /** Two writes in turn against the second alone, when only the cid column can tell. */
  lemma ApplyAgainIff(t: Table, part: Table, full: Table)
    requires Below(part, full, false)
    ensures Apply(t, Apply(part, full)) == Apply(t, full)
       <==> forall k :: CidOf(part, k).Some? && CidOf(full, k).None? ==> CidOf(t, k) == CidOf(part, k)
  {
    hide Upsert, RowBelow, CidOf;
    var l, r := Apply(t, Apply(part, full)), Apply(t, full);
    assert l.Keys == r.Keys;
    forall k | k in r
      ensures l[k] == r[k] <==> (CidOf(part, k).Some? && CidOf(full, k).None? ==> CidOf(t, k) == CidOf(part, k))
    {
      RowAgainIff(t, part, full, k);
    }
    forall k | CidOf(part, k).Some? ensures k in r {
      InBoth(part, full, k);
    }
    if forall k :: CidOf(part, k).Some? && CidOf(full, k).None? ==> CidOf(t, k) == CidOf(part, k) {
      assert l == r;
    }
  }

  lemma InBoth(part: Table, full: Table, k: Md5)
    requires Below(part, full, false) && CidOf(part, k).Some?
    ensures k in full
  {
  }

  lemma RowAgainIff(t: Table, part: Table, full: Table, k: Md5)
    requires Below(part, full, false) && k in Apply(t, full)
    ensures k in Apply(t, Apply(part, full))
    ensures Apply(t, Apply(part, full))[k] == Apply(t, full)[k]
       <==> (CidOf(part, k).Some? && CidOf(full, k).None? ==> CidOf(t, k) == CidOf(part, k))
  {
    if k in part {
      assert k in full && RowBelow(part[k], full[k], false);
    }
  }

  /** The keys whose cid an interrupted pass leaves and the full pass does not, and what it leaves. */
  lemma LostCids(lines: seq<Parsed>, n: nat, stop: nat, batchSize: nat, k: Md5)
    requires n <= stop <= |lines|
    ensures var part, full := Written(lines[..n], batchSize), Written(lines[..stop], batchSize);
            && (LosesEmptyCid(lines, n, stop, batchSize, k) <==> CidOf(part, k).Some? && CidOf(full, k).None?)
            && (LosesEmptyCid(lines, n, stop, batchSize, k) ==> CidOf(part, k) == Some(""))
  {
    hide Apply, Delta, CidOf, FeedAll, ClosedBatches, EndsEmpty, Arrivals, NamesCid;
    var p := FeedAll(Begin(map[]), lines[..n], batchSize);
    assert p.batch == OpenBatch(lines[..n], batchSize);
    WrittenCid(lines[..n], batchSize, k);
    WrittenCid(lines[..stop], batchSize, k);
    DeltaCid(p.batch, k);
    ApplyCid(p.table, Delta(p.batch), k);
    SomeStoresSnoc(ClosedBatches(lines[..n], batchSize), p.batch, k);
    if SomeStores(ClosedBatches(lines[..n], batchSize), k) { StoredCidStays(lines, n, stop, batchSize, k); }
    if NamesCid(Arrivals(p.batch, k)) { NamedCidStays(lines, n, stop, batchSize, k); }
  }

  /**
    Shutdown and resume without any assumption: the table is that of one uninterrupted import exactly
    when every key whose empty cid the shutdown wrote too early had an empty cid stored already.
    */
  lemma ShutdownConvergesIff(t: Table, lines: seq<Parsed>, n: nat, stop: nat, batchSize: nat)
    requires n <= stop <= |lines|
    ensures Converges(t, lines, Flushed(n), stop, batchSize)
       <==> forall k :: LosesEmptyCid(lines, n, stop, batchSize, k) ==> CidOf(t, k) == Some("")
  {
    hide Imported, TableAfter, Apply, Below, LosesEmptyCid, CidOf;
    var part, full := Written(lines[..n], batchSize), Written(lines[..stop], batchSize);
    AfterFlush(t, lines, n, batchSize);
    ImportedIsApply(t, lines[..n], batchSize);
    ImportedIsApply(Apply(t, part), lines[..stop], batchSize);
    ImportedIsApply(t, lines[..stop], batchSize);
    ApplyAssociative(t, part, full);
    WrittenGrows(lines, n, stop, batchSize, false);
    ApplyAgainIff(t, part, full);
    forall k
      ensures LosesEmptyCid(lines, n, stop, batchSize, k) <==> CidOf(part, k).Some? && CidOf(full, k).None?
      ensures LosesEmptyCid(lines, n, stop, batchSize, k) ==> CidOf(part, k) == Some("")
    {
      LostCids(lines, n, stop, batchSize, k);
    }
  }

  /** Whatever the interruption, the same keys are in the table in the end. */
  lemma SameKeys(t: Table, lines: seq<Parsed>, how: Interruption, stop: nat, batchSize: nat)
    requires how.n <= stop <= |lines|
    ensures Imported(TableAfter(t, lines, how, batchSize), lines[..stop], batchSize).Keys == Imported(t, lines[..stop], batchSize).Keys
  {
    hide Imported, TableAfter, Below;
    if how.Crashed? {
      CrashConverges(t, lines, how.n, stop, batchSize);
    } else {
      WrittenGrows(lines, how.n, stop, batchSize, false);
      AfterFlush(t, lines, how.n, batchSize);
      ImportedIsApply(t, lines[..how.n], batchSize);
      ImportedIsApply(TableAfter(t, lines, how, batchSize), lines[..stop], batchSize);
      ImportedIsApply(t, lines[..stop], batchSize);
      BelowKeys(Written(lines[..how.n], batchSize), Written(lines[..stop], batchSize));
    }
  }

  lemma BelowKeys(c: Table, d: Table)
    requires Below(c, d, false)
    ensures c.Keys <= d.Keys
  {
  }

  /** Importing a payload twice is importing it once. */
  lemma ReimportIsIdempotent(t: Table, lines: seq<Parsed>, batchSize: nat)
    ensures var once := Imported(t, lines, batchSize);
            Imported(once, lines, batchSize) == once
  {
    var how := Flushed(|lines|);
    assert lines[..|lines|] == lines;
    BelowReflexive(Written(lines, batchSize), true);
    ConvergesIff(lines, how, |lines|, batchSize);
    assert Converges(t, lines, how, |lines|, batchSize);
  }

  ghost function BatchSizeOf(syncBatchSize: int): nat {
    if syncBatchSize > 1 then syncBatchSize else 1
  }

  // ---- Runs, including those that raise ---------------------------------------------

  /** The table that one uninterrupted import leaves; when a batch cannot be folded it stops before that batch. */
  ghost function Uninterrupted(t: Table, lines: seq<Parsed>, batchSize: nat, abortRate: real): Table {
    var stop := StopIndex(lines, 0, batchSize, abortRate);
    if RunRaises(lines, stop, batchSize) then FeedAll(Begin(t), lines[..RaiseIndex(lines, 0, stop, batchSize)], batchSize).table
    else Imported(t, lines[..stop], batchSize)
  }

  /** Full batches may be written again before the others. */
  lemma FullBatchesAgain(t: Table, lines: seq<Parsed>, n: nat, m: nat, batchSize: nat)
    requires n <= m <= |lines|
    ensures FeedAll(Begin(FeedAll(Begin(t), lines[..n], batchSize).table), lines[..m], batchSize).table
         == FeedAll(Begin(t), lines[..m], batchSize).table
  {
    hide FeedAll, Below, Apply;
    var p, q := FeedAll(Begin(map[]), lines[..n], batchSize).table, FeedAll(Begin(map[]), lines[..m], batchSize).table;
    FeedIsApply(t, lines[..n], batchSize);
    FeedIsApply(Apply(t, p), lines[..m], batchSize);
    FeedIsApply(t, lines[..m], batchSize);
    ApplyAssociative(t, p, q);
    TablesGrow(lines, n, m, batchSize);
    AbsorbedIff(p, q);
  }

  lemma LongerBatchRaises(a: seq<Rec>, c: seq<Rec>)
    requires BatchRaises(a)
    ensures BatchRaises(a + c)
  {
    hide TieRaises, FoldBatch;
    var i :| 0 <= i < |a| && StepRaises(a, i);
    assert (a + c)[..i] == a[..i];
    assert StepRaises(a + c, i);
  }

  lemma OpenBatchNext(lines: seq<Parsed>, i: nat, batchSize: nat)
    requires i < |lines| && !FlushDue(lines, i, batchSize)
    ensures OpenBatch(lines[..i + 1], batchSize) == OpenBatch(lines[..i], batchSize) + KeptOf(lines[i])
  {
    hide KeptOf, Settle;
    NextLine(Begin(map[]), lines, i, batchSize);
  }

  /** A batch that cannot be folded stays one when the run reads on. */
  lemma {:induction false} RaisesOn(lines: seq<Parsed>, n: nat, m: nat, batchSize: nat)
    requires n <= m <= |lines| && BatchRaises(OpenBatch(lines[..n], batchSize))
    ensures BatchRaises(OpenBatch(lines[..m], batchSize)) || exists j :: n <= j < m && RaisesAt(lines, j, batchSize)
    decreases m - n
  {
    hide OpenBatch, BatchRaises, KeptOf, FlushDue;
    if n < m {
      LongerBatchRaises(OpenBatch(lines[..n], batchSize), KeptOf(lines[n]));
      if !FlushDue(lines, n, batchSize) {
        OpenBatchNext(lines, n, batchSize);
        RaisesOn(lines, n + 1, m, batchSize);
      } else {
        assert RaisesAt(lines, n, batchSize);
      }
    }
  }

  lemma RunRaisesOn(lines: seq<Parsed>, n: nat, m: nat, batchSize: nat)
    requires n <= m <= |lines| && RunRaises(lines, n, batchSize)
    ensures RunRaises(lines, m, batchSize)
    ensures var i, j := RaiseIndex(lines, 0, n, batchSize), RaiseIndex(lines, 0, m, batchSize);
            i <= j && (i < n ==> i == j)
  {
    hide OpenBatch, BatchRaises, RaisesAt, RaiseIndex;
    FirstRaise(lines, 0, n, batchSize);
    FirstRaise(lines, 0, m, batchSize);
    if RaiseIndex(lines, 0, n, batchSize) == n { RaisesOn(lines, n, m, batchSize); }
  }

  /**
    A sync run whose import is stopped by a shutdown, and the next sync run on the same database; each
    resets the release's counters before it imports. `persisted` is what the first left in the counters.
    The second raises exactly when one uninterrupted run would, and so does the first only then.
    */
  method ImportInterruptedThenResumed(db: Database, lines: seq<Parsed>, n: nat, syncBatchSize: int, abortRate: real)
      returns (first: Outcome, second: Outcome, persisted: Counters, ghost read: nat)
    modifies db
    ensures var b := BatchSizeOf(syncBatchSize);
            var stop := StopIndex(lines, 0, b, abortRate);
            && read <= stop <= |lines| && (first == Shutdown ==> read == n)
            && (first == MergeFailed <==> RunRaises(lines, read, b))
            && (second == MergeFailed <==> RunRaises(lines, stop, b))
            && (first == MergeFailed ==> second == MergeFailed)
    ensures persisted.inserted + db.counters.inserted == |db.table| - |old(db.table)|
    ensures first == MergeFailed ==> db.table == Uninterrupted(old(db.table), lines, BatchSizeOf(syncBatchSize), abortRate)
    ensures first != MergeFailed && second == MergeFailed ==>
      var b := BatchSizeOf(syncBatchSize);
      db.table == FeedAll(Begin(Imported(old(db.table), lines[..read], b)),
                          lines[..RaiseIndex(lines, 0, StopIndex(lines, 0, b, abortRate), b)], b).table
    ensures second != MergeFailed ==>
      var b := BatchSizeOf(syncBatchSize);
      var stop, full := StopIndex(lines, 0, b, abortRate), Uninterrupted(old(db.table), lines, b, abortRate);
      && db.table.Keys == full.Keys
      && (db.table == full <==>
            forall k :: LosesEmptyCid(lines, read, stop, b, k) ==> CidOf(old(db.table), k) == Some(""))
  {
    hide StopIndex, Imported, TableAfter, FeedAll, LosesEmptyCid, RunRaises, RaiseIndex, Sum, Get, Flushable;
    db.Reset();
    var run := new ReleaseImport(db, syncBatchSize, abortRate);
    first := run.Run(lines, Some(n));
    persisted := db.counters;
    read := run.LinesRead(lines, Some(n));
    db.Reset();
    var again := new ReleaseImport(db, syncBatchSize, abortRate);
    second := again.Run(lines, None);
    ghost var b, stop := run.batchSize, StopIndex(lines, 0, run.batchSize, abortRate);
    if first == MergeFailed {
      RunRaisesOn(lines, read, stop, b);
      FullBatchesAgain(old(db.table), lines, RaiseIndex(lines, 0, read, b), RaiseIndex(lines, 0, stop, b), b);
    } else if second != MergeFailed {
      AfterFlush(old(db.table), lines, read, b);
      ShutdownConvergesIff(old(db.table), lines, read, stop, b);
      SameKeys(old(db.table), lines, Flushed(read), stop, b);
    }
  }

  /**
    The same for a process that dies between two lines: the open batch is lost, and nothing else. The table
    is that of one uninterrupted run even when that run raises.
    */
  method ImportCrashedThenResumed(db: Database, lines: seq<Parsed>, n: nat, syncBatchSize: int, abortRate: real)
      returns (first: Option<Outcome>, second: Outcome, persisted: Counters)
    requires n <= |lines|
    modifies db
    ensures db.table == Uninterrupted(old(db.table), lines, BatchSizeOf(syncBatchSize), abortRate)
    ensures persisted.inserted + db.counters.inserted == |db.table| - |old(db.table)|
    ensures var b := BatchSizeOf(syncBatchSize);
            second == MergeFailed <==> RunRaises(lines, StopIndex(lines, 0, b, abortRate), b)
    ensures first == Some(MergeFailed) ==> second == MergeFailed
  {
    hide StopIndex, Imported, FeedAll, RunRaises, RaiseIndex, RaisesAt, Sum, Get, Flushable;
    db.Reset();
    var run := new ReleaseImport(db, syncBatchSize, abortRate);
    ghost var read: nat;
    first, read := run.RunUntilCrash(lines, n);
    persisted := db.counters;
    assert db.table == TableAfter(old(db.table), lines, Crashed(read), run.batchSize);
    db.Reset();
    var again := new ReleaseImport(db, syncBatchSize, abortRate);
    second := again.Run(lines, None);
    ghost var b, stop := run.batchSize, StopIndex(lines, 0, run.batchSize, abortRate);
    NoRaiseBefore(lines, read, stop, b, first == Some(MergeFailed));
    if second == MergeFailed {
      FullBatchesAgain(old(db.table), lines, read, RaiseIndex(lines, 0, stop, b), b);
    } else {
      CrashConverges(old(db.table), lines, read, stop, b);
    }
  }

  lemma NoRaiseBefore(lines: seq<Parsed>, n: nat, stop: nat, batchSize: nat, raises: bool)
    requires n <= stop <= |lines| && forall j :: 0 <= j < n ==> !RaisesAt(lines, j, batchSize)
    requires raises ==> n < stop && RaisesAt(lines, n, batchSize)
    ensures n <= RaiseIndex(lines, 0, stop, batchSize)
    ensures raises ==> RunRaises(lines, stop, batchSize) && RaiseIndex(lines, 0, stop, batchSize) == n
  {
    hide RaisesAt, RaiseIndex, BatchRaises, OpenBatch;
    FirstRaise(lines, 0, stop, batchSize);
  }

  /**
    A payload imported twice: the second run ends as the first, finds every row as it would write it and
    inserts none.
    */
  method ImportTwice(db: Database, lines: seq<Parsed>, syncBatchSize: int, abortRate: real)
      returns (first: Outcome, second: Outcome, inserted: nat)
    modifies db
    ensures db.table == Uninterrupted(old(db.table), lines, BatchSizeOf(syncBatchSize), abortRate)
    ensures inserted == 0 == db.counters.inserted
    ensures first == MergeFailed <==> second == MergeFailed
    ensures var b := BatchSizeOf(syncBatchSize);
            second == MergeFailed <==> RunRaises(lines, StopIndex(lines, 0, b, abortRate), b)
  {
    hide StopIndex, Imported, FeedAll, RunRaises, RaiseIndex, Sum, Get, Flushable;
    db.Reset();
    var run := new ReleaseImport(db, syncBatchSize, abortRate);
    first := run.Run(lines, None);
    db.Reset();
    var again := new ReleaseImport(db, syncBatchSize, abortRate);
    second := again.Run(lines, None);
    inserted := again.stats.inserted;
    ghost var b, stop := run.batchSize, StopIndex(lines, 0, run.batchSize, abortRate);
    if second == MergeFailed {
      var m := RaiseIndex(lines, 0, stop, b);
      FullBatchesAgain(old(db.table), lines, m, m, b);
    } else {
      ReimportIsIdempotent(old(db.table), lines[..stop], b);
    }
  }

  lemma AfterFlush(t: Table, lines: seq<Parsed>, n: nat, batchSize: nat)
    requires n <= |lines|
    ensures TableAfter(t, lines, Flushed(n), batchSize) == Imported(t, lines[..n], batchSize)
  {
  }

  // ---- What can go wrong ----------------------------------------------------------

  ghost predicate LinesStamped(lines: seq<Parsed>) {
    forall i :: 0 <= i < |lines| ==> AllStamped(KeptOf(lines[i]))
  }

  lemma {:induction false} OpenBatchStamped(lines: seq<Parsed>, batchSize: nat)
    requires LinesStamped(lines)
    ensures AllStamped(FeedAll(Begin(map[]), lines, batchSize).batch)
  {
    hide KeptOf, Settle;
    if lines != [] {
      var front := lines[..|lines| - 1];
      assert forall i :: 0 <= i < |front| ==> front[i] == lines[i];
      OpenBatchStamped(front, batchSize);
      assert AllStamped(KeptOf(lines[|front|]));
    }
  }

  /** A payload in which every record carries a timestamp never fails in a merge. */
  lemma StampedPayloadMerges(lines: seq<Parsed>, n: nat, batchSize: nat)
    requires n <= |lines| && LinesStamped(lines)
    ensures !RunRaises(lines, n, batchSize)
  {
    hide KeptOf, FeedAll, BatchRaises;
    assert LinesStamped(lines[..n]);
    OpenBatchStamped(lines[..n], batchSize);
    StampedBatchNeverRaises(OpenBatch(lines[..n], batchSize));
    var m := RaiseIndex(lines, 0, n, batchSize);
    FirstRaise(lines, 0, n, batchSize);
    hide RaiseIndex;
    if m < n {
      assert LinesStamped(lines[..m]) && AllStamped(KeptOf(lines[m]));
      OpenBatchStamped(lines[..m], batchSize);
      StampedBatchNeverRaises(OpenBatch(lines[..m], batchSize) + KeptOf(lines[m]));
    }
  }

  /** A key as the adapters produce them. */
  const KEY: Md5 := [0, 0, 0, 0, 0, 0, 0, 0, 0, 0, 0, 0, 0, 0, 0, 0]

  function Sample(publisher: Option<string>, cid: Option<string>): Rec {
    Rec(KEY, Scalars("", publisher, None, None, None, None, None, None), Lists([], [], [], [], [], [], []),
        Origin("", None, None), Some(0), false, None, cid, false, None)
  }

  lemma TwoRecords(a: Rec, b: Rec)
    requires a.md5 == b.md5
    ensures Delta([a]) == map[a.md5 := ToRow(Start(a))]
    ensures Delta([a, b]) == map[a.md5 := ToRow(Absorb(Start(a), b))]
  {
    hide Start, Absorb, ToRow;
    assert [a][..0] == [] && [a, b][..1] == [a];
    assert FoldBatch([a]) == map[a.md5 := Start(a)];
    assert FoldBatch([a, b]) == map[a.md5 := Absorb(Start(a), b)];
  }

  /** Two one-record lines of one key, and a batch of two. */
  lemma TwoLines(a: Rec, b: Rec)
    requires a.md5 == b.md5 && !a.discarded && !b.discarded
    ensures var lines := [Parsed([a]), Parsed([b])];
            TableAfter(map[], lines, Flushed(1), 2) == Delta([a]) && Written(lines, 2) == Delta([a, b])
  {
    hide Delta, Apply, Kept, FeedAll;
    var lines := [Parsed([a]), Parsed([b])];
    KeptOne(a);
    KeptOne(b);
    NoLines(Begin(map[]), lines, 2);
    NextLine(Begin(map[]), lines, 0, 2);
    NextLine(Begin(map[]), lines, 1, 2);
    assert [] + [a] == [a] && [a] + [b] == [a, b];
    assert FeedAll(Begin(map[]), lines[..1], 2) == Progress(map[], [a], 1);
    assert lines[..2] == lines;
    ApplyEmpty(Delta([a]));
    ApplyEmpty(Delta([a, b]));
    EmptyBatchWritesNothing(Delta([a, b]));
  }

  lemma KeptOne(r: Rec)
    requires !r.discarded
    ensures Kept([r]) == [r]
  {
    assert [r][..0] == [] && Kept([]) == [];
    assert Kept([r]) == Kept([r][..0]) + [r];
  }

  /**
    With an empty cid the resumed table differs: the interrupted flush stores `""`, which the
    uninterrupted fold had already replaced by NULL.
    */
  lemma EmptyCidDiverges()
    ensures var lines := [Parsed([Sample(None, Some(""))]), Parsed([Sample(None, None)])];
            !Converges(map[], lines, Flushed(1), 2, 2)
  {
    hide Start, Absorb, ToRow, TableAfter, Imported;
    var a, b := Sample(None, Some("")), Sample(None, None);
    var lines := [Parsed([a]), Parsed([b])];
    assert lines[..2] == lines;
    TwoLines(a, b);
    TwoRecords(a, b);
    EmptyCidRows();
    var part, full := Delta([a]), Delta([a, b]);
    ImportedIsApply(part, lines, 2);
    ImportedIsApply(map[], lines, 2);
    ApplyEmpty(full);
    assert Apply(part, full)[a.md5].kept.ipfsCid == Some("");
    assert full[a.md5].kept.ipfsCid == None;
  }

  lemma EmptyCidRows()
    ensures var a, b := Sample(None, Some("")), Sample(None, None);
            ToRow(Start(a)).kept.ipfsCid == Some("") && ToRow(Absorb(Start(a), b)).kept.ipfsCid == None
  {
  }

  /**
    The same two records of one key: in one batch the publisher survives, in two batches the second
    upsert nulls it, although the documented merge never nulls a field.
    */
  lemma BatchBoundaryLosesPublisher()
    ensures var a, b := Sample(Some("P"), None), Sample(None, None);
            && Delta([a, b])[KEY].plain.publisher == Some("P")
            && Apply(Delta([a]), Delta([b]))[KEY].plain.publisher == None
  {
    var a, b := Sample(Some("P"), None), Sample(None, None);
    hide ToRow, Absorb, Start, Upsert;
    TwoRecords(a, b);
    TwoRecords(b, b);
    PublisherRows();
  }

  lemma PublisherRows()
    ensures var a, b := Sample(Some("P"), None), Sample(None, None);
            && ToRow(Absorb(Start(a), b)).plain.publisher == Some("P")
            && Upsert(ToRow(Start(a)), ToRow(Start(b))).plain.publisher == None
  {
    assert "P"[1..] == [] && "P"[0] == 'P';
    assert StripNul("P") == ['P'] + StripNul([]) == "P";
  }
}
