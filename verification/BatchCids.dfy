/** Which batches of a payload store an `ipfs_cid`, in terms of their records. */
module BatchCids {
  import opened Options
  import opened Bytes
  import opened Records
  import opened RecordFolds
  import opened MetadataTable
  import opened ImportPipeline

  // ---- One batch ----------------------------------------------------------------

  /** Some record has a non-empty cid. */
  ghost predicate NamesCid(rs: seq<Rec>) {
    exists i :: 0 <= i < |rs| && Truthy(rs[i].ipfsCid)
  }

  /** The last record has a cid, and it is empty. */
  ghost predicate EndsEmpty(rs: seq<Rec>) {
    rs != [] && rs[|rs| - 1].ipfsCid == Some("")
  }

  /** The row that a batch writes for `k` has a cid, possibly an empty one. */
  ghost predicate StoresCid(batch: seq<Rec>, k: Md5) {
    var rs := Arrivals(batch, k);
    NamesCid(rs) || EndsEmpty(rs)
  }

  function CidOf(t: Table, k: Md5): Option<string> {
    if k in t then t[k].kept.ipfsCid else None
  }

  lemma FoldedCidOf(rs: seq<Rec>)
    requires rs != []
    ensures Fold(rs).rec.ipfsCid.Some? <==> NamesCid(rs) || EndsEmpty(rs)
    ensures !NamesCid(rs) && EndsEmpty(rs) ==> Fold(rs).rec.ipfsCid == Some("")
  {
    hide Fold;
    if NamesCid(rs) {
      var i :| 0 <= i < |rs| && Truthy(rs[i].ipfsCid);
      var b := FirstNaming(rs, i);
      FirstCid(rs, b);
    } else {
      NoCid(rs);
      assert !Truthy(rs[|rs| - 1].ipfsCid);
    }
  }

  lemma FirstNaming(rs: seq<Rec>, i: nat) returns (b: nat)
    requires i < |rs| && Truthy(rs[i].ipfsCid)
    ensures b <= i && Truthy(rs[b].ipfsCid) && forall j :: 0 <= j < b ==> !Truthy(rs[j].ipfsCid)
  {
    b := 0;
    while !Truthy(rs[b].ipfsCid)
      invariant b <= i && forall j :: 0 <= j < b ==> !Truthy(rs[j].ipfsCid)
      decreases i - b
    {
      b := b + 1;
    }
  }

  /** What one batch writes into the cid column. */
  lemma DeltaCid(batch: seq<Rec>, k: Md5)
    ensures CidOf(Delta(batch), k).Some? <==> StoresCid(batch, k)
    ensures var rs := Arrivals(batch, k);
            !NamesCid(rs) && EndsEmpty(rs) ==> CidOf(Delta(batch), k) == Some("")
  {
    hide FoldBatch, Arrivals, Fold, NamesCid, EndsEmpty, ToOverwritten, StripOption;
    var rs := Arrivals(batch, k);
    FoldBatchPerKey(batch, k);
    if rs == [] {
      assert !NamesCid([]) && !EndsEmpty([]) by { NothingNamed(); }
    } else {
      FoldedCidOf(rs);
    }
  }

  lemma NothingNamed()
    ensures !NamesCid([]) && !EndsEmpty([])
  {
  }

  // ---- The batches of a payload ----------------------------------------------------

  /** The batches that were full, in order. */
  function ClosedBatches(lines: seq<Parsed>, batchSize: nat): seq<seq<Rec>> {
    if lines == [] then []
    else
      var front, line := lines[..|lines| - 1], lines[|lines| - 1];
      var batch := OpenBatch(front, batchSize) + KeptOf(line);
      if |batch| >= batchSize || FeedAll(Begin(map[]), front, batchSize).pending + 1 >= batchSize
      then ClosedBatches(front, batchSize) + [batch]
      else ClosedBatches(front, batchSize)
  }

  /** ... and the last one, which the final flush writes as it is. */
  function AllBatches(lines: seq<Parsed>, batchSize: nat): seq<seq<Rec>> {
    ClosedBatches(lines, batchSize) + [OpenBatch(lines, batchSize)]
  }

  ghost predicate SomeStores(batches: seq<seq<Rec>>, k: Md5) {
    exists i :: 0 <= i < |batches| && StoresCid(batches[i], k)
  }

  lemma SomeStoresSnoc(batches: seq<seq<Rec>>, batch: seq<Rec>, k: Md5)
    ensures SomeStores(batches + [batch], k) <==> SomeStores(batches, k) || StoresCid(batch, k)
  {
    hide StoresCid;
    var all := batches + [batch];
    assert all[|batches|] == batch && forall i :: 0 <= i < |batches| ==> all[i] == batches[i];
    if i :| 0 <= i < |batches| && StoresCid(batches[i], k) { assert StoresCid(all[i], k); }
    if StoresCid(batch, k) { assert StoresCid(all[|batches|], k); }
  }

  /** Writing more rows keeps the cids that are there and adds those that are written. */
  lemma ApplyCid(t: Table, d: Table, k: Md5)
    ensures CidOf(Apply(t, d), k).Some? <==> CidOf(t, k).Some? || CidOf(d, k).Some?
    ensures CidOf(d, k).Some? ==> CidOf(Apply(t, d), k) == CidOf(d, k)
  {
  }

  lemma {:induction false} ClosedCid(lines: seq<Parsed>, batchSize: nat, k: Md5)
    ensures CidOf(FeedAll(Begin(map[]), lines, batchSize).table, k).Some? <==> SomeStores(ClosedBatches(lines, batchSize), k)
  {
    hide Apply, Delta, CidOf, StoresCid, SomeStores, KeptOf;
    if lines == [] {
      assert !CidOf(map[], k).Some? && !SomeStores([], k) by { NothingStored(k); }
    } else {
      var front, line := lines[..|lines| - 1], lines[|lines| - 1];
      var p := FeedAll(Begin(map[]), front, batchSize);
      var batch := p.batch + KeptOf(line);
      ClosedCid(front, batchSize, k);
      ApplyCid(p.table, Delta(batch), k);
      DeltaCid(batch, k);
      SomeStoresSnoc(ClosedBatches(front, batchSize), batch, k);
    }
  }

  lemma NothingStored(k: Md5)
    ensures !CidOf(map[], k).Some? && !SomeStores([], k)
  {
  }

  /** An import leaves `k` with a cid exactly when one of its batches stores one. */
  lemma WrittenCid(lines: seq<Parsed>, batchSize: nat, k: Md5)
    ensures CidOf(Imported(map[], lines, batchSize), k).Some? <==> SomeStores(AllBatches(lines, batchSize), k)
  {
    hide Apply, Delta, CidOf, StoresCid, SomeStores, FeedAll, ClosedBatches;
    var p := FeedAll(Begin(map[]), lines, batchSize);
    ClosedCid(lines, batchSize, k);
    ApplyCid(p.table, Delta(p.batch), k);
    DeltaCid(p.batch, k);
    SomeStoresSnoc(ClosedBatches(lines, batchSize), p.batch, k);
  }

  // ---- Reading on -------------------------------------------------------------------

  lemma ReadOne(lines: seq<Parsed>, n: nat, batchSize: nat)
    requires n < |lines|
    ensures var batch := OpenBatch(lines[..n], batchSize) + KeptOf(lines[n]);
            || (ClosedBatches(lines[..n + 1], batchSize) == ClosedBatches(lines[..n], batchSize) + [batch]
                && OpenBatch(lines[..n + 1], batchSize) == [])
            || (ClosedBatches(lines[..n + 1], batchSize) == ClosedBatches(lines[..n], batchSize)
                && OpenBatch(lines[..n + 1], batchSize) == batch)
  {
    hide KeptOf, Settle, FeedAll;
    NextLine(Begin(map[]), lines, n, batchSize);
    assert lines[..n + 1][..n] == lines[..n];
  }

  /** Full batches stay as they are, and the open one is the beginning of a batch of the longer pass. */
  lemma {:induction false} BatchesContinue(lines: seq<Parsed>, n: nat, m: nat, batchSize: nat)
    requires n <= m <= |lines|
    ensures ClosedBatches(lines[..n], batchSize) <= ClosedBatches(lines[..m], batchSize)
    ensures var all := AllBatches(lines[..m], batchSize);
            exists i :: 0 <= i < |all| && OpenBatch(lines[..n], batchSize) <= all[i]
    decreases m - n
  {
    hide OpenBatch, ClosedBatches, KeptOf;
    var open, all := OpenBatch(lines[..n], batchSize), AllBatches(lines[..m], batchSize);
    if m == n {
      assert open <= all[|all| - 1];
    } else {
      BatchesContinue(lines, n, m - 1, batchSize);
      ReadOne(lines, m - 1, batchSize);
      var before := AllBatches(lines[..m - 1], batchSize);
      var i :| 0 <= i < |before| && open <= before[i];
      if i < |before| - 1 {
        assert all[i] == before[i];
      } else {
        assert open <= OpenBatch(lines[..m - 1], batchSize) + KeptOf(lines[m - 1]);
        assert open <= all[|before| - 1];
      }
    }
  }

  lemma {:induction false} ArrivalsPrefix(a: seq<Rec>, c: seq<Rec>, k: Md5)
    requires a <= c
    ensures Arrivals(a, k) <= Arrivals(c, k)
  {
    if a == c {
    } else {
      var front := c[..|c| - 1];
      assert a <= front;
      ArrivalsPrefix(a, front, k);
    }
  }

  /** A non-empty cid that has arrived in the open batch is not lost by reading on. */
  lemma NamedCidStays(lines: seq<Parsed>, n: nat, m: nat, batchSize: nat, k: Md5)
    requires n <= m <= |lines| && NamesCid(Arrivals(OpenBatch(lines[..n], batchSize), k))
    ensures SomeStores(AllBatches(lines[..m], batchSize), k)
  {
    hide OpenBatch, AllBatches, Arrivals;
    BatchesContinue(lines, n, m, batchSize);
    var open, all := OpenBatch(lines[..n], batchSize), AllBatches(lines[..m], batchSize);
    var i :| 0 <= i < |all| && open <= all[i];
    ArrivalsPrefix(open, all[i], k);
    var few, many := Arrivals(open, k), Arrivals(all[i], k);
    var j :| 0 <= j < |few| && Truthy(few[j].ipfsCid);
    assert Truthy(many[j].ipfsCid);
    assert StoresCid(all[i], k);
  }

  /** Full batches that store a cid do so in the longer pass as well. */
  lemma StoredCidStays(lines: seq<Parsed>, n: nat, m: nat, batchSize: nat, k: Md5)
    requires n <= m <= |lines| && SomeStores(ClosedBatches(lines[..n], batchSize), k)
    ensures SomeStores(AllBatches(lines[..m], batchSize), k)
  {
    hide ClosedBatches, StoresCid;
    BatchesContinue(lines, n, m, batchSize);
    var few, all := ClosedBatches(lines[..n], batchSize), AllBatches(lines[..m], batchSize);
    var i :| 0 <= i < |few| && StoresCid(few[i], k);
    assert all[i] == few[i];
  }
}
