/** `sync/importer.py`: batches, flushes, counters and the import loop of one release. */
module ImportPipeline {
  import opened Options
  import opened Bytes
  import opened Records
  import opened MetadataTable
  import opened Tallies

  /** What the JSON parser and the source adapter make of one line. */
  datatype Parsed = Failed | Parsed(records: seq<Rec>)

  // ---- The table as a function of the lines read ------------------------------

  function Kept(records: seq<Rec>): seq<Rec> {
    if records == [] then []
    else
      var front, r := Kept(records[..|records| - 1]), records[|records| - 1];
      if r.discarded then front else front + [r]
  }

  function KeptOf(line: Parsed): seq<Rec> {
    if line.Failed? then [] else Kept(line.records)
  }

  /** Committed rows, the open batch, and the number of lines since the last flush. */
  datatype Progress = Progress(table: Table, batch: seq<Rec>, pending: nat)

  /** What a flush writes. */
  function Settle(p: Progress): Table {
    Apply(p.table, Delta(p.batch))
  }

  function Feed(p: Progress, line: Parsed, batchSize: nat): Progress {
    var q := Progress(p.table, p.batch + KeptOf(line), p.pending + 1);
    if |q.batch| >= batchSize || q.pending >= batchSize then Progress(Settle(q), [], 0) else q
  }

  function FeedAll(p: Progress, lines: seq<Parsed>, batchSize: nat): Progress {
    if lines == [] then p
    else Feed(FeedAll(p, lines[..|lines| - 1], batchSize), lines[|lines| - 1], batchSize)
  }

  function Begin(t: Table): Progress {
    Progress(t, [], 0)
  }

  /** The table after reading `lines` and flushing. */
  function Imported(t: Table, lines: seq<Parsed>, batchSize: nat): Table {
    Settle(FeedAll(Begin(t), lines, batchSize))
  }

  // ---- Counters as functions of the lines read --------------------------------

  datatype Observed = Observed(skipped: nat, discarded: nat, failed: nat)

  function Discards(records: seq<Rec>): nat {
    if records == [] then 0
    else Discards(records[..|records| - 1]) + (if records[|records| - 1].discarded then 1 else 0)
  }

  function ReasonOf(r: Rec): string {
    if Truthy(r.discardReason) then r.discardReason.value else "unspecified"
  }

  function DiscardsFor(records: seq<Rec>, reason: string): nat {
    if records == [] then 0
    else
      var r := records[|records| - 1];
      DiscardsFor(records[..|records| - 1], reason) + (if r.discarded && ReasonOf(r) == reason then 1 else 0)
  }

  function ObserveLine(o: Observed, line: Parsed): Observed {
    if line.Failed? then o.(failed := o.failed + 1)
    else if line.records == [] then o.(skipped := o.skipped + 1)
    else o.(discarded := o.discarded + Discards(line.records))
  }

  function Observe(lines: seq<Parsed>): Observed {
    if lines == [] then Observed(0, 0, 0)
    else ObserveLine(Observe(lines[..|lines| - 1]), lines[|lines| - 1])
  }

  function ReasonsIn(line: Parsed, reason: string): nat {
    if line.Failed? then 0 else DiscardsFor(line.records, reason)
  }

  function ReasonCount(lines: seq<Parsed>, reason: string): nat {
    if lines == [] then 0
    else ReasonCount(lines[..|lines| - 1], reason) + ReasonsIn(lines[|lines| - 1], reason)
  }

  // ---- Where an uninterrupted run stops ---------------------------------------

  /** After a flush, from line 10000 on, the error rate is checked. */
  predicate TooManyErrors(failed: nat, seen: nat, abortRate: real) {
    failed as real > abortRate * (if seen > 1 then seen else 1) as real
  }

  predicate AbortsAfter(lines: seq<Parsed>, i: nat, batchSize: nat, abortRate: real)
    requires i < |lines|
  {
    && FeedAll(Begin(map[]), lines[..i + 1], batchSize).pending == 0
    && i + 1 >= 10000
    && TooManyErrors(Observe(lines[..i + 1]).failed, i + 1, abortRate)
  }

  /** How many lines a run reads that nobody interrupts. */
  function StopIndex(lines: seq<Parsed>, i: nat, batchSize: nat, abortRate: real): (n: nat)
    requires i <= |lines|
    ensures i <= n <= |lines|
    decreases |lines| - i
  {
    if i == |lines| then i
    else if AbortsAfter(lines, i, batchSize, abortRate) then i + 1
    else StopIndex(lines, i + 1, batchSize, abortRate)
  }

  // ---- Where a run raises -------------------------------------------------------

  function OpenBatch(lines: seq<Parsed>, batchSize: nat): seq<Rec> {
    FeedAll(Begin(map[]), lines, batchSize).batch
  }

  /** Line `i` makes a flush due. */
  predicate FlushDue(lines: seq<Parsed>, i: nat, batchSize: nat)
    requires i < |lines|
  {
    var p := FeedAll(Begin(map[]), lines[..i], batchSize);
    |p.batch + KeptOf(lines[i])| >= batchSize || p.pending + 1 >= batchSize
  }

  /** Line `i` completes a batch that cannot be folded. */
  ghost predicate RaisesAt(lines: seq<Parsed>, i: nat, batchSize: nat)
    requires i < |lines|
  {
    FlushDue(lines, i, batchSize) && BatchRaises(OpenBatch(lines[..i], batchSize) + KeptOf(lines[i]))
  }

  /** The first such line from `i` on, or `n`. */
  ghost function RaiseIndex(lines: seq<Parsed>, i: nat, n: nat, batchSize: nat): (m: nat)
    requires i <= n <= |lines|
    ensures i <= m <= n
    decreases n - i
  {
    if i == n || RaisesAt(lines, i, batchSize) then i else RaiseIndex(lines, i + 1, n, batchSize)
  }

  lemma {:induction false} FirstRaise(lines: seq<Parsed>, i: nat, n: nat, batchSize: nat)
    requires i <= n <= |lines|
    ensures var m := RaiseIndex(lines, i, n, batchSize);
            (forall j :: i <= j < m ==> !RaisesAt(lines, j, batchSize)) && (m < n ==> RaisesAt(lines, m, batchSize))
    decreases n - i
  {
    hide RaisesAt;
    if i < n && !RaisesAt(lines, i, batchSize) { FirstRaise(lines, i + 1, n, batchSize); }
  }

  lemma RaiseIndexIs(lines: seq<Parsed>, m: nat, n: nat, batchSize: nat)
    requires m <= n <= |lines| && (forall j :: 0 <= j < m ==> !RaisesAt(lines, j, batchSize))
    requires m < n ==> RaisesAt(lines, m, batchSize)
    ensures RaiseIndex(lines, 0, n, batchSize) == m
  {
    hide RaisesAt, RaiseIndex;
    FirstRaise(lines, 0, n, batchSize);
  }

  /** Reading `n` lines and flushing raises on the way or in the last flush. */
  ghost predicate RunRaises(lines: seq<Parsed>, n: nat, batchSize: nat)
    requires n <= |lines|
  {
    RaiseIndex(lines, 0, n, batchSize) < n || BatchRaises(OpenBatch(lines[..n], batchSize))
  }

  /** The open batch and the line count do not depend on the table. */
  lemma {:induction false} FeedIgnoresTable(t: Table, u: Table, lines: seq<Parsed>, batchSize: nat)
    ensures FeedAll(Begin(t), lines, batchSize).batch == FeedAll(Begin(u), lines, batchSize).batch
    ensures FeedAll(Begin(t), lines, batchSize).pending == FeedAll(Begin(u), lines, batchSize).pending
  {
    hide Settle, KeptOf;
    if lines != [] { FeedIgnoresTable(t, u, lines[..|lines| - 1], batchSize); }
  }

  /** Reading one more line, as all the specification functions see it. */
  lemma NextLine(p: Progress, lines: seq<Parsed>, i: nat, batchSize: nat)
    requires i < |lines|
    ensures FeedAll(p, lines[..i + 1], batchSize) == Feed(FeedAll(p, lines[..i], batchSize), lines[i], batchSize)
    ensures Observe(lines[..i + 1]) == ObserveLine(Observe(lines[..i]), lines[i])
    ensures forall r :: ReasonCount(lines[..i + 1], r) == ReasonCount(lines[..i], r) + ReasonsIn(lines[i], r)
  {
    hide Feed, ObserveLine, ReasonsIn;
    assert lines[..i + 1][..i] == lines[..i];
  }

  lemma NoLines(p: Progress, lines: seq<Parsed>, batchSize: nat)
    ensures FeedAll(p, lines[..0], batchSize) == p && Observe(lines[..0]) == Observed(0, 0, 0)
    ensures forall r :: ReasonCount(lines[..0], r) == 0
  {
  }

  lemma NoRecordsCounts()
    ensures Kept([]) == [] && Discards([]) == 0 && forall r :: DiscardsFor([], r) == 0
  {
  }

  lemma RecordCounts(records: seq<Rec>, i: nat)
    requires i < |records|
    ensures var r := records[i];
            && Kept(records[..i + 1]) == Kept(records[..i]) + (if r.discarded then [] else [r])
            && Discards(records[..i + 1]) == Discards(records[..i]) + (if r.discarded then 1 else 0)
            && forall q :: DiscardsFor(records[..i + 1], q) == DiscardsFor(records[..i], q) + DiscardsFor([r], q)
  {
    var r := records[i];
    assert records[..i + 1][..i] == records[..i];
    assert [r][..0] == [] && forall q :: DiscardsFor([], q) == 0;
  }

  // ---- What is counted -----------------------------------------------------------

  ghost function FailedLines(lines: seq<Parsed>, n: nat): set<nat>
    requires n <= |lines|
  {
    set i: nat | 0 <= i < n && lines[i].Failed?
  }

  ghost function EmptyLines(lines: seq<Parsed>, n: nat): set<nat>
    requires n <= |lines|
  {
    set i: nat | 0 <= i < n && lines[i] == Parsed([])
  }

  /** A record is discarded for `reason`; an absent or empty reason is given as "unspecified". */
  predicate DiscardedFor(r: Rec, reason: string) {
    && r.discarded
    && match r.discardReason
       case None => reason == "unspecified"
       case Some(given) => reason == if given == "" then "unspecified" else given
  }

  ghost function DiscardedRecords(lines: seq<Parsed>, n: nat): set<(nat, nat)>
    requires n <= |lines|
  {
    set i: nat, j: nat | 0 <= i < n && lines[i].Parsed? && 0 <= j < |lines[i].records| && lines[i].records[j].discarded :: (i, j)
  }

  ghost function DiscardedRecordsFor(lines: seq<Parsed>, n: nat, reason: string): set<(nat, nat)>
    requires n <= |lines|
  {
    set i: nat, j: nat | 0 <= i < n && lines[i].Parsed? && 0 <= j < |lines[i].records| && DiscardedFor(lines[i].records[j], reason) :: (i, j)
  }

  /** The places of one line whose records have a property. */
  ghost function PlacesIn(i: nat, records: seq<Rec>, p: Rec -> bool): set<(nat, nat)> {
    set j: nat | 0 <= j < |records| && p(records[j]) :: (i, j)
  }

  lemma PlacesSnoc(i: nat, records: seq<Rec>, r: Rec, p: Rec -> bool)
    ensures |PlacesIn(i, records + [r], p)| == |PlacesIn(i, records, p)| + if p(r) then 1 else 0
  {
    var n: nat := |records|;
    var few, all := PlacesIn(i, records, p), PlacesIn(i, records + [r], p);
    assert (records + [r])[n] == r && forall j :: 0 <= j < n ==> (records + [r])[j] == records[j];
    assert (i, n) !in few;
    assert all == few + if p(r) then {(i, n)} else {};
  }

  lemma {:induction false} DiscardsArePlaces(i: nat, records: seq<Rec>, p: Rec -> bool)
    requires forall r :: p(r) == r.discarded
    ensures Discards(records) == |PlacesIn(i, records, p)|
  {
    if records == [] {
      assert PlacesIn(i, [], p) == {};
    } else {
      var front, r := records[..|records| - 1], records[|records| - 1];
      DiscardsArePlaces(i, front, p);
      PlacesSnoc(i, front, r, p);
      assert records == front + [r];
    }
  }

  lemma {:induction false} DiscardsCounted(records: seq<Rec>)
    ensures Discards(records) == |set j: nat | 0 <= j < |records| && records[j].discarded|
  {
    var all := set j: nat | 0 <= j < |records| && records[j].discarded;
    if records == [] {
      assert all == {};
    } else {
      var n: nat := |records| - 1;
      var front := records[..n];
      DiscardsCounted(front);
      var few := set j: nat | 0 <= j < |front| && front[j].discarded;
      assert n !in few && all == few + if records[n].discarded then {n} else {};
    }
  }

  lemma {:induction false} ReasonsArePlaces(i: nat, records: seq<Rec>, reason: string, p: Rec -> bool)
    requires forall r :: p(r) == DiscardedFor(r, reason)
    ensures DiscardsFor(records, reason) == |PlacesIn(i, records, p)|
  {
    if records == [] {
      assert PlacesIn(i, [], p) == {};
    } else {
      var front, r := records[..|records| - 1], records[|records| - 1];
      ReasonsArePlaces(i, front, reason, p);
      PlacesSnoc(i, front, r, p);
      assert records == front + [r];
    }
  }

  /** The counters are numbers of lines and of records, each line and record counted once and under one heading. */
  lemma {:induction false} ObserveCounts(lines: seq<Parsed>, n: nat)
    requires n <= |lines|
    ensures Observe(lines[..n]) == Observed(|EmptyLines(lines, n)|, |DiscardedRecords(lines, n)|, |FailedLines(lines, n)|)
  {
    hide Discards;
    if n == 0 {
      assert EmptyLines(lines, 0) == {} && FailedLines(lines, 0) == {} && DiscardedRecords(lines, 0) == {};
    } else {
      var m: nat := n - 1;
      ObserveCounts(lines, m);
      assert lines[..n][..m] == lines[..m];
      LinesNext(lines, m);
      DiscardedNext(lines, m);
      hide FailedLines, EmptyLines, DiscardedRecords;
    }
  }

  lemma LinesNext(lines: seq<Parsed>, m: nat)
    requires m < |lines|
    ensures |FailedLines(lines, m + 1)| == |FailedLines(lines, m)| + if lines[m].Failed? then 1 else 0
    ensures |EmptyLines(lines, m + 1)| == |EmptyLines(lines, m)| + if lines[m] == Parsed([]) then 1 else 0
  {
    hide FailedLines, EmptyLines;
    FailedNext(lines, m);
    EmptyNext(lines, m);
  }

  lemma FailedNext(lines: seq<Parsed>, m: nat)
    requires m < |lines|
    ensures FailedLines(lines, m + 1) == FailedLines(lines, m) + (if lines[m].Failed? then {m} else {})
    ensures m !in FailedLines(lines, m)
  {
  }

  lemma EmptyNext(lines: seq<Parsed>, m: nat)
    requires m < |lines|
    ensures EmptyLines(lines, m + 1) == EmptyLines(lines, m) + (if lines[m] == Parsed([]) then {m} else {})
    ensures m !in EmptyLines(lines, m)
  {
  }

  lemma DiscardedNext(lines: seq<Parsed>, m: nat)
    requires m < |lines|
    ensures |DiscardedRecords(lines, m + 1)|
         == |DiscardedRecords(lines, m)| + if lines[m].Failed? then 0 else Discards(lines[m].records)
    ensures lines[m] == Parsed([]) ==> Discards(lines[m].records) == 0
  {
    hide Discards;
    var p := (r: Rec) => r.discarded;
    PlacesNext(lines, m, p);
    assert DiscardedRecords(lines, m) == Places(lines, m, p) && DiscardedRecords(lines, m + 1) == Places(lines, m + 1, p);
    if lines[m].Parsed? { DiscardsArePlaces(m, lines[m].records, p); }
    NoRecordsCounts();
  }

  ghost function Places(lines: seq<Parsed>, n: nat, p: Rec -> bool): set<(nat, nat)>
    requires n <= |lines|
  {
    set i: nat, j: nat | 0 <= i < n && lines[i].Parsed? && 0 <= j < |lines[i].records| && p(lines[i].records[j]) :: (i, j)
  }

  lemma PlacesNext(lines: seq<Parsed>, m: nat, p: Rec -> bool)
    requires m < |lines|
    ensures |Places(lines, m + 1, p)| == |Places(lines, m, p)| + if lines[m].Failed? then 0 else |PlacesIn(m, lines[m].records, p)|
  {
    var few, all := Places(lines, m, p), Places(lines, m + 1, p);
    var here := if lines[m].Failed? then {} else PlacesIn(m, lines[m].records, p);
    forall x: (nat, nat) ensures x in all <==> x in few || x in here {
      PlaceMember(lines, m, p, x);
      PlaceMember(lines, m + 1, p, x);
      if lines[m].Parsed? { PlaceInMember(m, lines[m].records, p, x); }
    }
    forall x: (nat, nat) | x in few && x in here ensures false {
      PlaceMember(lines, m, p, x);
      if lines[m].Parsed? { PlaceInMember(m, lines[m].records, p, x); }
    }
    assert all == few + here && few !! here;
  }

  lemma PlaceMember(lines: seq<Parsed>, n: nat, p: Rec -> bool, x: (nat, nat))
    requires n <= |lines|
    ensures x in Places(lines, n, p) <==>
      x.0 < n && lines[x.0].Parsed? && x.1 < |lines[x.0].records| && p(lines[x.0].records[x.1])
  {
    assert x == (x.0, x.1);
  }

  lemma PlaceInMember(i: nat, records: seq<Rec>, p: Rec -> bool, x: (nat, nat))
    ensures x in PlacesIn(i, records, p) <==> x.0 == i && x.1 < |records| && p(records[x.1])
  {
    assert x == (x.0, x.1);
  }

  lemma {:induction false} ReasonCounts(lines: seq<Parsed>, n: nat, reason: string)
    requires n <= |lines|
    ensures ReasonCount(lines[..n], reason) == |DiscardedRecordsFor(lines, n, reason)|
  {
    if n == 0 {
      assert DiscardedRecordsFor(lines, 0, reason) == {};
    } else {
      var m: nat := n - 1;
      ReasonCounts(lines, m, reason);
      assert lines[..n][..m] == lines[..m];
      var p := (r: Rec) => DiscardedFor(r, reason);
      PlacesNext(lines, m, p);
      hide DiscardedFor, DiscardsFor;
      assert DiscardedRecordsFor(lines, m, reason) == Places(lines, m, p);
      assert DiscardedRecordsFor(lines, n, reason) == Places(lines, n, p);
      hide Places, PlacesIn;
      if lines[m].Parsed? { ReasonsArePlaces(m, lines[m].records, reason, p); }
    }
  }

  // ---- Which records are kept, and when they are flushed -----------------------------

  /** Keeping is filtering: order, repetitions and everything else is left as it is. */
  lemma {:induction false} KeptAppend(a: seq<Rec>, c: seq<Rec>)
    ensures Kept(a + c) == Kept(a) + Kept(c)
    ensures Kept([]) == [] && forall r :: Kept([r]) == if r.discarded then [] else [r]
  {
    forall r ensures Kept([r]) == if r.discarded then [] else [r] {
      assert [r][..0] == [];
    }
    if c == [] {
      assert a + c == a;
    } else {
      assert (a + c)[..|a + c| - 1] == a + c[..|c| - 1];
      KeptAppend(a, c[..|c| - 1]);
    }
  }

  /** Every record that reaches the table, in order. */
  function AllKept(lines: seq<Parsed>): seq<Rec> {
    if lines == [] then [] else AllKept(lines[..|lines| - 1]) + KeptOf(lines[|lines| - 1])
  }

  lemma {:induction false} AllKeptAppend(a: seq<Parsed>, c: seq<Parsed>)
    ensures AllKept(a + c) == AllKept(a) + AllKept(c)
    ensures AllKept([]) == [] && forall line :: AllKept([line]) == if line.Failed? then [] else Kept(line.records)
  {
    hide Kept;
    forall line ensures AllKept([line]) == if line.Failed? then [] else Kept(line.records) {
      assert [line][..0] == [];
    }
    if c == [] {
      assert a + c == a;
    } else {
      assert (a + c)[..|a + c| - 1] == a + c[..|c| - 1];
      AllKeptAppend(a, c[..|c| - 1]);
    }
  }

  /** The lines from `m` to `n` make a batch: `batchSize` lines, or as many kept records. */
  predicate Full(lines: seq<Parsed>, m: nat, n: nat, batchSize: nat)
    requires m <= n <= |lines|
  {
    n - m >= batchSize || |AllKept(lines[m..n])| >= batchSize
  }

  /** Everything is flushed after `n` lines. */
  predicate FlushedAt(lines: seq<Parsed>, n: nat, batchSize: nat)
    requires n <= |lines|
  {
    FeedAll(Begin(map[]), lines[..n], batchSize).pending == 0
  }

  /** Where the open batch begins. */
  function BatchStart(lines: seq<Parsed>, n: nat, batchSize: nat): int
    requires n <= |lines|
  {
    n - FeedAll(Begin(map[]), lines[..n], batchSize).pending
  }

  /** The open batch holds what was kept since the last flush, and is not full at any line since. */
  lemma {:induction false} SinceFlush(lines: seq<Parsed>, n: nat, batchSize: nat)
    requires n <= |lines| && batchSize >= 1
    ensures var m := BatchStart(lines, n, batchSize);
            && 0 <= m <= n && FlushedAt(lines, m, batchSize)
            && OpenBatch(lines[..n], batchSize) == AllKept(lines[m..n])
            && forall j :: m < j <= n ==> !FlushedAt(lines, j, batchSize) && !Full(lines, m, j, batchSize)
  {
    hide KeptOf, Settle;
    if n == 0 {
      assert lines[..0] == [] && lines[0..0] == [];
    } else {
      hide AllKept, FeedAll;
      SinceFlush(lines, n - 1, batchSize);
      NextLine(Begin(map[]), lines, n - 1, batchSize);
      var m := BatchStart(lines, n - 1, batchSize);
      AllKeptNext(lines, m, n - 1);
      if FlushedAt(lines, n, batchSize) { assert lines[n..n] == []; }
    }
  }

  lemma AllKeptNext(lines: seq<Parsed>, m: nat, n: nat)
    requires m <= n < |lines|
    ensures AllKept(lines[m..n + 1]) == AllKept(lines[m..n]) + KeptOf(lines[n])
  {
    hide KeptOf;
    assert lines[m..n + 1][..n - m] == lines[m..n];
  }

  /**
    When a flush happens: at the first line that makes the batch begun at the flush before it full, and at no
    other line.
    */
  lemma FlushedIff(lines: seq<Parsed>, n: nat, batchSize: nat)
    requires 0 < n <= |lines| && batchSize >= 1
    ensures FlushedAt(lines, n, batchSize)
       <==> exists m :: 0 <= m < n && FlushedAt(lines, m, batchSize) && Full(lines, m, n, batchSize)
                        && forall j :: m < j < n ==> !FlushedAt(lines, j, batchSize)
    ensures FlushedAt(lines, 0, batchSize)
  {
    hide FlushedAt, Full;
    FlushedFirst(lines, batchSize);
    if FlushedAt(lines, n, batchSize) { FlushedSince(lines, n, batchSize); }
    if m :| 0 <= m < n && FlushedAt(lines, m, batchSize) && Full(lines, m, n, batchSize) && forall j :: m < j < n ==> !FlushedAt(lines, j, batchSize) {
      FlushedFrom(lines, m, n, batchSize);
    }
  }

  lemma FlushedFrom(lines: seq<Parsed>, m: nat, n: nat, batchSize: nat)
    requires m < n <= |lines| && batchSize >= 1
    requires FlushedAt(lines, m, batchSize) && Full(lines, m, n, batchSize)
    requires forall j :: m < j < n ==> !FlushedAt(lines, j, batchSize)
    ensures FlushedAt(lines, n, batchSize)
  {
    hide FlushedAt, Full, OpenBatch, AllKept, BatchStart, FeedAll;
    SinceFlush(lines, n - 1, batchSize);
    FlushedNext(lines, n - 1, batchSize);
    var s := BatchStart(lines, n - 1, batchSize);
    assert s == m by { assert FlushedAt(lines, s, batchSize); }
  }

  lemma FlushedSince(lines: seq<Parsed>, n: nat, batchSize: nat)
    requires 0 < n <= |lines| && batchSize >= 1 && FlushedAt(lines, n, batchSize)
    ensures exists m :: 0 <= m < n && FlushedAt(lines, m, batchSize) && Full(lines, m, n, batchSize)
                          && forall j :: m < j < n ==> !FlushedAt(lines, j, batchSize)
  {
    hide FlushedAt, Full, OpenBatch, AllKept, BatchStart, FeedAll;
    SinceFlush(lines, n - 1, batchSize);
    FlushedNext(lines, n - 1, batchSize);
    var s: nat := BatchStart(lines, n - 1, batchSize);
    assert Full(lines, s, n, batchSize);
  }

  /** A run raises at the lines that complete a batch whose kept records cannot be folded. */
  lemma RaisesAtIff(lines: seq<Parsed>, i: nat, batchSize: nat)
    requires i < |lines| && batchSize >= 1
    ensures var m := BatchStart(lines, i, batchSize);
            && 0 <= m <= i
            && (FlushDue(lines, i, batchSize) <==> FlushedAt(lines, i + 1, batchSize))
            && (RaisesAt(lines, i, batchSize) <==> FlushedAt(lines, i + 1, batchSize) && BatchRaises(AllKept(lines[m..i + 1])))
  {
    hide KeptOf, Settle, BatchRaises;
    SinceFlush(lines, i, batchSize);
    NextLine(Begin(map[]), lines, i, batchSize);
    AllKeptNext(lines, BatchStart(lines, i, batchSize), i);
  }

  lemma FlushedFirst(lines: seq<Parsed>, batchSize: nat)
    ensures FlushedAt(lines, 0, batchSize)
  {
  }

  lemma FlushedNext(lines: seq<Parsed>, n: nat, batchSize: nat)
    requires n < |lines| && batchSize >= 1
    ensures var m := BatchStart(lines, n, batchSize);
            0 <= m <= n && (FlushedAt(lines, n + 1, batchSize) <==> Full(lines, m, n + 1, batchSize))
  {
    hide KeptOf, Settle;
    SinceFlush(lines, n, batchSize);
    NextLine(Begin(map[]), lines, n, batchSize);
    AllKeptNext(lines, BatchStart(lines, n, batchSize), n);
  }

  /** At least 10000 lines are read, everything is flushed, and more than the allowed part of them failed. */
  ghost predicate AbortPoint(lines: seq<Parsed>, n: nat, batchSize: nat, abortRate: real)
    requires n <= |lines|
  {
    n >= 10000 && FlushedAt(lines, n, batchSize) && |FailedLines(lines, n)| as real > abortRate * n as real
  }

  lemma AbortsAtPoint(lines: seq<Parsed>, i: nat, batchSize: nat, abortRate: real)
    requires i < |lines|
    ensures AbortsAfter(lines, i, batchSize, abortRate) <==> AbortPoint(lines, i + 1, batchSize, abortRate)
  {
    hide Observe, FeedAll;
    ObserveCounts(lines, i + 1);
    Rate(|FailedLines(lines, i + 1)|, i + 1, abortRate);
  }

  lemma Rate(failed: nat, seen: nat, abortRate: real)
    requires seen > 0
    ensures TooManyErrors(failed, seen, abortRate) <==> failed as real > abortRate * seen as real
  {
  }

  lemma NoAbortAtStart(lines: seq<Parsed>, batchSize: nat, abortRate: real)
    ensures !AbortPoint(lines, 0, batchSize, abortRate)
  {
  }

  lemma StopIndexStep(lines: seq<Parsed>, i: nat, batchSize: nat, abortRate: real)
    requires i < |lines|
    ensures StopIndex(lines, i, batchSize, abortRate)
         == if AbortsAfter(lines, i, batchSize, abortRate) then i + 1 else StopIndex(lines, i + 1, batchSize, abortRate)
  {
  }

  lemma StopIndexEnd(lines: seq<Parsed>, batchSize: nat, abortRate: real)
    ensures StopIndex(lines, |lines|, batchSize, abortRate) == |lines|
  {
  }

  /** An uninterrupted run reads up to the first abort point, or to the end. */
  lemma {:induction false} StopIndexIsFirstAbort(lines: seq<Parsed>, i: nat, batchSize: nat, abortRate: real)
    requires i <= |lines|
    ensures var n := StopIndex(lines, i, batchSize, abortRate);
            && (forall m :: i < m < n ==> !AbortPoint(lines, m, batchSize, abortRate))
            && (n < |lines| ==> i < n && AbortPoint(lines, n, batchSize, abortRate))
    decreases |lines| - i
  {
    hide AbortsAfter, AbortPoint;
    if i < |lines| {
      AbortsAtPoint(lines, i, batchSize, abortRate);
      if !AbortsAfter(lines, i, batchSize, abortRate) { StopIndexIsFirstAbort(lines, i + 1, batchSize, abortRate); }
    }
  }

  // ---- State --------------------------------------------------------------------

  datatype Counters = Counters(seen: nat, inserted: nat, updated: nat, skipped: nat, discarded: nat, failed: nat)

  function Plus(a: Counters, b: Counters): Counters {
    Counters(a.seen + b.seen, a.inserted + b.inserted, a.updated + b.updated,
             a.skipped + b.skipped, a.discarded + b.discarded, a.failed + b.failed)
  }

  predicate AtMost(a: Counters, b: Counters) {
    a.seen <= b.seen && a.inserted <= b.inserted && a.updated <= b.updated
    && a.skipped <= b.skipped && a.discarded <= b.discarded && a.failed <= b.failed
  }

  function Minus(a: Counters, b: Counters): Counters
    requires AtMost(b, a)
  {
    Counters(a.seen - b.seen, a.inserted - b.inserted, a.updated - b.updated,
             a.skipped - b.skipped, a.discarded - b.discarded, a.failed - b.failed)
  }

  const ZERO := Counters(0, 0, 0, 0, 0, 0)

  /** The rows this import touches: the records, and its own row of `sync_releases`. */
  class Database {
    var table: Table
    var counters: Counters
    var reasons: Tally

    constructor (table: Table, counters: Counters, reasons: Tally)
      ensures this.table == table && this.counters == counters && this.reasons == reasons
    {
      this.table, this.counters, this.reasons := table, counters, reasons;
    }

    /** What `set_release_status(..., reset_counters=True)` does to the row before every import. */
    method Reset()
      modifies this`counters, this`reasons
      ensures counters == ZERO && reasons == map[]
    {
      counters, reasons := ZERO, map[];
    }

    /** `state.update_release_counters` */
    method AddCounters(deltas: Counters)
      modifies this`counters
      ensures counters == Plus(old(counters), deltas)
    {
      counters := Plus(counters, deltas);
    }

    /** `state.update_discard_analysis`: only positive deltas are written. */
    method AddReasons(deltas: map<string, int>)
      modifies this`reasons
      ensures forall r :: Get(reasons, r) == Get(old(reasons), r) + Positive(deltas, r)
    {
      var todo := deltas.Keys;
      while todo != {}
        invariant todo <= deltas.Keys
        invariant forall r :: Get(reasons, r) == Get(old(reasons), r) + (if r in todo then 0 else Positive(deltas, r))
        decreases todo
      {
        var r :| r in todo;
        if deltas[r] > 0 {
          reasons := reasons[r := Get(reasons, r) + deltas[r]];
        }
        todo := todo - {r};
      }
    }
  }

  class ImportStats {
    var seen: nat
    var inserted: nat
    var updated: nat
    var skipped: nat
    var discarded: nat
    var failed: nat
    var batches: nat
    var discardReasons: Tally

    constructor ()
      ensures Totals() == ZERO && batches == 0 && discardReasons == map[]
    {
      seen, inserted, updated, skipped, discarded, failed, batches := 0, 0, 0, 0, 0, 0, 0;
      discardReasons := map[];
    }

    function Totals(): Counters
      reads this
    {
      Counters(seen, inserted, updated, skipped, discarded, failed)
    }
  }

  /** Each counter has grown by its own count. */
  ghost predicate Grown(before: Counters, after: Counters, stats: ImportStats)
    reads stats
  {
    && after.seen == before.seen + stats.seen && after.inserted == before.inserted + stats.inserted
    && after.updated == before.updated + stats.updated && after.skipped == before.skipped + stats.skipped
    && after.discarded == before.discarded + stats.discarded && after.failed == before.failed + stats.failed
  }

  datatype Outcome = Completed | Shutdown | AbortedRate | NoRecords | FinalRate | MergeFailed

  class ReleaseImport {
    const db: Database
    const stats: ImportStats
    const batchSize: nat
    const abortRate: real
    var batch: seq<Rec>
    var flushed: Counters
    var flushedReasons: Tally
    ghost const table0: Table
    ghost const counters0: Counters
    ghost const reasons0: Tally

    constructor (db: Database, syncBatchSize: int, abortRate: real)
      ensures this.db == db && fresh(stats) && Fresh()
      ensures this.abortRate == abortRate && batchSize == if syncBatchSize > 1 then syncBatchSize else 1
      ensures table0 == db.table && counters0 == db.counters && reasons0 == db.reasons
    {
      this.db := db;
      stats := new ImportStats();
      batchSize := if syncBatchSize > 1 then syncBatchSize else 1;
      this.abortRate := abortRate;
      batch, flushed, flushedReasons := [], ZERO, map[];
      table0, counters0, reasons0 := db.table, db.counters, db.reasons;
    }

    /** Nothing has been read yet. */
    ghost predicate Fresh()
      reads this, db, stats
    {
      && batchSize >= 1
      && batch == [] && flushed == ZERO && flushedReasons == map[]
      && stats.Totals() == ZERO && stats.discardReasons == map[]
      && db.table == table0 && db.counters == counters0 && db.reasons == reasons0
    }

    /** What holds at every moment: the books balance up to what is not flushed. */
    ghost predicate Valid()
      reads this, db, stats
    {
      && batchSize >= 1
      && AtMost(flushed, stats.Totals())
      && db.counters == Plus(counters0, flushed)
      && (forall r :: Get(db.reasons, r) == Get(reasons0, r) + Get(flushedReasons, r))
      && Flushable(flushedReasons, stats.discardReasons, flushed.discarded, stats.discarded)
      && |db.table| == |table0| + stats.inserted
    }

    /** Every counter in the database has grown by exactly what this run counted. */
    ghost predicate Conserved()
      reads this, db, stats
    {
      && db.counters == Plus(counters0, stats.Totals())
      && Grown(counters0, db.counters, stats)
      && (forall r :: Get(db.reasons, r) == Get(reasons0, r) + Get(stats.discardReasons, r))
      && Sum(db.reasons) == Sum(reasons0) + stats.discarded
      && |db.table| == |table0| + stats.inserted
      && batch == []
    }

    /** Folds the duplicates of a batch; `order` lists the keys as a dictionary would. */
    static method FoldRecords(records: seq<Rec>) returns (ok: bool, folded: map<Md5, Entry>, order: seq<Md5>)
      ensures ok <==> !BatchRaises(records)
      ensures ok ==> folded == FoldBatch(records)
      ensures ok ==> |order| == |folded| && forall k :: k in order <==> k in folded
      ensures forall i, j :: 0 <= i < j < |order| ==> order[i] != order[j]
    {
      hide Start, Absorb, TieRaises, FoldBatch, StepRaises;
      FoldBatchStart(records);
      ok, folded, order := true, map[], [];
      for i := 0 to |records|
        invariant folded == FoldBatch(records[..i])
        invariant |order| == |folded| && (forall k :: k in order <==> k in folded)
        invariant forall j, k :: 0 <= j < k < |order| ==> order[j] != order[k]
        invariant forall j :: 0 <= j < i ==> !StepRaises(records, j)
      {
        var r := records[i];
        FoldBatchNext(records, i);
        if r.md5 in folded {
          var merged := MergeRecords(folded[r.md5], r);
          if merged.Err? {
            assert StepRaises(records, i);
            ok := false;
            return;
          }
          folded := folded[r.md5 := merged.value];
        } else {
          folded := folded[r.md5 := Start(r)];
          order := order + [r.md5];
        }
      }
      assert records[..|records|] == records;
    }

    /** `executemany` of the upsert, one row after the other. */
    method UpsertRows(folded: map<Md5, Entry>, order: seq<Md5>)
      requires forall k :: k in order <==> k in folded
      requires forall i, j :: 0 <= i < j < |order| ==> order[i] != order[j]
      modifies db`table
      ensures db.table == Apply(old(db.table), RowsOf(folded))
    {
      hide ToRow, Apply, Put;
      ghost var before, written: Table := db.table, map[];
      ApplyEmpty(before);
      for i := 0 to |order|
        invariant db.table == Apply(before, written)
        invariant forall k :: k in written <==> k in order[..i]
        invariant forall k :: k in written ==> written[k] == ToRow(folded[k])
      {
        var k := order[i];
        assert order[..i + 1] == order[..i] + [k];
        assert k !in order[..i];
        ApplyPut(before, written, k, ToRow(folded[k]));
        db.table := Put(db.table, k, ToRow(folded[k]));
        written := written[k := ToRow(folded[k])];
      }
      assert order[..|order|] == order;
      assert written == RowsOf(folded);
    }

    /** `process_batch`: fold the duplicates, then upsert every row in one transaction. */
    method ProcessBatch(records: seq<Rec>) returns (ok: bool)
      modifies db`table, stats`inserted, stats`updated, stats`batches
      ensures ok <==> !BatchRaises(records)
      ensures !ok ==> db.table == old(db.table) && stats.Totals() == old(stats.Totals())
      ensures ok ==> db.table == Apply(old(db.table), Delta(records))
      ensures ok ==> stats.inserted == old(stats.inserted) + |Delta(records).Keys - old(db.table).Keys|
      ensures ok ==> stats.updated == old(stats.updated) + |Delta(records).Keys * old(db.table).Keys|
    {
      hide FoldBatch, BatchRaises, Apply, RowsOf, Delta;
      var folded: map<Md5, Entry>, order: seq<Md5>;
      ok, folded, order := FoldRecords(records);
      if !ok { return; }
      var existing := set k | k in order && k in db.table;
      BatchKeys(records, db.table, order, existing);
      UpsertRows(folded, order);
      stats.inserted := stats.inserted + (|order| - |existing|);
      stats.updated := stats.updated + |existing|;
      stats.batches := stats.batches + 1;
    }

    /** The counters part of `flush`. */
    method PersistCounters()
      requires AtMost(flushed, stats.Totals())
      modifies db`counters
      ensures old(db.counters) == Plus(counters0, flushed) ==> db.counters == Plus(counters0, stats.Totals())
    {
      var deltas := Minus(stats.Totals(), flushed);
      if deltas != ZERO {
        db.AddCounters(deltas);
      }
    }

    /** The discard-reason part of `flush`. */
    method PersistReasons()
      requires Flushable(flushedReasons, stats.discardReasons, flushed.discarded, stats.discarded)
      modifies this`flushedReasons, db`reasons
      ensures flushedReasons == stats.discardReasons
      ensures forall r :: Get(db.reasons, r) - Get(stats.discardReasons, r) == Get(old(db.reasons), r) - Get(old(flushedReasons), r)
    {
      DeltasComplete(flushedReasons, stats.discardReasons, flushed.discarded, stats.discarded);
      hide Flushable, Sum, Deltas, Get;
      var deltas := Deltas(stats.discardReasons, flushedReasons);
      if exists r | r in deltas :: deltas[r] > 0 {
        db.AddReasons(deltas);
        flushedReasons := stats.discardReasons;
      } else {
        forall r ensures Positive(deltas, r) == 0 {
          if r in deltas { assert !(deltas[r] > 0); }
        }
      }
    }

    /** The second half of `flush`: persist what was counted since the last one. */
    method Persist()
      requires Valid()
      modifies this`batch, this`flushed, this`flushedReasons, db`counters, db`reasons
      ensures Valid() && Conserved() && flushed == stats.Totals()
    {
      hide Flushable, Sum, Get;
      PersistCounters();
      PersistReasons();
      DeltasComplete(old(flushedReasons), stats.discardReasons, flushed.discarded, stats.discarded);
      flushed := stats.Totals();
      batch := [];
      forall r ensures Get(db.reasons, r) == Get(reasons0, r) + Get(flushedReasons, r) {
        assert Get(old(db.reasons), r) == Get(reasons0, r) + Get(old(flushedReasons), r);
      }
      SumAdds(reasons0, flushedReasons, db.reasons);
      FlushableSum(flushedReasons, stats.discardReasons, flushed.discarded, stats.discarded);
    }

    /** `flush` */
    method Flush() returns (ok: bool)
      requires Valid()
      modifies this`batch, this`flushed, this`flushedReasons, db, stats`inserted, stats`updated, stats`batches
      ensures ok <==> !BatchRaises(old(batch))
      ensures !ok ==> db.table == old(db.table) && Valid() && flushed == old(flushed) && stats.Totals() == old(stats.Totals())
      ensures ok ==> Valid() && Conserved() && flushed == stats.Totals()
      ensures ok ==> db.table == Apply(old(db.table), Delta(old(batch)))
    {
      hide Flushable, Sum, Delta, Apply, BatchRaises;
      EmptyBatchWritesNothing(db.table);
      ok := true;
      if batch != [] {
        ok := ProcessBatch(batch);
        if !ok { return; }
        TableGrowth(old(db.table), Delta(batch));
      }
      Persist();
    }

    /** A discarded record is counted under its reason, any other joins the batch. */
    method ReadRecord(record: Rec)
      requires Valid()
      modifies this`batch, stats`discarded, stats`discardReasons
      ensures Valid()
      ensures batch == old(batch) + (if record.discarded then [] else [record])
      ensures stats.discarded == old(stats.discarded) + (if record.discarded then 1 else 0)
      ensures forall r :: Get(stats.discardReasons, r) == Get(old(stats.discardReasons), r) + DiscardsFor([record], r)
    {
      hide Flushable, Sum;
      assert [record][..0] == [] && forall r :: DiscardsFor([], r) == 0;
      if record.discarded {
        var reason := ReasonOf(record);
        FlushableIncrement(flushedReasons, stats.discardReasons, flushed.discarded, stats.discarded, reason);
        stats.discarded := stats.discarded + 1;
        stats.discardReasons := stats.discardReasons[reason := Get(stats.discardReasons, reason) + 1];
      } else {
        batch := batch + [record];
      }
    }

    method ReadRecords(records: seq<Rec>)
      requires Valid()
      modifies this`batch, stats`discarded, stats`discardReasons
      ensures Valid()
      ensures batch == old(batch) + Kept(records)
      ensures stats.discarded == old(stats.discarded) + Discards(records)
      ensures forall r :: Get(stats.discardReasons, r) == Get(old(stats.discardReasons), r) + DiscardsFor(records, r)
    {
      hide Kept, Discards, DiscardsFor, Flushable, Get, Plus, AtMost;
      NoRecordsCounts();
      assert records[..0] == [];
      for i := 0 to |records|
        invariant Valid()
        invariant batch == old(batch) + Kept(records[..i])
        invariant stats.discarded == old(stats.discarded) + Discards(records[..i])
        invariant forall r :: Get(stats.discardReasons, r) == Get(old(stats.discardReasons), r) + DiscardsFor(records[..i], r)
      {
        RecordCounts(records, i);
        ReadRecord(records[i]);
      }
      assert records[..|records|] == records;
    }

    /** The body of the `try` block: counters and the open batch. */
    method ReadLine(line: Parsed)
      requires Valid()
      modifies this`batch, stats`seen, stats`skipped, stats`discarded, stats`failed, stats`discardReasons
      ensures Valid()
      ensures batch == old(batch) + KeptOf(line)
      ensures stats.seen == old(stats.seen) + 1
      ensures Observed(stats.skipped, stats.discarded, stats.failed)
           == ObserveLine(old(Observed(stats.skipped, stats.discarded, stats.failed)), line)
      ensures stats.failed == old(stats.failed) + (if line == Failed then 1 else 0)
      ensures stats.skipped == old(stats.skipped) + (if line == Parsed([]) then 1 else 0)
      ensures stats.discarded == old(stats.discarded) + (if line == Failed then 0 else |set j: nat | 0 <= j < |line.records| && line.records[j].discarded|)
      ensures forall r :: Get(stats.discardReasons, r) == Get(old(stats.discardReasons), r) + ReasonsIn(line, r)
    {
      hide Kept, Discards, DiscardsFor, Flushable, Get;
      stats.seen := stats.seen + 1;
      match line {
        case Failed =>
          stats.failed := stats.failed + 1;
        case Parsed(records) =>
          DiscardsCounted(records);
          if records == [] {
            NoRecordsCounts();
            stats.skipped := stats.skipped + 1;
          } else {
            ReadRecords(records);
          }
      }
    }

    /** The counters are those of the first `n` lines. */
    ghost predicate Counted(lines: seq<Parsed>, n: nat)
      requires n <= |lines|
      reads stats
    {
      && stats.seen == n
      && Observed(stats.skipped, stats.discarded, stats.failed) == Observe(lines[..n])
      && forall r :: Get(stats.discardReasons, r) == ReasonCount(lines[..n], r)
    }

    /**
      Table and open batch are those of the first `n` lines, less than a batch is unflushed,
      and the inserts and updates are all persisted.
      */
    ghost predicate Tracks(lines: seq<Parsed>, n: nat)
      requires n <= |lines|
      reads this, db, stats
    {
      && Valid()
      && Progress(db.table, batch, stats.seen - flushed.seen) == FeedAll(Begin(table0), lines[..n], batchSize)
      && |batch| < batchSize && stats.seen - flushed.seen < batchSize
      && flushed.inserted == stats.inserted && flushed.updated == stats.updated
    }

    /** The first `n` lines are imported, everything is flushed and the books balance. */
    ghost predicate Settled(lines: seq<Parsed>, n: nat)
      requires n <= |lines|
      reads this, db, stats
    {
      Valid() && Conserved() && db.table == Imported(table0, lines[..n], batchSize)
    }

    /** The table is that of the last flush within the first `m` lines, and its inserts are persisted. */
    ghost predicate AtFlush(lines: seq<Parsed>, m: nat)
      requires m <= |lines|
      reads this, db, stats
    {
      && Valid()
      && db.table == FeedAll(Begin(table0), lines[..m], batchSize).table
      && flushed.inserted == stats.inserted
    }

    /** The end of a loop iteration: flush when due, then check the error rate. */
    method FlushIfDue(lines: seq<Parsed>, i: nat) returns (done: Option<Outcome>)
      requires i < |lines| && Valid() && flushed.seen <= i && stats.seen == i + 1
      requires FeedAll(Begin(table0), lines[..i + 1], batchSize)
            == var q := Progress(db.table, batch, stats.seen - flushed.seen);
               if |q.batch| >= batchSize || q.pending >= batchSize then Progress(Settle(q), [], 0) else q
      requires stats.failed == Observe(lines[..i + 1]).failed
      requires flushed.inserted == stats.inserted && flushed.updated == stats.updated
      modifies this, db, stats`inserted, stats`updated, stats`batches
      ensures done.None? || done == Some(AbortedRate) || done == Some(MergeFailed)
      ensures done == Some(MergeFailed) <==>
        (|old(batch)| >= batchSize || stats.seen - old(flushed.seen) >= batchSize) && BatchRaises(old(batch))
      ensures done == Some(MergeFailed) ==> db.table == old(db.table) && Valid() && flushed.inserted == stats.inserted
      ensures done != Some(MergeFailed) ==> Tracks(lines, i + 1)
      ensures done != Some(MergeFailed) ==> (done == Some(AbortedRate) <==> AbortsAfter(lines, i, batchSize, abortRate))
      ensures done == Some(AbortedRate) ==> Conserved()
    {
      hide Flushable, Sum, Delta, Apply, BatchRaises, FeedAll, Observe, TooManyErrors;
      FeedIgnoresTable(table0, map[], lines[..i + 1], batchSize);
      done := None;
      if |batch| >= batchSize || stats.seen - flushed.seen >= batchSize {
        var ok := Flush();
        if !ok { return Some(MergeFailed); }
        if stats.seen >= 10000 && TooManyErrors(stats.failed, stats.seen, abortRate) {
          EmptyBatchWritesNothing(db.table);
          var again := Flush();
          return Some(AbortedRate);
        }
      }
    }

    /** One iteration of the import loop after the shutdown check. */
    method Step(lines: seq<Parsed>, i: nat) returns (done: Option<Outcome>)
      requires i < |lines| && Tracks(lines, i) && Counted(lines, i)
      modifies this, db, stats
      ensures Counted(lines, i + 1)
      ensures done.None? || done == Some(AbortedRate) || done == Some(MergeFailed)
      ensures done == Some(MergeFailed) <==> RaisesAt(lines, i, batchSize)
      ensures done == Some(MergeFailed) ==> AtFlush(lines, i)
      ensures done != Some(MergeFailed) ==> Tracks(lines, i + 1)
      ensures done != Some(MergeFailed) ==> (done == Some(AbortedRate) <==> AbortsAfter(lines, i, batchSize, abortRate))
      ensures done == Some(AbortedRate) ==> Conserved()
    {
      hide Flushable, Sum, Settle, FeedAll, Observe, ReasonCount, KeptOf, ObserveLine, ReasonsIn, Get, AbortsAfter, Conserved, Plus, BatchRaises;
      NextLine(Begin(table0), lines, i, batchSize);
      FeedIgnoresTable(table0, map[], lines[..i], batchSize);
      ReadLine(lines[i]);
      done := FlushIfDue(lines, i);
    }

    /** The shutdown flag is set before line `stopAt` is processed, and noticed there. */
    ghost predicate Interrupted(lines: seq<Parsed>, stopAt: Option<nat>) {
      stopAt.Some? && stopAt.value < |lines| && stopAt.value <= StopIndex(lines, 0, batchSize, abortRate)
    }

    /** How many lines the run reads. */
    ghost function LinesRead(lines: seq<Parsed>, stopAt: Option<nat>): (n: nat)
      ensures n <= |lines|
    {
      if Interrupted(lines, stopAt) then stopAt.value else StopIndex(lines, 0, batchSize, abortRate)
    }

    /** A flush between two lines: at a shutdown, or after the last line. */
    method FlushAt(lines: seq<Parsed>, n: nat) returns (ok: bool)
      requires n <= |lines| && Tracks(lines, n)
      modifies this, db, stats`inserted, stats`updated, stats`batches
      ensures ok <==> !BatchRaises(OpenBatch(lines[..n], batchSize))
      ensures if ok then Settled(lines, n) else AtFlush(lines, n)
      ensures stats.seen == old(stats.seen)
      ensures old(Counted(lines, n)) ==> Counted(lines, n)
    {
      hide Flushable, Sum, FeedAll, Delta, Apply, Plus, BatchRaises;
      FeedIgnoresTable(table0, map[], lines[..n], batchSize);
      assert db.table == FeedAll(Begin(table0), lines[..n], batchSize).table;
      ok := Flush();
    }

    /** Everything after the loop. */
    method Finish(lines: seq<Parsed>) returns (outcome: Outcome)
      requires Tracks(lines, |lines|) && Counted(lines, |lines|)
      modifies this, db, stats`inserted, stats`updated, stats`batches
      ensures Counted(lines, |lines|)
      ensures outcome != Shutdown && outcome != AbortedRate
      ensures outcome == MergeFailed <==> BatchRaises(OpenBatch(lines, batchSize))
      ensures if outcome == MergeFailed then AtFlush(lines, |lines|) else Settled(lines, |lines|)
      ensures outcome == NoRecords ==> lines == []
      ensures stats.seen == |lines|
      ensures outcome == FinalRate ==> lines != [] && TooManyErrors(stats.failed, stats.seen, abortRate)
      ensures outcome == Completed ==> lines != [] && !TooManyErrors(stats.failed, stats.seen, abortRate)
    {
      hide Tracks, Settled, AtFlush, Observe, ReasonCount, Get, TooManyErrors, OpenBatch, BatchRaises;
      assert lines[..|lines|] == lines;
      var ok := FlushAt(lines, |lines|);
      if !ok { return MergeFailed; }
      if stats.seen == 0 { return NoRecords; }
      return if TooManyErrors(stats.failed, stats.seen, abortRate) then FinalRate else Completed;
    }

    /** Everything from the first line on. */
    method ReadAndFinish(lines: seq<Parsed>, stopAt: Option<nat>) returns (outcome: Outcome)
      requires Fresh()
      modifies this, db, stats
      ensures outcome != MergeFailed ==>
        Settled(lines, LinesRead(lines, stopAt)) && Counted(lines, LinesRead(lines, stopAt))
      ensures outcome == MergeFailed <==> RunRaises(lines, LinesRead(lines, stopAt), batchSize)
      ensures outcome == MergeFailed ==>
        var n := LinesRead(lines, stopAt);
        var m := RaiseIndex(lines, 0, n, batchSize);
        AtFlush(lines, m) && Counted(lines, if m < n then m + 1 else n)
      ensures outcome == AbortedRate ==> AbortPoint(lines, LinesRead(lines, stopAt), batchSize, abortRate)
      ensures outcome != AbortedRate && outcome != MergeFailed ==> !AbortPoint(lines, LinesRead(lines, stopAt), batchSize, abortRate)
      ensures outcome == Shutdown ==> Interrupted(lines, stopAt)
      ensures Interrupted(lines, stopAt) ==> outcome == Shutdown || outcome == MergeFailed || outcome == AbortedRate
      ensures outcome == NoRecords ==> lines == []
      ensures outcome == FinalRate ==> lines != [] && stats.seen == |lines| && TooManyErrors(stats.failed, stats.seen, abortRate)
      ensures outcome == Completed ==> lines != [] && stats.seen == |lines| && !TooManyErrors(stats.failed, stats.seen, abortRate)
    {
      NoAbortAtStart(lines, batchSize, abortRate);
      hide Tracks, Settled, AtFlush, Counted, StopIndex, Get, TooManyErrors, AbortsAfter, AbortPoint, OpenBatch, BatchRaises, RaisesAt, RaiseIndex;
      FreshTracks(lines);
      for i := 0 to |lines|
        invariant Tracks(lines, i) && Counted(lines, i)
        invariant stopAt.Some? ==> stopAt.value >= i
        invariant forall j :: 0 <= j < i ==> !RaisesAt(lines, j, batchSize)
        invariant StopIndex(lines, i, batchSize, abortRate) == StopIndex(lines, 0, batchSize, abortRate)
        invariant !AbortPoint(lines, i, batchSize, abortRate)
      {
        if stopAt.Some? && i >= stopAt.value {
          var ok := FlushAt(lines, i);
          RaiseIndexIs(lines, i, i, batchSize);
          return if ok then Shutdown else MergeFailed;
        }
        var done := Step(lines, i);
        AbortsAtPoint(lines, i, batchSize, abortRate);
        StopIndexStep(lines, i, batchSize, abortRate);
        if done.Some? {
          RaiseIndexIs(lines, if done.value == MergeFailed then i else i + 1, LinesRead(lines, stopAt), batchSize);
          if done.value == AbortedRate {
            AbortIsSettled(lines, i);
            AbortIsFlushed(lines, i, batchSize, abortRate);
          }
          return done.value;
        }
      }
      assert lines[..|lines|] == lines;
      RaiseIndexIs(lines, |lines|, |lines|, batchSize);
      StopIndexEnd(lines, batchSize, abortRate);
      outcome := Finish(lines);
    }

    /**
      `import_release`. A run fails in a merge exactly when a batch up to where it would end cannot be
      folded; it then stops at the first such batch. Any other outcome leaves a flushed, balanced import.
      Every line and record that was read is counted once, under its own heading.
      */
    method Run(lines: seq<Parsed>, stopAt: Option<nat>) returns (outcome: Outcome)
      requires Fresh()
      modifies this, db, stats
      ensures outcome != MergeFailed ==>
        Settled(lines, LinesRead(lines, stopAt)) && stats.seen == LinesRead(lines, stopAt)
      ensures outcome == MergeFailed <==> RunRaises(lines, LinesRead(lines, stopAt), batchSize)
      ensures outcome == MergeFailed ==>
        var n := LinesRead(lines, stopAt);
        var m := RaiseIndex(lines, 0, n, batchSize);
        AtFlush(lines, m) && stats.seen == if m < n then m + 1 else n
      ensures stats.seen <= |lines|
      ensures stats.failed == |set i: nat | 0 <= i < stats.seen && lines[i].Failed?|
      ensures stats.skipped == |set i: nat | 0 <= i < stats.seen && lines[i] == Parsed([])|
      ensures stats.discarded == |DiscardedRecords(lines, stats.seen)|
      ensures forall r :: Get(stats.discardReasons, r) == |DiscardedRecordsFor(lines, stats.seen, r)|
      ensures outcome == AbortedRate <==> outcome != MergeFailed && AbortPoint(lines, stats.seen, batchSize, abortRate)
      ensures outcome == Shutdown <==> outcome != MergeFailed && outcome != AbortedRate && Interrupted(lines, stopAt)
      ensures outcome == NoRecords ==> lines == []
      ensures outcome == FinalRate ==> 0 < stats.seen == |lines| && stats.failed as real > abortRate * stats.seen as real
      ensures outcome == Completed ==> 0 < stats.seen == |lines| && stats.failed as real <= abortRate * stats.seen as real
    {
      hide Settled, AtFlush, Counted, Get, TooManyErrors, AbortPoint, RunRaises, RaiseIndex, DiscardedRecords, DiscardedRecordsFor, StopIndex;
      outcome := ReadAndFinish(lines, stopAt);
      ghost var n := LinesRead(lines, stopAt);
      ghost var m := RaiseIndex(lines, 0, n, batchSize);
      CountsOf(lines, if outcome == MergeFailed && m < n then m + 1 else n);
      if stats.seen > 0 { Rate(stats.failed, stats.seen, abortRate); }
    }

    /** The counters in terms of the lines themselves. */
    lemma CountsOf(lines: seq<Parsed>, n: nat)
      requires n <= |lines| && Counted(lines, n)
      ensures stats.seen == n
      ensures stats.failed == |set i: nat | 0 <= i < n && lines[i].Failed?|
      ensures stats.skipped == |set i: nat | 0 <= i < n && lines[i] == Parsed([])|
      ensures stats.discarded == |DiscardedRecords(lines, n)|
      ensures forall r :: Get(stats.discardReasons, r) == |DiscardedRecordsFor(lines, n, r)|
    {
      hide DiscardedRecords, DiscardedRecordsFor, Observe, ReasonCount, Get;
      ObserveCounts(lines, n);
      forall r ensures Get(stats.discardReasons, r) == |DiscardedRecordsFor(lines, n, r)| {
        ReasonCounts(lines, n, r);
      }
    }

    /** A run whose process dies after `n` lines, unless it ends by itself before. */
    method RunUntilCrash(lines: seq<Parsed>, n: nat) returns (outcome: Option<Outcome>, ghost read: nat)
      requires Fresh() && n <= |lines|
      modifies this, db, stats
      ensures outcome.None? || outcome == Some(AbortedRate) || outcome == Some(MergeFailed)
      ensures read <= n && read <= StopIndex(lines, 0, batchSize, abortRate)
      ensures AtFlush(lines, read) && forall j :: 0 <= j < read ==> !RaisesAt(lines, j, batchSize)
      ensures outcome != Some(MergeFailed) ==> Tracks(lines, read) && Counted(lines, read)
      ensures outcome == Some(MergeFailed) ==> read < StopIndex(lines, 0, batchSize, abortRate) && RaisesAt(lines, read, batchSize)
      ensures outcome.None? ==> read == n
    {
      hide Tracks, Counted, AtFlush, AbortsAfter, RaisesAt, Conserved;
      FreshTracks(lines);
      read := 0;
      for i := 0 to n
        invariant read == i && Tracks(lines, i) && Counted(lines, i)
        invariant forall j :: 0 <= j < i ==> !RaisesAt(lines, j, batchSize)
        invariant StopIndex(lines, i, batchSize, abortRate) == StopIndex(lines, 0, batchSize, abortRate)
      {
        var done := Step(lines, i);
        if done == Some(MergeFailed) {
          return done, i;
        }
        read := i + 1;
        if done.Some? {
          TracksAtFlush(lines, read);
          return done, read;
        }
      }
      TracksAtFlush(lines, n);
      outcome := None;
    }

    lemma TracksAtFlush(lines: seq<Parsed>, n: nat)
      requires n <= |lines| && Tracks(lines, n)
      ensures AtFlush(lines, n)
    {
    }

    lemma AbortIsSettled(lines: seq<Parsed>, i: nat)
      requires i < |lines| && Tracks(lines, i + 1) && Conserved()
      requires AbortsAfter(lines, i, batchSize, abortRate)
      ensures Settled(lines, i + 1)
      ensures i + 1 >= 10000
      ensures Counted(lines, i + 1) ==> TooManyErrors(stats.failed, stats.seen, abortRate)
    {
      FeedIgnoresTable(table0, map[], lines[..i + 1], batchSize);
      EmptyBatchWritesNothing(db.table);
    }

    lemma FreshTracks(lines: seq<Parsed>)
      requires Fresh()
      ensures Tracks(lines, 0) && Counted(lines, 0)
    {
      NoLines(Begin(table0), lines, batchSize);
      assert Sum(map[]) == 0;
    }
  }

  /** The error rate is only checked after a flush. */
  lemma AbortIsFlushed(lines: seq<Parsed>, i: nat, batchSize: nat, abortRate: real)
    requires i < |lines| && AbortsAfter(lines, i, batchSize, abortRate)
    ensures !BatchRaises(OpenBatch(lines[..i + 1], batchSize))
  {
    hide Settle, KeptOf, TooManyErrors, Observe, BatchRaises;
    NextLine(Begin(map[]), lines, i, batchSize);
    EmptyBatchWritesNothing(map[]);
  }

  lemma BatchKeys(records: seq<Rec>, t: Table, order: seq<Md5>, existing: set<Md5>)
    requires |order| == |FoldBatch(records)| && forall k :: k in order <==> k in FoldBatch(records)
    requires existing == set k | k in order && k in t
    ensures Delta(records) == RowsOf(FoldBatch(records))
    ensures |existing| == |Delta(records).Keys * t.Keys|
    ensures |order| - |existing| == |Delta(records).Keys - t.Keys|
  {
    hide FoldBatch, ToRow;
    var keys := Delta(records).Keys;
    assert keys == FoldBatch(records).Keys;
    assert existing == keys * t.Keys;
    assert |keys| == |order|;
  }

  lemma FoldBatchStart(records: seq<Rec>)
    ensures FoldBatch(records[..0]) == map[]
  {
  }

  lemma FoldBatchNext(records: seq<Rec>, i: nat)
    requires i < |records|
    ensures var m, r := FoldBatch(records[..i]), records[i];
            && FoldBatch(records[..i + 1]) == m[r.md5 := if r.md5 in m then Absorb(m[r.md5], r) else Start(r)]
            && (StepRaises(records, i) <==> r.md5 in m && TieRaises(m[r.md5], r))
  {
    hide Start, Absorb, TieRaises;
    assert records[..i + 1][..i] == records[..i];
  }

  lemma TableGrowth(t: Table, d: Table)
    ensures |Apply(t, d)| == |t| + |d.Keys - t.Keys|
  {
    assert Apply(t, d).Keys == t.Keys + (d.Keys - t.Keys);
  }

  lemma EmptyBatchWritesNothing(t: Table)
    ensures !BatchRaises([]) && Apply(t, Delta([])) == t
  {
    assert FoldBatch([]) == map[] && Delta([]) == map[];
    ApplyEmpty(t);
  }
}
