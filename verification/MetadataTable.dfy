/** The `metadata_records` table and its upsert, and what one batch writes into it. */
module MetadataTable {
  import opened Options
  import opened OrderedUnion
  import opened Bytes
  import opened Records
  import opened RecordFolds

  /** Columns that `ON CONFLICT` overwrites. */
  datatype Overwritten = Overwritten(
    title: string,
    publisher: Option<string>,
    publicationYear: Option<int>,
    extension: Option<string>,
    filesize: Option<int>,
    lists: Lists,
    workKey: Option<string>,
    origin: Origin,
    deleted: bool,
    removedReason: Option<string>)

  /** Columns that `ON CONFLICT` keeps when the new value is NULL. */
  datatype Coalesced = Coalesced(
    seriesName: Option<string>,
    seriesPosition: Option<int>,
    edition: Option<string>,
    sourceTimestamp: Option<int>,
    ipfsCid: Option<string>)

  datatype Row = Row(plain: Overwritten, kept: Coalesced, qualityScore: nat)

  type Table = map<Md5, Row>

  // ---- record_to_params -----------------------------------------------------

  function StripChar(c: char): string {
    if c == '\0' then [] else [c]
  }

  function StripNul(s: string): string {
    if s == [] then [] else StripChar(s[0]) + StripNul(s[1..])
  }

  function StripOption(s: Option<string>): Option<string> {
    if s.Some? then Some(StripNul(s.value)) else None
  }

  function StripAll(s: seq<string>): seq<string> {
    seq(|s|, i requires 0 <= i < |s| => StripNul(s[i]))
  }

  function IfNonEmpty(x: string): seq<string> {
    if x == "" then [] else [x]
  }

  function NonEmpty(s: seq<string>): seq<string> {
    if s == [] then [] else IfNonEmpty(s[0]) + NonEmpty(s[1..])
  }

  /** ISBN-13, then ISBN-10, then DOI, then OpenLibrary id. */
  function WorkKey(l: Lists): Option<string> {
    if l.isbn13 != [] then Some("isbn:" + l.isbn13[0])
    else if l.isbn10 != [] then Some("isbn:" + l.isbn10[0])
    else if l.doi != [] then Some("doi:" + l.doi[0])
    else if l.openlibraryIds != [] then Some("ol:" + l.openlibraryIds[0])
    else None
  }

  function ToOverwritten(r: Rec): Overwritten {
    Overwritten(
      StripNul(r.scalars.title),
      StripOption(r.scalars.publisher),
      r.scalars.publicationYear,
      r.scalars.extension,
      r.scalars.filesize,
      r.lists.(authors := StripAll(NonEmpty(r.lists.authors)), languages := StripAll(r.lists.languages)),
      WorkKey(r.lists),
      r.origin,
      r.deleted,
      r.removedReason)
  }

  /** The parameters of the upsert; the carried score replaces the record's own. */
  function ToRow(e: Entry): Row {
    Row(
      ToOverwritten(e.rec),
      Coalesced(StripOption(e.rec.scalars.seriesName), e.rec.scalars.seriesPosition,
                StripOption(e.rec.scalars.edition), e.rec.sourceTimestamp, e.rec.ipfsCid),
      e.score)
  }

  // ---- What record_to_params keeps ------------------------------------------------

  /** Stripping removes the NUL characters and nothing else: the rest stays, in order. */
  lemma StripNulMeaning(a: string, b: string)
    ensures '\0' !in StripNul(a)
    ensures '\0' !in a ==> StripNul(a) == a
    ensures StripNul(a + b) == StripNul(a) + StripNul(b)
    ensures StripNul("\0") == ""
  {
    StripNulRemoves(a);
    StripNulAppend(a, b);
    StripNulRemoves("\0");
    assert "\0"[1..] == "" && StripNul("") == "" && StripChar('\0') == "";
  }

  lemma {:induction false} StripNulRemoves(a: string)
    ensures '\0' !in StripNul(a)
    ensures '\0' !in a ==> StripNul(a) == a
  {
    if a != "" {
      StripNulRemoves(a[1..]);
      assert a == [a[0]] + a[1..];
    }
  }

  lemma {:induction false} StripNulAppend(a: string, b: string)
    ensures StripNul(a + b) == StripNul(a) + StripNul(b)
  {
    hide StripChar;
    if a == "" {
      assert a + b == b;
      assert StripNul(a) == "";
    } else {
      var first, rest := StripChar(a[0]), StripNul(a[1..]);
      StripNulAppend(a[1..], b);
      assert (a + b)[1..] == a[1..] + b;
      assert StripNul(a + b) == first + (rest + StripNul(b));
    }
  }

  /** Dropping empty entries keeps the others, in order. */
  lemma NonEmptyMeaning(a: seq<string>, b: seq<string>)
    ensures NonEmpty(a + b) == NonEmpty(a) + NonEmpty(b)
    ensures "" !in a ==> NonEmpty(a) == a
    ensures "" !in NonEmpty(a) && NonEmpty([""]) == []
  {
    NonEmptyRemoves(a);
    NonEmptyAppend(a, b);
    assert [""][1..] == [] && NonEmpty([]) == [] && IfNonEmpty("") == [];
  }

  lemma {:induction false} NonEmptyRemoves(a: seq<string>)
    ensures "" !in NonEmpty(a)
    ensures "" !in a ==> NonEmpty(a) == a
  {
    if a != [] {
      NonEmptyRemoves(a[1..]);
      assert a == [a[0]] + a[1..];
    }
  }

  lemma {:induction false} NonEmptyAppend(a: seq<string>, b: seq<string>)
    ensures NonEmpty(a + b) == NonEmpty(a) + NonEmpty(b)
  {
    hide IfNonEmpty;
    if a == [] {
      assert a + b == b;
      assert NonEmpty(a) == [];
    } else {
      var first, rest := IfNonEmpty(a[0]), NonEmpty(a[1..]);
      NonEmptyAppend(a[1..], b);
      NonEmptyStep(a);
      NonEmptyStep(a + b);
      hide NonEmpty;
      assert (a + b)[1..] == a[1..] + b;
      assert NonEmpty(a + b) == first + (rest + NonEmpty(b));
    }
  }

  lemma NonEmptyStep(s: seq<string>)
    requires s != []
    ensures NonEmpty(s) == IfNonEmpty(s[0]) + NonEmpty(s[1..])
  {
  }

  predicate NulFreeText(s: Option<string>) {
    s.Some? ==> '\0' !in s.value
  }

  predicate NulFreeTexts(s: seq<string>) {
    forall i :: 0 <= i < |s| ==> '\0' !in s[i]
  }

  /** No text of the record holds a NUL character. */
  predicate NulFree(r: Rec) {
    && '\0' !in r.scalars.title && NulFreeText(r.scalars.publisher) && NulFreeText(r.scalars.seriesName)
    && NulFreeText(r.scalars.edition) && NulFreeTexts(r.lists.authors) && NulFreeTexts(r.lists.languages)
  }

  lemma StripNothing(s: Option<string>)
    requires NulFreeText(s)
    ensures StripOption(s) == s
  {
    if s.Some? { StripNulMeaning(s.value, ""); }
  }

  lemma StripAllNothing(s: seq<string>)
    requires NulFreeTexts(s)
    ensures StripAll(s) == s
  {
    forall i | 0 <= i < |s| ensures StripNul(s[i]) == s[i] { StripNulMeaning(s[i], ""); }
  }

  lemma {:induction false} NonEmptyNulFree(s: seq<string>)
    requires NulFreeTexts(s)
    ensures NulFreeTexts(NonEmpty(s))
  {
    if s != [] {
      assert forall i :: 0 <= i < |s[1..]| ==> s[1..][i] == s[i + 1];
      NonEmptyNulFree(s[1..]);
    }
  }

  /** The row of a record without NUL characters holds the record: every column its own field, as it is. */
  lemma RowHoldsRecord(e: Entry)
    requires NulFree(e.rec)
    ensures var plain, s := ToRow(e).plain, e.rec.scalars;
            && plain.title == s.title && plain.publisher == s.publisher && plain.publicationYear == s.publicationYear
            && plain.extension == s.extension && plain.filesize == s.filesize
    ensures var kept, s := ToRow(e).kept, e.rec.scalars;
            && kept.seriesName == s.seriesName && kept.seriesPosition == s.seriesPosition && kept.edition == s.edition
            && kept.sourceTimestamp == e.rec.sourceTimestamp && kept.ipfsCid == e.rec.ipfsCid
    ensures var stored, l := ToRow(e).plain.lists, e.rec.lists;
            && stored.authors == NonEmpty(l.authors) && stored.languages == l.languages && stored.isbn13 == l.isbn13
            && stored.isbn10 == l.isbn10 && stored.doi == l.doi && stored.oclc == l.oclc
            && stored.openlibraryIds == l.openlibraryIds
    ensures var origin := ToRow(e).plain.origin;
            && origin.collection == e.rec.origin.collection && origin.recordId == e.rec.origin.recordId
            && origin.aacid == e.rec.origin.aacid
    ensures ToRow(e).plain.deleted == e.rec.deleted && ToRow(e).plain.removedReason == e.rec.removedReason
    ensures ToRow(e).qualityScore == e.score
  {
    hide StripNul, NonEmpty, StripAll, StripOption, WorkKey;
    StripNulMeaning(e.rec.scalars.title, "");
    StripNothing(e.rec.scalars.publisher);
    StripNothing(e.rec.scalars.seriesName);
    StripNothing(e.rec.scalars.edition);
    NonEmptyNulFree(e.rec.lists.authors);
    StripAllNothing(NonEmpty(e.rec.lists.authors));
    StripAllNothing(e.rec.lists.languages);
  }

  // ---- The upsert -----------------------------------------------------------

  function Coalesce<T>(a: Option<T>, b: Option<T>): Option<T> {
    if a.Some? then a else b
  }

  function Upsert(stored: Row, excluded: Row): Row {
    Row(
      excluded.plain,
      Coalesced(
        Coalesce(excluded.kept.seriesName, stored.kept.seriesName),
        Coalesce(excluded.kept.seriesPosition, stored.kept.seriesPosition),
        Coalesce(excluded.kept.edition, stored.kept.edition),
        Coalesce(excluded.kept.sourceTimestamp, stored.kept.sourceTimestamp),
        Coalesce(excluded.kept.ipfsCid, stored.kept.ipfsCid)),
      Max(stored.qualityScore, excluded.qualityScore))
  }

  /** One `INSERT ... ON CONFLICT (md5) DO UPDATE`. */
  function Put(t: Table, k: Md5, row: Row): Table {
    t[k := if k in t then Upsert(t[k], row) else row]
  }

  /** Writing every row of `d` into `t`. */
  function Apply(t: Table, d: Table): Table {
    map k | k in t.Keys + d.Keys ::
      if k !in d then t[k] else if k !in t then d[k] else Upsert(t[k], d[k])
  }

  /** What a scalar column holds. */
  function ColumnOf(row: Row, f: ScalarField): Scalar {
    match f
    case Title => Text(row.plain.title)
    case Publisher => OfText(row.plain.publisher)
    case PublicationYear => OfNum(row.plain.publicationYear)
    case Extension => OfText(row.plain.extension)
    case Filesize => OfNum(row.plain.filesize)
    case SeriesName => OfText(row.kept.seriesName)
    case SeriesPosition => OfNum(row.kept.seriesPosition)
    case Edition => OfText(row.kept.edition)
  }

  predicate IsCoalesced(f: ScalarField) {
    f.SeriesName? || f.SeriesPosition? || f.Edition?
  }

  /**
    The documented rule that nothing is emptied by an empty value does not hold for a stored row: a filled
    column loses its value exactly when the new row's is empty, and not merely absent in a coalesced column.
    */
  lemma UpsertLosesColumnIff(stored: Row, excluded: Row, f: ScalarField)
    requires Filled(ColumnOf(stored, f))
    ensures !Filled(ColumnOf(Upsert(stored, excluded), f))
       <==> !Filled(ColumnOf(excluded, f)) && !(IsCoalesced(f) && ColumnOf(excluded, f) == Null)
  {
  }

  // ---- Writes form a monoid, with a preorder of absorption -------------------

  lemma UpsertAssociative(a: Row, b: Row, c: Row)
    ensures Upsert(Upsert(a, b), c) == Upsert(a, Upsert(b, c))
  {
  }

  lemma ApplyAssociative(t: Table, c: Table, d: Table)
    ensures Apply(Apply(t, c), d) == Apply(t, Apply(c, d))
  {
    var l, r := Apply(Apply(t, c), d), Apply(t, Apply(c, d));
    assert l.Keys == r.Keys;
    forall k | k in l ensures l[k] == r[k] {
      if k in t && k in c && k in d { UpsertAssociative(t[k], c[k], d[k]); }
    }
  }

  lemma ApplyEmpty(t: Table)
    ensures Apply(t, map[]) == t && Apply(map[], t) == t
  {
  }

  /** Writing one more row. */
  lemma ApplyPut(t: Table, d: Table, k: Md5, row: Row)
    requires k !in d
    ensures Put(Apply(t, d), k, row) == Apply(t, d[k := row])
  {
  }

  /** `b` has a value wherever `a` has one in a coalesced column; `cids` says whether the cid counts. */
  ghost predicate RowBelow(a: Row, b: Row, cids: bool) {
    && (a.kept.seriesName.Some? ==> b.kept.seriesName.Some?)
    && (a.kept.seriesPosition.Some? ==> b.kept.seriesPosition.Some?)
    && (a.kept.edition.Some? ==> b.kept.edition.Some?)
    && (a.kept.sourceTimestamp.Some? ==> b.kept.sourceTimestamp.Some?)
    && (cids && a.kept.ipfsCid.Some? ==> b.kept.ipfsCid.Some?)
    && a.qualityScore <= b.qualityScore
  }

  /** Everything `c` would leave behind is overwritten by `d`. */
  ghost predicate Below(c: Table, d: Table, cids: bool) {
    forall k :: k in c ==> k in d && RowBelow(c[k], d[k], cids)
  }

  lemma RowAbsorbedIff(a: Row, b: Row)
    ensures Upsert(a, b) == b <==> RowBelow(a, b, true)
  {
  }

  /** An earlier write leaves no trace under a later one exactly when it lies below it. */
  lemma AbsorbedIff(c: Table, d: Table)
    ensures Apply(c, d) == d <==> Below(c, d, true)
  {
    var a := Apply(c, d);
    if Below(c, d, true) {
      assert a.Keys == d.Keys;
      forall k | k in d ensures a[k] == d[k] {
        if k in c { RowAbsorbedIff(c[k], d[k]); }
      }
    }
    if a == d {
      forall k | k in c ensures k in d && RowBelow(c[k], d[k], true) {
        assert k in a;
        RowAbsorbedIff(c[k], d[k]);
      }
    }
  }

  lemma BelowTransitive(a: Table, b: Table, c: Table, cids: bool)
    requires Below(a, b, cids) && Below(b, c, cids)
    ensures Below(a, c, cids)
  {
  }

  lemma BelowApply(t: Table, c: Table, d: Table, cids: bool)
    requires Below(c, d, cids)
    ensures Below(Apply(t, c), Apply(t, d), cids) && Below(t, Apply(t, d), cids)
  {
  }

  // ---- One batch --------------------------------------------------------------

  /** The `folded` dictionary after the records of a batch. */
  function FoldBatch(records: seq<Rec>): map<Md5, Entry> {
    if records == [] then map[]
    else
      var m, r := FoldBatch(records[..|records| - 1]), records[|records| - 1];
      m[r.md5 := if r.md5 in m then Absorb(m[r.md5], r) else Start(r)]
  }

  /** The records of one key, in arrival order. */
  function Arrivals(records: seq<Rec>, k: Md5): seq<Rec> {
    if records == [] then []
    else
      var front, r := Arrivals(records[..|records| - 1], k), records[|records| - 1];
      if r.md5 == k then front + [r] else front
  }

  /** The dictionary holds, for every key that arrived, the fold of that key's records. */
  lemma {:induction false} FoldBatchPerKey(records: seq<Rec>, k: Md5)
    ensures k in FoldBatch(records) <==> Arrivals(records, k) != []
    ensures k in FoldBatch(records) ==> FoldBatch(records)[k] == Fold(Arrivals(records, k))
  {
    hide Absorb, Start, Fold;
    if records != [] {
      var front, r := records[..|records| - 1], records[|records| - 1];
      FoldBatchPerKey(front, k);
      if r.md5 == k { FoldSnoc(Arrivals(front, k), r); }
    }
  }

  /** Rows keep the key they are stored under. */
  lemma {:induction false} FoldBatchKeys(records: seq<Rec>, k: Md5)
    requires k in FoldBatch(records)
    ensures FoldBatch(records)[k].rec.md5 == k
  {
    hide Quality, MergeScalars, MergeLists, Tombstone;
    if records != [] {
      var front, r := records[..|records| - 1], records[|records| - 1];
      if r.md5 in FoldBatch(front) { FoldBatchKeys(front, r.md5); }
      if k in FoldBatch(front) { FoldBatchKeys(front, k); }
    }
  }

  function RowsOf(folded: map<Md5, Entry>): Table {
    map k | k in folded :: ToRow(folded[k])
  }

  /** The rows that a batch upserts. */
  function Delta(records: seq<Rec>): Table {
    RowsOf(FoldBatch(records))
  }

  /** Folding the batch raises somewhere: two records of a key cannot be ordered. */
  ghost predicate BatchRaises(records: seq<Rec>) {
    exists i :: 0 <= i < |records| && StepRaises(records, i)
  }

  ghost predicate StepRaises(records: seq<Rec>, i: nat)
    requires i < |records|
  {
    var m := FoldBatch(records[..i]);
    records[i].md5 in m && TieRaises(m[records[i].md5], records[i])
  }

  /** A step for `k` raises. */
  ghost predicate StepRaisesFor(records: seq<Rec>, i: nat, k: Md5)
    requires i < |records|
  {
    records[i].md5 == k && StepRaises(records, i)
  }

  ghost predicate KeyRaises(records: seq<Rec>, k: Md5) {
    var rs := Arrivals(records, k);
    rs != [] && TryFold(rs).Err?
  }

  lemma {:induction false} KeyRaisesIff(records: seq<Rec>, k: Md5)
    ensures KeyRaises(records, k) <==> exists i :: 0 <= i < |records| && StepRaisesFor(records, i, k)
  {
    hide TieRaises, Absorb, Start, TryFold, Fold, FoldBatch;
    if records != [] {
      var n := |records| - 1;
      var front, r := records[..n], records[n];
      KeyRaisesIff(front, k);
      FoldBatchPerKey(front, k);
      assert records[..n] == front;
      forall i | 0 <= i < n ensures StepRaisesFor(front, i, k) <==> StepRaisesFor(records, i, k) {
        assert front[..i] == records[..i];
      }
      if r.md5 == k {
        var rs := Arrivals(front, k);
        TryFoldSnoc(rs, r);
        if rs != [] { TryFoldIsFold(rs); }
        assert StepRaisesFor(records, n, k) <==> rs != [] && TieRaises(Fold(rs), r);
      }
    }
  }

  /** A batch raises exactly when the fold of one of its keys does. */
  lemma BatchRaisesIff(records: seq<Rec>)
    ensures BatchRaises(records) <==> exists k :: KeyRaises(records, k)
  {
    hide StepRaises, KeyRaises;
    forall k ensures KeyRaises(records, k) <==> exists i :: 0 <= i < |records| && StepRaisesFor(records, i, k) {
      KeyRaisesIff(records, k);
    }
    if i :| 0 <= i < |records| && StepRaises(records, i) {
      assert StepRaisesFor(records, i, records[i].md5);
      assert KeyRaises(records, records[i].md5);
    }
  }

  ghost predicate AllStamped(records: seq<Rec>) {
    forall i :: 0 <= i < |records| ==> records[i].sourceTimestamp.Some?
  }

  lemma {:induction false} StampedFold(records: seq<Rec>, k: Md5)
    requires AllStamped(records) && k in FoldBatch(records)
    ensures FoldBatch(records)[k].rec.sourceTimestamp.Some?
  {
    hide Quality, MergeScalars, MergeLists, Tombstone;
    var front, r := records[..|records| - 1], records[|records| - 1];
    assert r.sourceTimestamp.Some?;
    assert AllStamped(front) by { assert forall i :: 0 <= i < |front| ==> front[i] == records[i]; }
    if k in FoldBatch(front) { StampedFold(front, k); }
  }

  /** A batch whose records all carry a timestamp never raises. */
  lemma StampedBatchNeverRaises(records: seq<Rec>)
    requires AllStamped(records)
    ensures !BatchRaises(records)
  {
    forall i | 0 <= i < |records| ensures !StepRaises(records, i) {
      var k := records[i].md5;
      assert AllStamped(records[..i]);
      if k in FoldBatch(records[..i]) {
        StampedFold(records[..i], k);
        assert records[i].sourceTimestamp.Some?;
        StampedNeverRaises(FoldBatch(records[..i])[k], records[i]);
      }
    }
  }

  // ---- What one batch writes, in terms of its records ---------------------------

  function StripScalar(v: Scalar): Scalar {
    if v.Text? then Text(StripNul(v.s)) else v
  }

  /** No field lands in another field's column. Extensions are stored as they are. */
  lemma ColumnHoldsField(e: Entry, f: ScalarField)
    ensures ColumnOf(ToRow(e), f) == StoredScalar(f, ScalarOf(e.rec.scalars, f))
  {
    hide StripNul, NonEmpty, StripAll, WorkKey;
  }

  /** The row of a key is a tombstone exactly when one of the batch's records for it is never outdated. */
  lemma BatchTombstone(records: seq<Rec>, k: Md5)
    requires k in FoldBatch(records)
    ensures var rs := Arrivals(records, k);
            Delta(records)[k].plain.deleted <==> exists d :: 0 <= d < |rs| && Buried(rs, d)
  {
    hide Buried, StripNul, NonEmpty, StripAll, WorkKey, FoldBatch, Arrivals, Fold;
    FoldBatchPerKey(records, k);
    TombstoneClosedForm(Arrivals(records, k));
  }

  /** What a scalar becomes in its column. */
  function StoredScalar(f: ScalarField, v: Scalar): Scalar {
    if f.Extension? then v else StripScalar(v)
  }

  /** The strictly best record of a key in the batch decides every column it fills. */
  lemma BatchBestDecides(records: seq<Rec>, k: Md5, b: nat, f: ScalarField)
    requires var rs := Arrivals(records, k);
             b < |rs| && StrictBest(rs, b) && Filled(ScalarOf(rs[b].scalars, f))
    ensures k in Delta(records)
    ensures ColumnOf(Delta(records)[k], f) == StoredScalar(f, ScalarOf(Arrivals(records, k)[b].scalars, f))
  {
    hide StrictBest, Filled, ScalarOf, ColumnOf, ToRow, FoldBatch, Arrivals, Fold, StripNul;
    var rs := Arrivals(records, k);
    FoldBatchPerKey(records, k);
    StrictBestDecides(rs, b, f);
    ColumnHoldsField(Fold(rs), f);
  }

  /** The stored score is the highest that any record of the batch reached. */
  lemma BatchScore(records: seq<Rec>, k: Md5)
    requires k in FoldBatch(records)
    ensures var rs, score := Arrivals(records, k), Delta(records)[k].qualityScore;
            (forall i :: 0 <= i < |rs| ==> Quality(rs[i]) <= score) && exists i :: 0 <= i < |rs| && Quality(rs[i]) == score
  {
    hide FoldBatch, Arrivals, Fold, Quality, ToOverwritten;
    FoldBatchPerKey(records, k);
    FoldScore(Arrivals(records, k));
  }

  /** How a list is stored. */
  function StoredList(f: ListField, s: seq<string>): seq<string> {
    if f == Authors then StripAll(NonEmpty(s)) else if f == Languages then StripAll(s) else s
  }

  /** Each list column holds the ordered union of its own field over the records of the key. */
  lemma BatchLists(records: seq<Rec>, k: Md5, f: ListField)
    requires k in FoldBatch(records) && |Arrivals(records, k)| >= 2
    ensures ListOf(Delta(records)[k].plain.lists, f) == StoredList(f, Dedup(Concat(Arrivals(records, k), f)))
  {
    hide FoldBatch, Arrivals, Fold, Concat, Dedup, StripAll, NonEmpty, WorkKey, StripNul;
    FoldBatchPerKey(records, k);
    ListsClosedForm(Arrivals(records, k), f);
  }

  lemma {:induction false} DedupFirst(s: seq<string>)
    requires s != []
    ensures Dedup(s) != [] && Dedup(s)[0] == s[0]
  {
    if |s| > 1 {
      DedupFirst(s[..|s| - 1]);
      assert s[..|s| - 1][0] == s[0];
    } else {
      assert s == [] + [s[0]];
      DedupStep([], s[0]);
    }
  }

  lemma {:induction false} ConcatFirst(rs: seq<Rec>, b: nat, f: ListField)
    requires FirstWith(rs, b, f)
    ensures Concat(rs, f) != [] && Concat(rs, f)[0] == ListOf(rs[b].lists, f)[0]
  {
    hide ListOf;
    var front := rs[..|rs| - 1];
    if b < |front| {
      ConcatFirst(front, b, f);
    } else {
      ConcatNone(front, f);
    }
  }

  lemma {:induction false} ConcatNone(rs: seq<Rec>, f: ListField)
    requires NoneWith(rs, f)
    ensures Concat(rs, f) == []
  {
    hide ListOf;
    if rs != [] {
      ConcatNone(rs[..|rs| - 1], f);
      assert ListOf(rs[|rs| - 1].lists, f) == [];
    }
  }

  /** `rs[b]` is the first record with such an identifier. */
  ghost predicate FirstWith(rs: seq<Rec>, b: nat, f: ListField) {
    b < |rs| && ListOf(rs[b].lists, f) != [] && forall i :: 0 <= i < b ==> ListOf(rs[i].lists, f) == []
  }

  ghost predicate NoneWith(rs: seq<Rec>, f: ListField) {
    forall i :: 0 <= i < |rs| ==> ListOf(rs[i].lists, f) == []
  }

  /** The kinds of identifier that can give a work key, best first, and their prefixes. */
  const WORK_KEYS: seq<(ListField, string)> := [(Isbn13, "isbn:"), (Isbn10, "isbn:"), (Doi, "doi:"), (OpenLibraryIds, "ol:")]

  /** The lists of a folded key begin with the first identifier of their kind that arrived. */
  lemma FoldedFirst(rs: seq<Rec>, b: nat, f: ListField)
    requires FirstWith(rs, b, f)
    ensures var l := ListOf(Fold(rs).rec.lists, f); l != [] && l[0] == ListOf(rs[b].lists, f)[0]
  {
    hide ListOf, Fold, Concat;
    if |rs| >= 2 {
      ListsClosedForm(rs, f);
      ConcatFirst(rs, b, f);
      DedupFirst(Concat(rs, f));
    } else {
      FoldOne(rs);
    }
  }

  lemma FoldedNone(rs: seq<Rec>, f: ListField)
    requires rs != [] && NoneWith(rs, f)
    ensures ListOf(Fold(rs).rec.lists, f) == []
  {
    hide ListOf, Fold, Concat;
    if |rs| >= 2 {
      ListsClosedForm(rs, f);
      ConcatNone(rs, f);
    } else {
      FoldOne(rs);
    }
  }

  /**
    The work key comes from the best kind of identifier that any record of the key has, and from the
    first record that has it: no later record of the batch moves it.
    */
  lemma WorkKeyIsStable(records: seq<Rec>, k: Md5, p: nat, b: nat)
    requires p < |WORK_KEYS| && FirstWith(Arrivals(records, k), b, WORK_KEYS[p].0)
    requires forall q :: 0 <= q < p ==> NoneWith(Arrivals(records, k), WORK_KEYS[q].0)
    ensures k in Delta(records)
    ensures Delta(records)[k].plain.workKey == Some(WORK_KEYS[p].1 + ListOf(Arrivals(records, k)[b].lists, WORK_KEYS[p].0)[0])
  {
    hide FoldBatch, Arrivals, Fold, StripAll, NonEmpty, StripNul, FirstWith, NoneWith;
    var rs := Arrivals(records, k);
    SomeArrived(rs, b, WORK_KEYS[p].0);
    FoldBatchPerKey(records, k);
    FoldedFirst(rs, b, WORK_KEYS[p].0);
    forall q | 0 <= q < p ensures ListOf(Fold(rs).rec.lists, WORK_KEYS[q].0) == [] {
      FoldedNone(rs, WORK_KEYS[q].0);
    }
    WorkKeyOf(Fold(rs).rec.lists, p);
  }

  /** The prefixes, and the order in which the identifiers of one row are tried. */
  lemma WorkKeyOfRow(r: Rec)
    ensures var key, l := ToRow(Start(r)).plain.workKey, r.lists;
            && (l.isbn13 != [] ==> key == Some("isbn:" + l.isbn13[0]))
            && (l.isbn13 == [] && l.isbn10 != [] ==> key == Some("isbn:" + l.isbn10[0]))
            && (l.isbn13 == [] && l.isbn10 == [] && l.doi != [] ==> key == Some("doi:" + l.doi[0]))
            && (l.isbn13 == [] && l.isbn10 == [] && l.doi == [] && l.openlibraryIds != [] ==>
                  key == Some("ol:" + l.openlibraryIds[0]))
            && (l.isbn13 == [] && l.isbn10 == [] && l.doi == [] && l.openlibraryIds == [] ==> key == None)
  {
    hide Quality, StripNul, NonEmpty, StripAll;
  }

  lemma SomeArrived(rs: seq<Rec>, b: nat, f: ListField)
    requires FirstWith(rs, b, f)
    ensures rs != []
  {
  }

  lemma WorkKeyOf(l: Lists, p: nat)
    requires p < |WORK_KEYS| && ListOf(l, WORK_KEYS[p].0) != []
    requires forall q :: 0 <= q < p ==> ListOf(l, WORK_KEYS[q].0) == []
    ensures WorkKey(l) == Some(WORK_KEYS[p].1 + ListOf(l, WORK_KEYS[p].0)[0])
  {
    assert p > 0 ==> ListOf(l, WORK_KEYS[0].0) == [];
    assert p > 1 ==> ListOf(l, WORK_KEYS[1].0) == [];
    assert p > 2 ==> ListOf(l, WORK_KEYS[2].0) == [];
  }

  /** Without any such identifier there is no work key. */
  lemma NoWorkKey(records: seq<Rec>, k: Md5)
    requires k in FoldBatch(records)
    requires forall q :: 0 <= q < |WORK_KEYS| ==> NoneWith(Arrivals(records, k), WORK_KEYS[q].0)
    ensures Delta(records)[k].plain.workKey == None
  {
    hide FoldBatch, Arrivals, Fold, StripAll, NonEmpty, StripNul, NoneWith;
    var rs := Arrivals(records, k);
    FoldBatchPerKey(records, k);
    forall q | 0 <= q < |WORK_KEYS| ensures ListOf(Fold(rs).rec.lists, WORK_KEYS[q].0) == [] {
      FoldedNone(rs, WORK_KEYS[q].0);
    }
    var l := Fold(rs).rec.lists;
    assert ListOf(l, WORK_KEYS[0].0) == [] && ListOf(l, WORK_KEYS[1].0) == [] && ListOf(l, WORK_KEYS[2].0) == [] && ListOf(l, WORK_KEYS[3].0) == [];
  }

  lemma FoldOne(rs: seq<Rec>)
    requires |rs| == 1
    ensures Fold(rs).rec == rs[0]
  {
  }

  // ---- A longer batch covers a shorter one ------------------------------------

  /** A source cid is absent or non-empty. */
  ghost predicate CidsFilled(records: seq<Rec>) {
    forall i :: 0 <= i < |records| ==> records[i].ipfsCid != Some("")
  }

  /** The only way a later merge turns a non-NULL coalesced column into NULL. */
  lemma MergeNullsColumnIff(e: Entry, r: Rec)
    ensures RowBelow(ToRow(e), ToRow(Absorb(e, r)), true) <==> !(e.rec.ipfsCid == Some("") && r.ipfsCid == None)
    ensures RowBelow(ToRow(e), ToRow(Absorb(e, r)), false)
  {
    hide Quality, MergeLists, Tombstone, StripNul, NonEmpty, StripAll;
  }

  lemma {:induction false} FoldedCid(records: seq<Rec>, k: Md5)
    requires CidsFilled(records) && k in FoldBatch(records)
    ensures FoldBatch(records)[k].rec.ipfsCid != Some("")
  {
    hide Quality, MergeScalars, MergeLists, Tombstone;
    var front, r := records[..|records| - 1], records[|records| - 1];
    assert r.ipfsCid != Some("");
    assert CidsFilled(front) by { assert forall i :: 0 <= i < |front| ==> front[i] == records[i]; }
    if k in FoldBatch(front) { FoldedCid(front, k); }
  }

  lemma DeltaGrowsByOne(records: seq<Rec>, r: Rec, cids: bool)
    requires cids ==> CidsFilled(records)
    ensures Below(Delta(records), Delta(records + [r]), cids)
  {
    hide Absorb, ToRow, RowBelow, Start;
    var m, m' := FoldBatch(records), FoldBatch(records + [r]);
    assert (records + [r])[..|records|] == records;
    forall k | k in m ensures k in m' && RowBelow(ToRow(m[k]), ToRow(m'[k]), cids) {
      if k == r.md5 {
        if cids { FoldedCid(records, k); }
        MergeNullsColumnIff(m[k], r);
      } else {
        RowBelowReflexive(ToRow(m[k]), cids);
      }
    }
  }

  lemma RowBelowReflexive(a: Row, cids: bool)
    ensures RowBelow(a, a, cids)
  {
  }

  /** What a part-filled batch would write is covered by what the full batch writes. */
  lemma {:induction false} DeltaPrefixBelow(records: seq<Rec>, more: seq<Rec>, cids: bool)
    requires cids ==> CidsFilled(records + more)
    ensures Below(Delta(records), Delta(records + more), cids)
  {
    hide Delta, Below;
    if more == [] {
      assert records + more == records;
      BelowReflexive(Delta(records), cids);
    } else {
      var front, r := more[..|more| - 1], more[|more| - 1];
      assert records + more == (records + front) + [r];
      forall i | cids && 0 <= i < |records + front| ensures (records + front)[i].ipfsCid != Some("") {
        assert (records + front)[i] == (records + more)[i];
      }
      DeltaPrefixBelow(records, front, cids);
      DeltaGrowsByOne(records + front, r, cids);
      BelowTransitive(Delta(records), Delta(records + front), Delta(records + more), cids);
    }
  }

  lemma BelowReflexive(a: Table, cids: bool)
    ensures Below(a, a, cids)
  {
  }
}
