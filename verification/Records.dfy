/** `common/records.py`: the normalized record, its quality score and the merge of two records. */
module Records {
  import opened Options
  import opened OrderedUnion
  import opened Bytes

  /** The fields on which one side of a merge wins. */
  datatype Scalars = Scalars(
    title: string,
    publisher: Option<string>,
    publicationYear: Option<int>,
    extension: Option<string>,
    filesize: Option<int>,
    seriesName: Option<string>,
    seriesPosition: Option<int>,
    edition: Option<string>)

  /** The fields that a merge unites. */
  datatype Lists = Lists(
    authors: seq<string>,
    languages: seq<string>,
    isbn13: seq<string>,
    isbn10: seq<string>,
    doi: seq<string>,
    oclc: seq<string>,
    openlibraryIds: seq<string>)

  datatype Origin = Origin(
    collection: string,
    recordId: Option<string>,
    aacid: Option<string>)

  /** `NormalizedRecord`, its fields grouped by merge rule. Timestamps are points on a line. */
  datatype Rec = Rec(
    md5: Md5,
    scalars: Scalars,
    lists: Lists,
    origin: Origin,
    sourceTimestamp: Option<int>,
    deleted: bool,
    removedReason: Option<string>,
    ipfsCid: Option<string>,
    discarded: bool,
    discardReason: Option<string>)

  // ---- Uniform access to fields ---------------------------------------------

  datatype ScalarField =
    Title | Publisher | PublicationYear | Extension | Filesize | SeriesName | SeriesPosition | Edition

  datatype ListField = Authors | Languages | Isbn13 | Isbn10 | Doi | Oclc | OpenLibraryIds

  datatype Scalar = Null | Text(s: string) | Num(n: int)

  function OfText(s: Option<string>): Scalar {
    if s.Some? then Text(s.value) else Null
  }

  function OfNum(n: Option<int>): Scalar {
    if n.Some? then Num(n.value) else Null
  }

  function ScalarOf(s: Scalars, f: ScalarField): Scalar {
    match f
    case Title => Text(s.title)
    case Publisher => OfText(s.publisher)
    case PublicationYear => OfNum(s.publicationYear)
    case Extension => OfText(s.extension)
    case Filesize => OfNum(s.filesize)
    case SeriesName => OfText(s.seriesName)
    case SeriesPosition => OfNum(s.seriesPosition)
    case Edition => OfText(s.edition)
  }

  function ListOf(l: Lists, f: ListField): seq<string> {
    match f
    case Authors => l.authors
    case Languages => l.languages
    case Isbn13 => l.isbn13
    case Isbn10 => l.isbn10
    case Doi => l.doi
    case Oclc => l.oclc
    case OpenLibraryIds => l.openlibraryIds
  }

  /** The merge's own notion of filled: neither `None` nor `""`. A number is always filled. */
  predicate Filled(v: Scalar) {
    v != Null && v != Text("")
  }

  /** Records are equal field by field. */
  lemma ScalarsExtensional(a: Scalars, b: Scalars)
    requires forall f :: ScalarOf(a, f) == ScalarOf(b, f)
    ensures a == b
  {
    assert ScalarOf(a, Title) == ScalarOf(b, Title);
    assert ScalarOf(a, Publisher) == ScalarOf(b, Publisher);
    assert ScalarOf(a, PublicationYear) == ScalarOf(b, PublicationYear);
    assert ScalarOf(a, Extension) == ScalarOf(b, Extension);
    assert ScalarOf(a, Filesize) == ScalarOf(b, Filesize);
    assert ScalarOf(a, SeriesName) == ScalarOf(b, SeriesName);
    assert ScalarOf(a, SeriesPosition) == ScalarOf(b, SeriesPosition);
    assert ScalarOf(a, Edition) == ScalarOf(b, Edition);
  }

  lemma ListsExtensional(a: Lists, b: Lists)
    requires forall f :: ListOf(a, f) == ListOf(b, f)
    ensures a == b
  {
    assert ListOf(a, Authors) == ListOf(b, Authors);
    assert ListOf(a, Languages) == ListOf(b, Languages);
    assert ListOf(a, Isbn13) == ListOf(b, Isbn13);
    assert ListOf(a, Isbn10) == ListOf(b, Isbn10);
    assert ListOf(a, Doi) == ListOf(b, Doi);
    assert ListOf(a, Oclc) == ListOf(b, Oclc);
    assert ListOf(a, OpenLibraryIds) == ListOf(b, OpenLibraryIds);
  }

  // ---- Quality score --------------------------------------------------------

  function Weight(present: bool, w: nat): nat {
    if present then w else 0
  }

  function ScalarQuality(s: Scalars): nat {
    Weight(s.title != "", 10)
    + Weight(Truthy(s.publisher), 3)
    + Weight(s.publicationYear.Some? && s.publicationYear.value != 0, 3)
    + Weight(Truthy(s.extension), 1)
    + Weight(s.filesize.Some? && s.filesize.value != 0, 1)
    + Weight(Truthy(s.seriesName), 2)
    + Weight(s.seriesPosition.Some?, 1)
    + Weight(Truthy(s.edition), 1)
  }

  function ListQuality(l: Lists): nat {
    Weight(l.authors != [], 8)
    + Weight(l.languages != [], 2)
    + Weight(l.isbn13 != [], 6)
    + Weight(l.isbn10 != [], 3)
    + Weight(l.doi != [], 3)
    + Weight(l.oclc != [], 2)
    + Weight(l.openlibraryIds != [], 2)
  }

  /** Python truthiness decides: year 0 and size 0 score nothing, series position 0 does. */
  function Quality(r: Rec): nat {
    ScalarQuality(r.scalars) + ListQuality(r.lists)
  }

  /** The documented weights. */
  function ScalarWeight(f: ScalarField): nat {
    match f
    case Title => 10
    case Publisher => 3
    case PublicationYear => 3
    case Extension => 1
    case Filesize => 1
    case SeriesName => 2
    case SeriesPosition => 1
    case Edition => 1
  }

  function ListWeight(f: ListField): nat {
    match f
    case Authors => 8
    case Isbn13 => 6
    case Isbn10 => 3
    case Doi => 3
    case Languages => 2
    case Oclc => 2
    case OpenLibraryIds => 2
  }

  /** Does this value of the field score? */
  predicate Scores(f: ScalarField, v: Scalar) {
    Filled(v) && (v == Num(0) ==> f == SeriesPosition)
  }

  function ScalarPoints(s: Scalars, f: ScalarField): nat {
    Weight(Scores(f, ScalarOf(s, f)), ScalarWeight(f))
  }

  function ListPoints(l: Lists, f: ListField): nat {
    Weight(ListOf(l, f) != [], ListWeight(f))
  }

  lemma ScalarQualityIsSum(s: Scalars)
    ensures ScalarQuality(s) ==
      ScalarPoints(s, Title) + ScalarPoints(s, Publisher) + ScalarPoints(s, PublicationYear) + ScalarPoints(s, Extension)
      + ScalarPoints(s, Filesize) + ScalarPoints(s, SeriesName) + ScalarPoints(s, SeriesPosition) + ScalarPoints(s, Edition)
  {
    hide ScalarPoints, Truthy, Weight, ScalarOf, Scores;
    TextPoints(s.publisher, 3);
    TextPoints(s.extension, 1);
    TextPoints(s.seriesName, 2);
    TextPoints(s.edition, 1);
    PointsOf(s);
  }

  lemma TextPoints(v: Option<string>, w: nat)
    ensures Weight(Filled(OfText(v)), w) == Weight(Truthy(v), w)
  {
  }

  lemma PointsOf(s: Scalars)
    ensures ScalarPoints(s, Title) == Weight(s.title != "", 10)
    ensures ScalarPoints(s, Publisher) == Weight(Filled(OfText(s.publisher)), 3)
    ensures ScalarPoints(s, PublicationYear) == Weight(s.publicationYear.Some? && s.publicationYear.value != 0, 3)
    ensures ScalarPoints(s, Extension) == Weight(Filled(OfText(s.extension)), 1)
    ensures ScalarPoints(s, Filesize) == Weight(s.filesize.Some? && s.filesize.value != 0, 1)
    ensures ScalarPoints(s, SeriesName) == Weight(Filled(OfText(s.seriesName)), 2)
    ensures ScalarPoints(s, SeriesPosition) == Weight(s.seriesPosition.Some?, 1)
    ensures ScalarPoints(s, Edition) == Weight(Filled(OfText(s.edition)), 1)
  {
    hide Weight;
  }

  lemma ListQualityIsSum(l: Lists)
    ensures ListQuality(l) ==
      ListPoints(l, Authors) + ListPoints(l, Languages) + ListPoints(l, Isbn13) + ListPoints(l, Isbn10)
      + ListPoints(l, Doi) + ListPoints(l, Oclc) + ListPoints(l, OpenLibraryIds)
  {
  }

  /** Filling one more field adds exactly its documented weight, whatever the others hold. */
  lemma FillingScalarAddsWeight(a: Scalars, b: Scalars, f: ScalarField)
    requires forall g :: g != f ==> ScalarOf(a, g) == ScalarOf(b, g)
    requires !Scores(f, ScalarOf(a, f)) && Scores(f, ScalarOf(b, f))
    ensures ScalarQuality(b) == ScalarQuality(a) + ScalarWeight(f)
  {
    hide ScalarOf, ScalarQuality, Scores, ScalarWeight, ScalarPoints;
    ScalarQualityIsSum(a);
    ScalarQualityIsSum(b);
    forall g ensures ScalarPoints(b, g) == ScalarPoints(a, g) + (if g == f then ScalarWeight(f) else 0) {
      OneFieldPoints(a, b, g, g == f);
    }
  }

  lemma OneFieldPoints(a: Scalars, b: Scalars, g: ScalarField, filled: bool)
    requires if filled then !Scores(g, ScalarOf(a, g)) && Scores(g, ScalarOf(b, g)) else ScalarOf(a, g) == ScalarOf(b, g)
    ensures ScalarPoints(b, g) == ScalarPoints(a, g) + (if filled then ScalarWeight(g) else 0)
  {
    hide ScalarOf, Scores, ScalarWeight;
  }

  lemma FillingListAddsWeight(a: Lists, b: Lists, f: ListField)
    requires forall g :: g != f ==> ListOf(a, g) == ListOf(b, g)
    requires ListOf(a, f) == [] && ListOf(b, f) != []
    ensures ListQuality(b) == ListQuality(a) + ListWeight(f)
  {
    hide ListOf, ListQuality, ListWeight, ListPoints;
    ListQualityIsSum(a);
    ListQualityIsSum(b);
    forall g ensures ListPoints(b, g) == ListPoints(a, g) + (if g == f then ListWeight(f) else 0) {
      OneListPoints(a, b, g, g == f);
    }
  }

  lemma OneListPoints(a: Lists, b: Lists, g: ListField, filled: bool)
    requires if filled then ListOf(a, g) == [] && ListOf(b, g) != [] else ListOf(a, g) == ListOf(b, g)
    ensures ListPoints(b, g) == ListPoints(a, g) + (if filled then ListWeight(g) else 0)
  {
    hide ListOf, ListWeight;
  }

  /** What each field is worth by itself, in the order of the fields. */
  lemma DocumentedWeights(t: string, n: int, l: seq<string>)
    requires t != "" && n != 0 && l != []
    ensures ScalarQuality(Scalars(t, None, None, None, None, None, None, None)) == 10
    ensures ScalarQuality(Scalars("", Some(t), None, None, None, None, None, None)) == 3
    ensures ScalarQuality(Scalars("", None, Some(n), None, None, None, None, None)) == 3
    ensures ScalarQuality(Scalars("", None, None, Some(t), None, None, None, None)) == 1
    ensures ScalarQuality(Scalars("", None, None, None, Some(n), None, None, None)) == 1
    ensures ScalarQuality(Scalars("", None, None, None, None, Some(t), None, None)) == 2
    ensures ScalarQuality(Scalars("", None, None, None, None, None, Some(0), None)) == 1
    ensures ScalarQuality(Scalars("", None, None, None, None, None, None, Some(t))) == 1
    ensures ListQuality(Lists(l, [], [], [], [], [], [])) == 8 && ListQuality(Lists([], l, [], [], [], [], [])) == 2
    ensures ListQuality(Lists([], [], l, [], [], [], [])) == 6 && ListQuality(Lists([], [], [], l, [], [], [])) == 3
    ensures ListQuality(Lists([], [], [], [], l, [], [])) == 3 && ListQuality(Lists([], [], [], [], [], l, [])) == 2
    ensures ListQuality(Lists([], [], [], [], [], [], l)) == 2 && ListQuality(Lists([], [], [], [], [], [], [])) == 0
  {
  }

  /** Empty texts, year 0 and size 0 are worth as little as absent ones. */
  lemma FalsyScoresNothing(s: Scalars)
    ensures ScalarQuality(s.(publisher := Some(""))) == ScalarQuality(s.(publisher := None))
    ensures ScalarQuality(s.(extension := Some(""))) == ScalarQuality(s.(extension := None))
    ensures ScalarQuality(s.(seriesName := Some(""))) == ScalarQuality(s.(seriesName := None))
    ensures ScalarQuality(s.(edition := Some(""))) == ScalarQuality(s.(edition := None))
    ensures ScalarQuality(s.(publicationYear := Some(0))) == ScalarQuality(s.(publicationYear := None))
    ensures ScalarQuality(s.(filesize := Some(0))) == ScalarQuality(s.(filesize := None))
    ensures ScalarQuality(s.(seriesPosition := Some(0))) == ScalarQuality(s.(seriesPosition := None)) + 1
  {
  }

  // ---- Merge ----------------------------------------------------------------

  /** Strictly newer, a missing timestamp being the minimum. */
  predicate Newer(a: Option<int>, b: Option<int>) {
    a.Some? && (b.None? || a.value > b.value)
  }

  function Latest(a: Option<int>, b: Option<int>): Option<int> {
    if Newer(b, a) then b else a
  }

  /** Who supplies a scalar that both sides fill. */
  predicate IncomingWins(e: Entry, incoming: Rec) {
    var score := Quality(incoming);
    score > e.score || (score == e.score && Newer(incoming.sourceTimestamp, e.rec.sourceTimestamp))
  }

  function Prefer<T>(existing: T, incoming: T, existingFilled: bool, incomingFilled: bool, incomingWins: bool): T {
    if !existingFilled && incomingFilled then incoming
    else if !incomingFilled then existing
    else if incomingWins then incoming
    else existing
  }

  function PreferText(existing: Option<string>, incoming: Option<string>, wins: bool): Option<string> {
    Prefer(existing, incoming, Truthy(existing), Truthy(incoming), wins)
  }

  function PreferNum(existing: Option<int>, incoming: Option<int>, wins: bool): Option<int> {
    Prefer(existing, incoming, existing.Some?, incoming.Some?, wins)
  }

  function MergeScalars(existing: Scalars, incoming: Scalars, wins: bool): Scalars {
    Scalars(
      Prefer(existing.title, incoming.title, existing.title != "", incoming.title != "", wins),
      PreferText(existing.publisher, incoming.publisher, wins),
      PreferNum(existing.publicationYear, incoming.publicationYear, wins),
      PreferText(existing.extension, incoming.extension, wins),
      PreferNum(existing.filesize, incoming.filesize, wins),
      PreferText(existing.seriesName, incoming.seriesName, wins),
      PreferNum(existing.seriesPosition, incoming.seriesPosition, wins),
      PreferText(existing.edition, incoming.edition, wins))
  }

  function MergeLists(existing: Lists, incoming: Lists): Lists {
    Lists(
      Union(existing.authors, incoming.authors),
      Union(existing.languages, incoming.languages),
      Union(existing.isbn13, incoming.isbn13),
      Union(existing.isbn10, incoming.isbn10),
      Union(existing.doi, incoming.doi),
      Union(existing.oclc, incoming.oclc),
      Union(existing.openlibraryIds, incoming.openlibraryIds))
  }

  function MergeOrigin(existing: Origin, incoming: Origin, worse: bool): Origin {
    Origin(
      if worse || incoming.collection == "" then existing.collection else incoming.collection,
      if worse then existing.recordId else Or(incoming.recordId, existing.recordId),
      Or(incoming.aacid, existing.aacid))
  }

  /** Whether the merged record is a tombstone, and why. */
  function Tombstone(existing: Rec, incoming: Rec): (bool, Option<string>) {
    if incoming.deleted && !existing.deleted then (true, incoming.removedReason)
    else if existing.deleted then
      if !incoming.deleted && Newer(incoming.sourceTimestamp, existing.sourceTimestamp)
      then (false, None)
      else (true, existing.removedReason)
    else (false, None)
  }

  /** A record together with the score the fold carries for it. */
  datatype Entry = Entry(rec: Rec, score: nat)

  function Max(a: nat, b: nat): nat {
    if a >= b then a else b
  }

  function Start(r: Rec): Entry {
    Entry(r, Quality(r))
  }

  /** What merging `r` into `e` yields whenever it does not raise. */
  function Absorb(e: Entry, r: Rec): Entry {
    Entry(
      Rec(
        e.rec.md5,
        MergeScalars(e.rec.scalars, r.scalars, IncomingWins(e, r)),
        MergeLists(e.rec.lists, r.lists),
        MergeOrigin(e.rec.origin, r.origin, Quality(r) < e.score),
        Latest(e.rec.sourceTimestamp, r.sourceTimestamp),
        Tombstone(e.rec, r).0,
        Tombstone(e.rec, r).1,
        Or(e.rec.ipfsCid, r.ipfsCid),
        false,
        None),
      Max(e.score, Quality(r)))
  }

  // ---- Merge with its exception ---------------------------------------------

  /** Python cannot order the naive `datetime.min` against an aware timestamp. */
  datatype MergeError = MixedTimestamps

  datatype Contest = Contest(newScore: nat, oldScore: nat, newTs: Option<int>, oldTs: Option<int>)

  function ContestOf(e: Entry, r: Rec): Contest {
    Contest(Quality(r), e.score, r.sourceTimestamp, e.rec.sourceTimestamp)
  }

  /** `prefer_scalar` with the exception it can raise. */
  function PreferOrRaise<T>(existing: T, incoming: T, existingFilled: bool, incomingFilled: bool, c: Contest): Result<T, MergeError> {
    if !existingFilled && incomingFilled then Ok(incoming)
    else if !incomingFilled then Ok(existing)
    else if c.newScore > c.oldScore then Ok(incoming)
    else if c.newScore < c.oldScore then Ok(existing)
    else if c.newTs.Some? != c.oldTs.Some? then Err(MixedTimestamps)
    else if Newer(c.newTs, c.oldTs) then Ok(incoming)
    else Ok(existing)
  }

  function TextOrRaise(existing: Option<string>, incoming: Option<string>, c: Contest): Result<Option<string>, MergeError> {
    PreferOrRaise(existing, incoming, Truthy(existing), Truthy(incoming), c)
  }

  function NumOrRaise(existing: Option<int>, incoming: Option<int>, c: Contest): Result<Option<int>, MergeError> {
    PreferOrRaise(existing, incoming, existing.Some?, incoming.Some?, c)
  }

  /** The scalar arguments of the merged record, evaluated in order. */
  function ScalarsOrRaise(existing: Scalars, incoming: Scalars, c: Contest): Result<Scalars, MergeError> {
    var title :- PreferOrRaise(existing.title, incoming.title, existing.title != "", incoming.title != "", c);
    var publisher :- TextOrRaise(existing.publisher, incoming.publisher, c);
    var publicationYear :- NumOrRaise(existing.publicationYear, incoming.publicationYear, c);
    var extension :- TextOrRaise(existing.extension, incoming.extension, c);
    var filesize :- NumOrRaise(existing.filesize, incoming.filesize, c);
    var seriesName :- TextOrRaise(existing.seriesName, incoming.seriesName, c);
    var seriesPosition :- NumOrRaise(existing.seriesPosition, incoming.seriesPosition, c);
    var edition :- TextOrRaise(existing.edition, incoming.edition, c);
    Ok(Scalars(title, publisher, publicationYear, extension, filesize, seriesName, seriesPosition, edition))
  }

  /** A scalar filled on both sides is tied, and only one side has a timestamp to break the tie. */
  ghost predicate TieRaises(e: Entry, r: Rec) {
    && Quality(r) == e.score
    && e.rec.sourceTimestamp.Some? != r.sourceTimestamp.Some?
    && exists f :: Filled(ScalarOf(e.rec.scalars, f)) && Filled(ScalarOf(r.scalars, f))
  }

  predicate Undecidable(c: Contest) {
    c.newScore == c.oldScore && c.newTs.Some? != c.oldTs.Some?
  }

  predicate SharesScalar(a: Scalars, b: Scalars) {
    || (a.title != "" && b.title != "")
    || (Truthy(a.publisher) && Truthy(b.publisher))
    || (a.publicationYear.Some? && b.publicationYear.Some?)
    || (Truthy(a.extension) && Truthy(b.extension))
    || (a.filesize.Some? && b.filesize.Some?)
    || (Truthy(a.seriesName) && Truthy(b.seriesName))
    || (a.seriesPosition.Some? && b.seriesPosition.Some?)
    || (Truthy(a.edition) && Truthy(b.edition))
  }

  lemma SharesScalarMeaning(a: Scalars, b: Scalars)
    ensures SharesScalar(a, b) <==> exists f :: Filled(ScalarOf(a, f)) && Filled(ScalarOf(b, f))
  {
    if SharesScalar(a, b) {
      var f :=
        if a.title != "" && b.title != "" then Title
        else if Truthy(a.publisher) && Truthy(b.publisher) then Publisher
        else if a.publicationYear.Some? && b.publicationYear.Some? then PublicationYear
        else if Truthy(a.extension) && Truthy(b.extension) then Extension
        else if a.filesize.Some? && b.filesize.Some? then Filesize
        else if Truthy(a.seriesName) && Truthy(b.seriesName) then SeriesName
        else if a.seriesPosition.Some? && b.seriesPosition.Some? then SeriesPosition
        else Edition;
      assert Filled(ScalarOf(a, f)) && Filled(ScalarOf(b, f));
    }
  }

  lemma PreferOutcome<T>(existing: T, incoming: T, existingFilled: bool, incomingFilled: bool, c: Contest, wins: bool)
    requires wins == (c.newScore > c.oldScore || (c.newScore == c.oldScore && Newer(c.newTs, c.oldTs)))
    ensures PreferOrRaise(existing, incoming, existingFilled, incomingFilled, c)
         == if Undecidable(c) && existingFilled && incomingFilled then Err(MixedTimestamps)
            else Ok(Prefer(existing, incoming, existingFilled, incomingFilled, wins))
  {
  }

  lemma TextOutcome(existing: Option<string>, incoming: Option<string>, c: Contest, wins: bool)
    requires wins == (c.newScore > c.oldScore || (c.newScore == c.oldScore && Newer(c.newTs, c.oldTs)))
    requires !Undecidable(c)
    ensures TextOrRaise(existing, incoming, c) == Ok(PreferText(existing, incoming, wins))
  {
    PreferOutcome(existing, incoming, Truthy(existing), Truthy(incoming), c, wins);
  }

  lemma NumOutcome(existing: Option<int>, incoming: Option<int>, c: Contest, wins: bool)
    requires wins == (c.newScore > c.oldScore || (c.newScore == c.oldScore && Newer(c.newTs, c.oldTs)))
    requires !Undecidable(c)
    ensures NumOrRaise(existing, incoming, c) == Ok(PreferNum(existing, incoming, wins))
  {
    PreferOutcome(existing, incoming, existing.Some?, incoming.Some?, c, wins);
  }

  lemma DecidedScalars(a: Scalars, b: Scalars, c: Contest, wins: bool)
    requires wins == (c.newScore > c.oldScore || (c.newScore == c.oldScore && Newer(c.newTs, c.oldTs)))
    requires !Undecidable(c)
    ensures ScalarsOrRaise(a, b, c) == Ok(MergeScalars(a, b, wins))
  {
    hide Truthy, Prefer, PreferOrRaise, TextOrRaise, NumOrRaise, PreferText, PreferNum, Newer;
    PreferOutcome(a.title, b.title, a.title != "", b.title != "", c, wins);
    TextOutcome(a.publisher, b.publisher, c, wins);
    NumOutcome(a.publicationYear, b.publicationYear, c, wins);
    TextOutcome(a.extension, b.extension, c, wins);
    NumOutcome(a.filesize, b.filesize, c, wins);
    TextOutcome(a.seriesName, b.seriesName, c, wins);
    NumOutcome(a.seriesPosition, b.seriesPosition, c, wins);
    TextOutcome(a.edition, b.edition, c, wins);
  }

  lemma ScalarsOrRaiseOutcome(a: Scalars, b: Scalars, c: Contest, wins: bool)
    requires wins == (c.newScore > c.oldScore || (c.newScore == c.oldScore && Newer(c.newTs, c.oldTs)))
    ensures ScalarsOrRaise(a, b, c)
         == if Undecidable(c) && SharesScalar(a, b) then Err(MixedTimestamps) else Ok(MergeScalars(a, b, wins))
  {
    if !Undecidable(c) { DecidedScalars(a, b, c, wins); }
  }

  /** `merge_records` as a value: the merged entry, or the exception. */
  ghost function TryMerge(e: Entry, r: Rec): Result<Entry, MergeError> {
    if TieRaises(e, r) then Err(MixedTimestamps) else Ok(Absorb(e, r))
  }

  /** `merge_records`: the tombstone fields are assigned after the record is built. */
  method MergeRecords(existing: Entry, incoming: Rec) returns (r: Result<Entry, MergeError>)
    ensures r == TryMerge(existing, incoming)
  {
    var stored := existing.rec;
    var score := Quality(incoming);
    SharesScalarMeaning(stored.scalars, incoming.scalars);
    ScalarsOrRaiseOutcome(stored.scalars, incoming.scalars, ContestOf(existing, incoming), IncomingWins(existing, incoming));
    var scalars := ScalarsOrRaise(stored.scalars, incoming.scalars, ContestOf(existing, incoming));
    if scalars.Err? {
      return Err(scalars.error);
    }
    var merged := Rec(
      stored.md5, scalars.value, MergeLists(stored.lists, incoming.lists),
      MergeOrigin(stored.origin, incoming.origin, score < existing.score),
      Latest(stored.sourceTimestamp, incoming.sourceTimestamp),
      false, None, Or(stored.ipfsCid, incoming.ipfsCid), false, None);
    if incoming.deleted && !stored.deleted {
      merged := merged.(deleted := true, removedReason := incoming.removedReason);
    } else if stored.deleted {
      if !incoming.deleted && Newer(incoming.sourceTimestamp, stored.sourceTimestamp) {
        merged := merged.(deleted := false, removedReason := None);
      } else {
        merged := merged.(deleted := true, removedReason := stored.removedReason);
      }
    }
    r := Ok(Entry(merged, Max(existing.score, score)));
  }

  // ---- One merge ------------------------------------------------------------

  /** Every scalar of a merge, whatever its type, obeys the same rule. */
  lemma MergeScalar(e: Entry, r: Rec, f: ScalarField)
    ensures ScalarOf(Absorb(e, r).rec.scalars, f)
         == Prefer(ScalarOf(e.rec.scalars, f), ScalarOf(r.scalars, f),
                   Filled(ScalarOf(e.rec.scalars, f)), Filled(ScalarOf(r.scalars, f)), IncomingWins(e, r))
  {
  }

  /**
    Which side of a merge supplies a scalar: the filled one, else the one of higher score, else the one that is
    strictly newer, and the stored one if that decides nothing. The score of the stored side is the carried one.
    */
  lemma MergeScalarRule(e: Entry, r: Rec, f: ScalarField)
    ensures var stored, incoming, merged := ScalarOf(e.rec.scalars, f), ScalarOf(r.scalars, f), ScalarOf(Absorb(e, r).rec.scalars, f);
            var storedTs, incomingTs := e.rec.sourceTimestamp, r.sourceTimestamp;
            var both := stored != Null && stored != Text("") && incoming != Null && incoming != Text("");
            && (incoming == Null || incoming == Text("") ==> merged == stored)
            && (stored == Null || stored == Text("") ==> merged == if incoming == Null || incoming == Text("") then stored else incoming)
            && (both && Quality(r) > e.score ==> merged == incoming)
            && (both && Quality(r) < e.score ==> merged == stored)
            && (both && Quality(r) == e.score && storedTs.Some? && incomingTs.Some? ==>
                  merged == if incomingTs.value > storedTs.value then incoming else stored)
            && (both && Quality(r) == e.score && storedTs.None? && incomingTs.None? ==> merged == stored)
  {
    hide Quality, MergeLists, Tombstone;
    MergeScalar(e, r, f);
    hide Absorb, ScalarOf;
  }

  /** On a tie of scores the newer title wins, in whichever order the records arrive. */
  lemma NewerTitleWins()
    ensures var a, b := Titled("A", None, Some(1)), Titled("B", None, Some(2));
            && Absorb(Start(a), b).rec.scalars.title == "B" && Absorb(Start(b), a).rec.scalars.title == "B"
  {
    var a, b := Titled("A", None, Some(1)), Titled("B", None, Some(2));
    assert Quality(a) == 10 && Quality(b) == 10;
    hide Quality;
    MergeScalarRule(Start(a), b, Title);
    MergeScalarRule(Start(b), a, Title);
    assert ScalarOf(a.scalars, Title) == Text("A") && ScalarOf(b.scalars, Title) == Text("B");
  }

  lemma MergeList(e: Entry, r: Rec, f: ListField)
    ensures ListOf(Absorb(e, r).rec.lists, f) == Union(ListOf(e.rec.lists, f), ListOf(r.lists, f))
  {
  }

  /** The merged values absorb the same record without a trace: no field, no tombstone, no score. */
  lemma AbsorbIdempotent(e: Entry, r: Rec)
    ensures Absorb(Absorb(e, r), r) == Absorb(e, r)
  {
    var m := Absorb(e, r);
    assert Absorb(m, r).rec.lists == m.rec.lists by {
      forall f ensures ListOf(Absorb(m, r).rec.lists, f) == ListOf(m.rec.lists, f) {
        MergeList(e, r, f);
        MergeList(m, r, f);
        UnionIdempotent(ListOf(e.rec.lists, f), ListOf(r.lists, f));
      }
      ListsExtensional(Absorb(m, r).rec.lists, m.rec.lists);
    }
    assert Absorb(m, r).rec.scalars == m.rec.scalars by {
      forall f ensures ScalarOf(Absorb(m, r).rec.scalars, f) == ScalarOf(m.rec.scalars, f) {
        MergeScalar(e, r, f);
        MergeScalar(m, r, f);
      }
      ScalarsExtensional(Absorb(m, r).rec.scalars, m.rec.scalars);
    }
  }

  predicate FillsScalar(s: Scalars) {
    SharesScalar(s, s)
  }

  /** A record without timestamp that wins or ties every scalar against one with a timestamp. */
  predicate RaisesOnReturn(e: Entry, r: Rec) {
    Quality(r) >= e.score && r.sourceTimestamp.None? && e.rec.sourceTimestamp.Some? && FillsScalar(r.scalars)
  }

  /**
    Merging the same record a second time raises exactly when the record has no timestamp, the other one
    has, and its score is no lower; otherwise it changes nothing.
    */
  lemma MergeAgain(e: Entry, r: Rec)
    requires TryMerge(e, r).Ok?
    ensures TryMerge(TryMerge(e, r).value, r) == if RaisesOnReturn(e, r) then Err(MixedTimestamps) else TryMerge(e, r)
  {
    hide Quality, MergeScalars, MergeLists, Tombstone;
    var m := Absorb(e, r);
    AbsorbIdempotent(e, r);
    SharesScalarMeaning(r.scalars, r.scalars);
    hide ScalarOf, Filled, SharesScalar;
    forall f ensures Filled(ScalarOf(r.scalars, f)) ==> Filled(ScalarOf(m.rec.scalars, f)) {
      MergeScalar(e, r, f);
    }
  }

  function Titled(title: string, publisher: Option<string>, timestamp: Option<int>): Rec {
    Rec(seq(16, i => 0), Scalars(title, publisher, None, None, None, None, None, None), Lists([], [], [], [], [], [], []),
        Origin("", None, None), timestamp, false, None, None, false, None)
  }

  /** Two records of one title, one of them without timestamp, cannot be merged in either order. */
  lemma UnstampedTieRaises()
    ensures var a, b := Titled("A", None, Some(1)), Titled("A", None, None);
            TryMerge(Start(a), b).Err? && TryMerge(Start(b), a).Err?
  {
    var a, b := Titled("A", None, Some(1)), Titled("A", None, None);
    assert Filled(ScalarOf(a.scalars, Title)) && Filled(ScalarOf(b.scalars, Title));
  }

  /** A better record without timestamp merges once and raises the second time. */
  lemma SecondMergeRaises()
    ensures var a, b := Titled("A", None, Some(1)), Titled("B", Some("P"), None);
            TryMerge(Start(a), b).Ok? && TryMerge(TryMerge(Start(a), b).value, b).Err?
  {
    var a, b := Titled("A", None, Some(1)), Titled("B", Some("P"), None);
    TitledScores();
    hide Quality, Absorb;
    MergeAgain(Start(a), b);
  }

  lemma TitledScores()
    ensures Quality(Titled("A", None, Some(1))) == 10 && Quality(Titled("B", Some("P"), None)) == 13
  {
  }

  lemma UnionKeepsPresence(a: seq<string>, b: seq<string>)
    ensures Union(a, b) == [] <==> a == [] && b == []
  {
    var both := a + b;
    if both != [] { assert both[0] in Dedup(both); }
    if Dedup(both) != [] { assert Dedup(both)[0] in both; }
  }

  lemma MergeListsKeepPresence(a: Lists, b: Lists)
    ensures ListQuality(MergeLists(a, b)) >= ListQuality(a) && ListQuality(MergeLists(a, b)) >= ListQuality(b)
  {
    hide Union;
    UnionKeepsPresence(a.authors, b.authors);
    UnionKeepsPresence(a.languages, b.languages);
    UnionKeepsPresence(a.isbn13, b.isbn13);
    UnionKeepsPresence(a.isbn10, b.isbn10);
    UnionKeepsPresence(a.doi, b.doi);
    UnionKeepsPresence(a.oclc, b.oclc);
    UnionKeepsPresence(a.openlibraryIds, b.openlibraryIds);
  }

  lemma MergeScalarsKeepPresence(a: Scalars, b: Scalars, wins: bool)
    ensures ScalarQuality(MergeScalars(a, b, wins)) >= if wins then ScalarQuality(b) else ScalarQuality(a)
  {
    hide Truthy;
  }

  /** The carried score never exceeds what the merged record itself would score. */
  lemma CarriedScoreIsLowerBound(e: Entry, r: Rec)
    requires e.score <= Quality(e.rec)
    ensures Absorb(e, r).score <= Quality(Absorb(e, r).rec)
  {
    hide MergeScalars, MergeLists, ScalarQuality, ListQuality, Tombstone, MergeOrigin, Latest;
    MergeListsKeepPresence(e.rec.lists, r.lists);
    MergeScalarsKeepPresence(e.rec.scalars, r.scalars, IncomingWins(e, r));
  }

  /** Two records that both carry a timestamp always merge. */
  lemma StampedNeverRaises(e: Entry, r: Rec)
    requires e.rec.sourceTimestamp.Some? && r.sourceTimestamp.Some?
    ensures !TieRaises(e, r) && Absorb(e, r).rec.sourceTimestamp.Some?
  {
  }
}
